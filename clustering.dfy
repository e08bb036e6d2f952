/** The `/api/cluster` endpoint (`cluster_tabs`): tabs are grouped by the
    label the clustering step gives them, noise and single-tab groups are
    dropped, and one result is emitted per remaining group. The embedding
    model, DBSCAN and the chat model are passed in as functions. */
module Clustering {
  import opened Wrappers
  import opened Models
  import opened Text
  import Palette
  import Embeddings
  import Naming

  /** DBSCAN's label for a tab that belongs to no cluster. */
  const Noise: int := -1

  /** A tab with the label the clustering step gave it. */
  type Labelled = (TabContent, int)

  /** `zip(request.tabs, labels)`: pairs up to the shorter of the two. */
  function Zip(tabs: seq<TabContent>, labels: seq<int>): (ps: seq<Labelled>)
    ensures |ps| == if |tabs| <= |labels| then |tabs| else |labels|
    ensures forall i :: 0 <= i < |ps| ==> ps[i] == (tabs[i], labels[i])
  {
    if |tabs| == 0 || |labels| == 0 then []
    else [(tabs[0], labels[0])] + Zip(tabs[1..], labels[1..])
  }

  /** The labels of the pairs, in order. */
  function LabelsOf(ps: seq<Labelled>): seq<int> {
    seq(|ps|, i requires 0 <= i < |ps| => ps[i].1)
  }

  ghost predicate Distinct(s: seq<int>) {
    forall j, k :: 0 <= j < k < |s| ==> s[j] != s[k]
  }

  /** Every occurrence of a later key comes after some occurrence of each
      earlier key: the keys are in order of first occurrence. */
  ghost predicate InFirstOccurrenceOrder(ps: seq<Labelled>, keys: seq<int>) {
    forall j, k, i :: 0 <= j < k < |keys| && 0 <= i < |ps| && ps[i].1 == keys[k] ==>
      keys[j] in LabelsOf(ps[..i])
  }

  // ---------------------------------------------------------------------
  // The first loop: the `clusters` dict.

  /** The keys of `clusters` in insertion order: each non-noise label, at
      its first occurrence. */
  function LabelOrder(ps: seq<Labelled>): (keys: seq<int>)
    ensures |keys| <= |ps|
    ensures forall j :: 0 <= j < |keys| ==> keys[j] != Noise
  {
    if ps == [] then []
    else
      var keys, l := LabelOrder(ps[..|ps| - 1]), ps[|ps| - 1].1;
      if l == Noise || l in keys then keys else keys + [l]
  }

  /** `clusters[l]`: the tabs labelled `l`, in input order. */
  function Members(ps: seq<Labelled>, l: int): (group: seq<TabContent>)
    ensures |group| <= |ps|
  {
    if ps == [] then []
    else Members(ps[..|ps| - 1], l) + (if ps[|ps| - 1].1 == l then [ps[|ps| - 1].0] else [])
  }

  /** The dict holds exactly the labels that occur, noise excepted. */
  lemma {:induction false} LabelOrderMembership(ps: seq<Labelled>)
    ensures forall l :: l in LabelOrder(ps) <==> l != Noise && l in LabelsOf(ps)
  {
    if ps != [] {
      var init := ps[..|ps| - 1];
      LabelOrderMembership(init);
      assert LabelsOf(ps) == LabelsOf(init) + [ps[|ps| - 1].1];
    }
  }

  /** Each label is a key once. */
  lemma {:induction false} LabelOrderDistinct(ps: seq<Labelled>)
    ensures Distinct(LabelOrder(ps))
  {
    if ps != [] {
      LabelOrderDistinct(ps[..|ps| - 1]);
    }
  }

  /** Insertion order is first-occurrence order. */
  lemma {:induction false} LabelOrderFirstOccurrence(ps: seq<Labelled>)
    ensures InFirstOccurrenceOrder(ps, LabelOrder(ps))
  {
    if ps != [] {
      var init, last := ps[..|ps| - 1], ps[|ps| - 1];
      var keys, order := LabelOrder(init), LabelOrder(ps);
      LabelOrderFirstOccurrence(init);
      LabelOrderMembership(init);
      LabelOrderMembership(ps);
      assert LabelsOf(ps[..|ps| - 1]) == LabelsOf(init);
      assert order == keys || (order == keys + [last.1] && last.1 !in keys);
      forall j, k, i | 0 <= j < k < |order| && 0 <= i < |ps| && ps[i].1 == order[k]
        ensures order[j] in LabelsOf(ps[..i])
      {
        assert order[j] in keys;
        if i < |init| {
          assert init[..i] == ps[..i];
          assert LabelsOf(init)[i] == ps[i].1;
          assert order[k] in order && order[k] in LabelsOf(init);
          assert order[k] != Noise && order[k] in keys;
          assert k < |keys|;
          assert order[j] == keys[j] && order[k] == keys[k];
        } else {
          assert ps[..i] == init;
        }
      }
    }
  }

  /** A tab is in `clusters[l]` exactly when some pair carries it with `l`. */
  lemma {:induction false} MembersMembership(ps: seq<Labelled>, l: int)
    ensures forall t :: t in Members(ps, l) <==> exists i :: 0 <= i < |ps| && ps[i] == (t, l)
  {
    if ps != [] {
      var init := ps[..|ps| - 1];
      MembersMembership(init, l);
      forall t | (exists i :: 0 <= i < |ps| && ps[i] == (t, l))
        ensures t in Members(ps, l)
      {
        var i :| 0 <= i < |ps| && ps[i] == (t, l);
        if i < |init| {
          assert init[i] == (t, l);
        }
      }
      forall t | t in Members(ps, l)
        ensures exists i :: 0 <= i < |ps| && ps[i] == (t, l)
      {
        if t in Members(init, l) {
          var i :| 0 <= i < |init| && init[i] == (t, l);
          assert ps[i] == (t, l);
        } else {
          assert ps[|ps| - 1] == (t, l);
        }
      }
    }
  }

  /** The positions of the pairs labelled `l`, ascending. */
  function IndicesOf(ps: seq<Labelled>, l: int): (idx: seq<nat>)
    ensures forall k :: 0 <= k < |idx| ==> idx[k] < |ps| && ps[idx[k]].1 == l
    ensures forall k, k' :: 0 <= k < k' < |idx| ==> idx[k] < idx[k']
  {
    if ps == [] then []
    else IndicesOf(ps[..|ps| - 1], l) + (if ps[|ps| - 1].1 == l then [|ps| - 1] else [])
  }

  /** Every position labelled `l` is listed. */
  lemma {:induction false} IndicesOfComplete(ps: seq<Labelled>, l: int)
    ensures forall i :: 0 <= i < |ps| && ps[i].1 == l ==> i in IndicesOf(ps, l)
  {
    if ps != [] {
      var init := ps[..|ps| - 1];
      IndicesOfComplete(init, l);
      forall i | 0 <= i < |ps| && ps[i].1 == l ensures i in IndicesOf(ps, l) {
        if i < |init| {
          assert init[i].1 == l;
        }
      }
    }
  }

  /** `clusters[l]` lists the tabs labelled `l` in input order: its k-th tab
      is the one at the k-th position labelled `l`. */
  lemma {:induction false} MembersInInputOrder(ps: seq<Labelled>, l: int)
    ensures var idx, g := IndicesOf(ps, l), Members(ps, l);
            |g| == |idx| && forall k :: 0 <= k < |idx| ==> ps[idx[k]].0 == g[k]
  {
    if ps != [] {
      var init := ps[..|ps| - 1];
      MembersInInputOrder(init, l);
      var idx0 := IndicesOf(init, l);
      assert forall k :: 0 <= k < |idx0| ==> ps[idx0[k]] == init[idx0[k]];
    }
  }

  /** A label that does not occur has no members. */
  lemma {:induction false} MembersOfAbsentLabel(ps: seq<Labelled>, l: int)
    requires l !in LabelsOf(ps)
    ensures Members(ps, l) == []
  {
    if ps != [] {
      var init := ps[..|ps| - 1];
      assert LabelsOf(ps) == LabelsOf(init) + [ps[|ps| - 1].1];
      MembersOfAbsentLabel(init, l);
    }
  }

  // ---------------------------------------------------------------------
  // The second loop: one result per group of at least two tabs.

  /** The keys whose group has at least two tabs, in key order. */
  function Surviving(ps: seq<Labelled>, keys: seq<int>): (kept: seq<int>)
    ensures |kept| <= |keys|
    ensures forall j :: 0 <= j < |kept| ==> |Members(ps, kept[j])| >= 2
  {
    if keys == [] then []
    else
      var l := keys[|keys| - 1];
      Surviving(ps, keys[..|keys| - 1]) + (if |Members(ps, l)| >= 2 then [l] else [])
  }

  lemma {:induction false} SurvivingMembership(ps: seq<Labelled>, keys: seq<int>)
    ensures forall l :: l in Surviving(ps, keys) <==> l in keys && |Members(ps, l)| >= 2
  {
    if keys != [] {
      SurvivingMembership(ps, keys[..|keys| - 1]);
      assert keys == keys[..|keys| - 1] + [keys[|keys| - 1]];
    }
  }

  lemma {:induction false} SurvivingDistinct(ps: seq<Labelled>, keys: seq<int>)
    requires Distinct(keys)
    ensures Distinct(Surviving(ps, keys))
  {
    if keys != [] {
      var init := keys[..|keys| - 1];
      SurvivingDistinct(ps, init);
      SurvivingMembership(ps, init);
    }
  }

  lemma {:induction false} SurvivingKeepsOrder(ps: seq<Labelled>, keys: seq<int>)
    requires InFirstOccurrenceOrder(ps, keys)
    ensures InFirstOccurrenceOrder(ps, Surviving(ps, keys))
  {
    if keys != [] {
      var init, last := keys[..|keys| - 1], keys[|keys| - 1];
      assert InFirstOccurrenceOrder(ps, init);
      SurvivingKeepsOrder(ps, init);
      SurvivingMembership(ps, init);
      var s := Surviving(ps, keys);
      var s0 := Surviving(ps, init);
      forall j, k, i | 0 <= j < k < |s| && 0 <= i < |ps| && ps[i].1 == s[k]
        ensures s[j] in LabelsOf(ps[..i])
      {
        if k == |s0| {
          assert s[j] == s0[j] && s0[j] in s0;
          assert s[j] in init;
          var j' :| 0 <= j' < |init| && init[j'] == s[j];
          assert keys[j'] == s[j] && keys[|keys| - 1] == s[k];
        }
      }
    }
  }

  /** The id of the result for label `l`: `f"cluster_{l}"`. */
  function ClusterId(l: int): (id: string)
    ensures |id| > 8 && id[..8] == "cluster_" && id[8..] == IntToString(l)
  {
    var id := "cluster_" + IntToString(l);
    assert id[8..] == IntToString(l);
    id
  }

  /** Different labels give different ids. */
  lemma ClusterIdInjective(a: int, b: int)
    requires ClusterId(a) == ClusterId(b)
    ensures a == b
  {
    IntToStringInjective(a, b);
  }

  /** The `ClusterResult` for label `l` with its tabs and name. */
  function MakeResult(l: int, members: seq<TabContent>, name: string): (r: ClusterResult)
    ensures r.id == ClusterId(l) && r.name == name
    ensures r.color in Palette.Colors && r.color == Palette.AssignColor(l)
    ensures |r.tabIds| == |members| && forall k :: 0 <= k < |members| ==> r.tabIds[k] == members[k].tabId
  {
    ClusterResult(ClusterId(l), name, Palette.AssignColor(l), TabIds(members))
  }

  /** The result for key `l`, or the error raised while naming its group. */
  function ResultFor(ps: seq<Labelled>, l: int, chat: string -> Option<string>): (r: Result<ClusterResult, Error>)
    ensures var named := Naming.GenerateGroupName(Members(ps, l), chat);
            && (r.Success? <==> named.Success?)
            && (r.Failure? ==> r.error == named.error)
            && (r.Success? ==> r.value.id == ClusterId(l) && r.value.name == named.value
                               && |r.value.tabIds| == |Members(ps, l)|)
  {
    var group := Members(ps, l);
    match Naming.GenerateGroupName(group, chat)
    case Failure(e) => Failure(e)
    case Success(name) => Success(MakeResult(l, group, name))
  }

  /** The second loop run over `keys`: a group of fewer than two tabs is
      skipped; an exception raised while naming a group ends the request. */
  function Assemble(ps: seq<Labelled>, keys: seq<int>, chat: string -> Option<string>): (r: Result<seq<ClusterResult>, Error>)
    ensures r.Success? ==> |r.value| == |Surviving(ps, keys)|
  {
    if keys == [] then Success([])
    else
      match Assemble(ps, keys[..|keys| - 1], chat)
      case Failure(e) => Failure(e)
      case Success(rs) =>
        var l := keys[|keys| - 1];
        var group := Members(ps, l);
        if |group| < 2 then Success(rs)
        else
          match ResultFor(ps, l, chat)
          case Failure(e) => Failure(e)
          case Success(r) => Success(rs + [r])
  }

  /** One more key: the loop body of the second loop. */
  lemma AssembleStep(ps: seq<Labelled>, keys: seq<int>, k: nat, chat: string -> Option<string>)
    requires k < |keys|
    ensures var l := keys[k];
            var group := Members(ps, l);
            var before := Assemble(ps, keys[..k], chat);
            Assemble(ps, keys[..k + 1], chat) ==
              if before.Failure? || |group| < 2 then before
              else if Naming.GenerateGroupName(group, chat).Failure? then Failure(Naming.GenerateGroupName(group, chat).error)
              else Success(before.value + [MakeResult(l, group, Naming.GenerateGroupName(group, chat).value)])
  {
    assert keys[..k + 1][..k] == keys[..k];
  }

  /** Once naming a group has raised, later groups change nothing. */
  lemma {:induction false} AssembleFailureSticks(ps: seq<Labelled>, keys: seq<int>, k: nat, chat: string -> Option<string>)
    requires k <= |keys| && Assemble(ps, keys[..k], chat).Failure?
    ensures Assemble(ps, keys, chat) == Assemble(ps, keys[..k], chat)
    decreases |keys| - k
  {
    if k < |keys| {
      var init := keys[..|keys| - 1];
      assert init[..k] == keys[..k];
      AssembleFailureSticks(ps, init, k, chat);
    } else {
      assert keys[..k] == keys;
    }
  }

  /** Assembling succeeds exactly when every surviving group can be named. */
  lemma {:induction false} AssembleSucceeds(ps: seq<Labelled>, keys: seq<int>, chat: string -> Option<string>)
    ensures Assemble(ps, keys, chat).Success?
       <==> forall l :: l in Surviving(ps, keys) ==> Naming.GenerateGroupName(Members(ps, l), chat).Success?
  {
    if keys != [] {
      var init, l := keys[..|keys| - 1], keys[|keys| - 1];
      AssembleSucceeds(ps, init, chat);
      var s0, group := Surviving(ps, init), Members(ps, l);
      var named := Naming.GenerateGroupName(group, chat).Success?;
      if |group| < 2 {
        assert Surviving(ps, keys) == s0;
        assert Assemble(ps, keys, chat) == Assemble(ps, init, chat);
      } else {
        assert Surviving(ps, keys) == s0 + [l];
        assert ResultFor(ps, l, chat).Success? <==> named;
        assert Assemble(ps, keys, chat).Success? <==> Assemble(ps, init, chat).Success? && ResultFor(ps, l, chat).Success?;
        var all := Surviving(ps, keys);
        assert l in all && forall m :: m in s0 ==> m in all;
        assert forall m :: m in all ==> m in s0 || m == l;
      }
    }
  }

  /** `rs` holds one result per key of `s`, in order, each the success
      value of `f` at that key. */
  ghost predicate BuiltBy(s: seq<int>, rs: seq<ClusterResult>, f: int -> Result<ClusterResult, Error>) {
    |rs| == |s| && forall j :: 0 <= j < |s| ==> f(s[j]) == Success(rs[j])
  }

  lemma BuiltByAppend(s: seq<int>, rs: seq<ClusterResult>, l: int, r: ClusterResult, f: int -> Result<ClusterResult, Error>)
    requires BuiltBy(s, rs, f) && f(l) == Success(r)
    ensures BuiltBy(s + [l], rs + [r], f)
  {
    var s', rs' := s + [l], rs + [r];
    forall j | 0 <= j < |s'| ensures f(s'[j]) == Success(rs'[j]) {
      if j < |s| {
        assert s'[j] == s[j] && rs'[j] == rs[j];
      }
    }
  }

  /** `rs` holds one result per key of `s`, in order, each built from that
      key's group and the group's name. */
  ghost predicate BuiltFrom(ps: seq<Labelled>, s: seq<int>, rs: seq<ClusterResult>, chat: string -> Option<string>) {
    |rs| == |s| && forall j :: 0 <= j < |s| ==> ResultFor(ps, s[j], chat) == Success(rs[j])
  }

  lemma BuiltFromAppend(ps: seq<Labelled>, s: seq<int>, rs: seq<ClusterResult>, l: int, r: ClusterResult, chat: string -> Option<string>)
    requires BuiltFrom(ps, s, rs, chat) && ResultFor(ps, l, chat) == Success(r)
    ensures BuiltFrom(ps, s + [l], rs + [r], chat)
  {
    var f := (k: int) => ResultFor(ps, k, chat);
    assert BuiltBy(s, rs, f);
    BuiltByAppend(s, rs, l, r, f);
  }

  /** One result per surviving key, in key order, each built from its group. */
  lemma {:induction false} AssembleShape(ps: seq<Labelled>, keys: seq<int>, chat: string -> Option<string>)
    requires Assemble(ps, keys, chat).Success?
    ensures BuiltFrom(ps, Surviving(ps, keys), Assemble(ps, keys, chat).value, chat)
  {
    if keys != [] {
      var init, l := keys[..|keys| - 1], keys[|keys| - 1];
      var group := Members(ps, l);
      assert Assemble(ps, init, chat).Success?;
      AssembleShape(ps, init, chat);
      if |group| >= 2 {
        var rs0, s0 := Assemble(ps, init, chat).value, Surviving(ps, init);
        BuiltFromAppend(ps, s0, rs0, l, ResultFor(ps, l, chat).value, chat);
      }
    }
  }

  // ---------------------------------------------------------------------
  // The endpoint.

  /** The grouping and assembly of `cluster_tabs` for given labels. */
  function GroupResults(tabs: seq<TabContent>, labels: seq<int>, chat: string -> Option<string>): (r: Result<seq<ClusterResult>, Error>)
    ensures r.Success? ==> |r.value| == |ResultLabels(tabs, labels)|
  {
    var ps := Zip(tabs, labels);
    Assemble(ps, LabelOrder(ps), chat)
  }

  /** The labels whose groups are emitted, in emission order. */
  function ResultLabels(tabs: seq<TabContent>, labels: seq<int>): seq<int> {
    var ps := Zip(tabs, labels);
    Surviving(ps, LabelOrder(ps))
  }

  /** The whole endpoint: an empty request is answered at once; otherwise
      the texts are embedded, labelled and grouped. */
  function ClusterResponse(
    tabs: seq<TabContent>,
    embed: seq<string> -> Option<seq<Embeddings.Embedding>>,
    dbscan: seq<Embeddings.Embedding> -> seq<int>,
    chat: string -> Option<string>): (r: Result<seq<ClusterResult>, Error>)
    ensures tabs == [] ==> r == Success([])
    ensures tabs != [] && embed(Embeddings.Texts(tabs)).None? ==> r == Failure(EmbeddingFailed)
    ensures r.Failure? ==> r.error == EmbeddingFailed || r.error.UrlWithoutDomain?
  {
    if tabs == [] then Success([])
    else
      match embed(Embeddings.Texts(tabs))
      case None => Failure(EmbeddingFailed)
      case Some(embeddings) => GroupResults(tabs, Embeddings.ClusterEmbeddings(embeddings, dbscan), chat)
  }

  // ---------------------------------------------------------------------
  // What the endpoint promises about its results.

  /** No two tabs of the request share an id (browser tab ids are unique). */
  ghost predicate UniqueIds(tabs: seq<TabContent>) {
    forall i, j :: 0 <= i < j < |tabs| ==> tabs[i].tabId != tabs[j].tabId
  }

  /** The emitted labels: each at most once, never noise, exactly the labels
      carried by at least two tabs, in order of first occurrence. */
  lemma ResultLabelsFacts(tabs: seq<TabContent>, labels: seq<int>)
    ensures var ps, s := Zip(tabs, labels), ResultLabels(tabs, labels);
            && Distinct(s)
            && (forall l :: l in s <==> l != Noise && l in LabelsOf(ps) && |Members(ps, l)| >= 2)
            && InFirstOccurrenceOrder(ps, s)
  {
    var ps := Zip(tabs, labels);
    LabelOrderMembership(ps);
    LabelOrderDistinct(ps);
    LabelOrderFirstOccurrence(ps);
    SurvivingMembership(ps, LabelOrder(ps));
    SurvivingDistinct(ps, LabelOrder(ps));
    SurvivingKeepsOrder(ps, LabelOrder(ps));
  }

  /** The request fails exactly when naming one of the emitted groups raises. */
  lemma GroupResultsSucceeds(tabs: seq<TabContent>, labels: seq<int>, chat: string -> Option<string>)
    ensures GroupResults(tabs, labels, chat).Success?
       <==> forall l :: l in ResultLabels(tabs, labels) ==>
              Naming.GenerateGroupName(Members(Zip(tabs, labels), l), chat).Success?
  {
    var ps := Zip(tabs, labels);
    assert GroupResults(tabs, labels, chat) == Assemble(ps, LabelOrder(ps), chat);
    assert ResultLabels(tabs, labels) == Surviving(ps, LabelOrder(ps));
    AssembleSucceeds(ps, LabelOrder(ps), chat);
  }

  /** Result `j` belongs to emitted label `j`: its id is `cluster_<label>`,
      its colour that label's palette entry, its tab ids those of the tabs
      carrying the label in input order, and its name the group's name. */
  lemma GroupResultsShape(tabs: seq<TabContent>, labels: seq<int>, chat: string -> Option<string>)
    requires GroupResults(tabs, labels, chat).Success?
    ensures var rs, s, ps := GroupResults(tabs, labels, chat).value, ResultLabels(tabs, labels), Zip(tabs, labels);
            && |rs| == |s|
            && forall j :: 0 <= j < |s| ==>
                 && rs[j].id == ClusterId(s[j])
                 && rs[j].color == Palette.AssignColor(s[j])
                 && rs[j].tabIds == TabIds(Members(ps, s[j]))
                 && Naming.GenerateGroupName(Members(ps, s[j]), chat) == Success(rs[j].name)
  {
    var ps := Zip(tabs, labels);
    AssembleShape(ps, LabelOrder(ps), chat);
    var rs, s := GroupResults(tabs, labels, chat).value, ResultLabels(tabs, labels);
    forall j | 0 <= j < |s|
      ensures && rs[j].id == ClusterId(s[j])
              && rs[j].color == Palette.AssignColor(s[j])
              && rs[j].tabIds == TabIds(Members(ps, s[j]))
              && Naming.GenerateGroupName(Members(ps, s[j]), chat) == Success(rs[j].name)
    {
      assert ResultFor(ps, s[j], chat) == Success(rs[j]);
    }
  }

  /** The id and the tab ids of result `j` are those of label `j` and its group. */
  lemma ResultOfLabel(tabs: seq<TabContent>, labels: seq<int>, chat: string -> Option<string>, j: nat)
    requires GroupResults(tabs, labels, chat).Success?
    requires j < |ResultLabels(tabs, labels)|
    ensures j < |GroupResults(tabs, labels, chat).value|
    ensures var r, l := GroupResults(tabs, labels, chat).value[j], ResultLabels(tabs, labels)[j];
            r.id == ClusterId(l) && r.tabIds == TabIds(Members(Zip(tabs, labels), l))
  {
    GroupResultsShape(tabs, labels, chat);
  }

  /** Every emitted result holds at least two tab ids. */
  lemma ResultsHaveTwoTabs(tabs: seq<TabContent>, labels: seq<int>, chat: string -> Option<string>)
    requires GroupResults(tabs, labels, chat).Success?
    ensures forall r :: r in GroupResults(tabs, labels, chat).value ==> |r.tabIds| >= 2
  {
    GroupResultsShape(tabs, labels, chat);
    ResultLabelsFacts(tabs, labels);
  }

  /** The ids `cluster_<label>` of the emitted results are pairwise distinct. */
  lemma ResultIdsDistinct(tabs: seq<TabContent>, labels: seq<int>, chat: string -> Option<string>)
    requires GroupResults(tabs, labels, chat).Success?
    ensures var rs := GroupResults(tabs, labels, chat).value;
            forall j, k :: 0 <= j < k < |rs| ==> rs[j].id != rs[k].id
  {
    var rs, s := GroupResults(tabs, labels, chat).value, ResultLabels(tabs, labels);
    GroupResultsShape(tabs, labels, chat);
    ResultLabelsFacts(tabs, labels);
    forall j, k | 0 <= j < k < |rs| ensures rs[j].id != rs[k].id {
      if rs[j].id == rs[k].id {
        ClusterIdInjective(s[j], s[k]);
      }
    }
  }

  /** Each tab id in a result is that of a non-noise tab whose label names
      the result. */
  lemma ResultTabsCarryItsLabel(tabs: seq<TabContent>, labels: seq<int>, chat: string -> Option<string>)
    requires GroupResults(tabs, labels, chat).Success?
    ensures var rs := GroupResults(tabs, labels, chat).value;
            forall j, x :: 0 <= j < |rs| && x in rs[j].tabIds ==>
              exists i :: 0 <= i < |tabs| && i < |labels| && tabs[i].tabId == x
                       && labels[i] != Noise && rs[j].id == ClusterId(labels[i])
  {
    var rs, s, ps := GroupResults(tabs, labels, chat).value, ResultLabels(tabs, labels), Zip(tabs, labels);
    LabelOrderMembership(ps);
    SurvivingMembership(ps, LabelOrder(ps));
    forall j, x | 0 <= j < |rs| && x in rs[j].tabIds
      ensures exists i :: 0 <= i < |tabs| && i < |labels| && tabs[i].tabId == x
                       && labels[i] != Noise && rs[j].id == ClusterId(labels[i])
    {
      ResultOfLabel(tabs, labels, chat, j);
      var group := Members(ps, s[j]);
      var k :| 0 <= k < |rs[j].tabIds| && rs[j].tabIds[k] == x;
      MembersMembership(ps, s[j]);
      assert group[k] in group;
      var i :| 0 <= i < |ps| && ps[i] == (group[k], s[j]);
      assert s[j] in s;
    }
  }

  /** The ids of the group of `l` are those of the tabs labelled `l`, all of
      them, in input order. */
  lemma GroupIdsInInputOrder(tabs: seq<TabContent>, labels: seq<int>, l: int)
    ensures var ids, idx := TabIds(Members(Zip(tabs, labels), l)), IndicesOf(Zip(tabs, labels), l);
            && |ids| == |idx|
            && (forall k :: 0 <= k < |idx| ==>
                  idx[k] < |tabs| && idx[k] < |labels| && labels[idx[k]] == l && ids[k] == tabs[idx[k]].tabId)
            && (forall k, k' :: 0 <= k < k' < |idx| ==> idx[k] < idx[k'])
            && (forall i :: 0 <= i < |tabs| && i < |labels| && labels[i] == l ==> i in idx)
  {
    var ps := Zip(tabs, labels);
    var g, idx := Members(ps, l), IndicesOf(ps, l);
    var ids := TabIds(g);
    MembersInInputOrder(ps, l);
    IndicesOfComplete(ps, l);
    forall k | 0 <= k < |idx|
      ensures idx[k] < |tabs| && idx[k] < |labels| && labels[idx[k]] == l && ids[k] == tabs[idx[k]].tabId
    {
      assert ps[idx[k]] == (tabs[idx[k]], labels[idx[k]]);
      assert ids[k] == g[k].tabId;
    }
    forall i | 0 <= i < |tabs| && i < |labels| && labels[i] == l ensures i in idx {
      assert ps[i].1 == l;
    }
  }

  /** The tab ids of result `j` are those of the tabs carrying its label,
      all of them, in input order. */
  lemma ResultTabIdsInInputOrder(tabs: seq<TabContent>, labels: seq<int>, chat: string -> Option<string>, j: nat)
    requires GroupResults(tabs, labels, chat).Success?
    requires j < |GroupResults(tabs, labels, chat).value|
    ensures j < |ResultLabels(tabs, labels)|
    ensures var ids, l := GroupResults(tabs, labels, chat).value[j].tabIds, ResultLabels(tabs, labels)[j];
            var idx := IndicesOf(Zip(tabs, labels), l);
            && |ids| == |idx|
            && (forall k :: 0 <= k < |idx| ==>
                  idx[k] < |tabs| && idx[k] < |labels| && labels[idx[k]] == l && ids[k] == tabs[idx[k]].tabId)
            && (forall k, k' :: 0 <= k < k' < |idx| ==> idx[k] < idx[k'])
            && (forall i :: 0 <= i < |tabs| && i < |labels| && labels[i] == l ==> i in idx)
  {
    ResultOfLabel(tabs, labels, chat, j);
    GroupIdsInInputOrder(tabs, labels, ResultLabels(tabs, labels)[j]);
  }

  /** The id of a tab of a list is among the list's ids. */
  lemma {:induction false} IdInTabIds(tabs: seq<TabContent>, t: TabContent)
    requires t in tabs
    ensures t.tabId in TabIds(tabs)
  {
    var k :| 0 <= k < |tabs| && tabs[k] == t;
    assert TabIds(tabs)[k] == t.tabId;
  }

  /** With unique tab ids, a result holding a tab's id is the result for
      that tab's label. */
  lemma ResultHoldingTabIsItsLabel(tabs: seq<TabContent>, labels: seq<int>, chat: string -> Option<string>, i: nat, j: nat)
    requires GroupResults(tabs, labels, chat).Success?
    requires UniqueIds(tabs)
    requires i < |tabs| && i < |labels|
    requires j < |GroupResults(tabs, labels, chat).value|
    requires tabs[i].tabId in GroupResults(tabs, labels, chat).value[j].tabIds
    ensures j < |ResultLabels(tabs, labels)| && ResultLabels(tabs, labels)[j] == labels[i]
  {
    var rs, s := GroupResults(tabs, labels, chat).value, ResultLabels(tabs, labels);
    GroupResultsShape(tabs, labels, chat);
    ResultTabsCarryItsLabel(tabs, labels, chat);
    var i' :| 0 <= i' < |tabs| && i' < |labels| && tabs[i'].tabId == tabs[i].tabId
            && labels[i'] != Noise && rs[j].id == ClusterId(labels[i']);
    assert i' == i;
    ClusterIdInjective(s[j], labels[i]);
  }

  /** A non-noise tab whose label is carried by at least two tabs is in the
      result for its label. */
  lemma GroupedTabIsEmitted(tabs: seq<TabContent>, labels: seq<int>, chat: string -> Option<string>, i: nat)
    requires GroupResults(tabs, labels, chat).Success?
    requires i < |tabs| && i < |labels|
    requires labels[i] != Noise && |Members(Zip(tabs, labels), labels[i])| >= 2
    ensures exists j :: 0 <= j < |ResultLabels(tabs, labels)| && ResultLabels(tabs, labels)[j] == labels[i]
                     && j < |GroupResults(tabs, labels, chat).value|
                     && tabs[i].tabId in GroupResults(tabs, labels, chat).value[j].tabIds
  {
    var rs, s, ps := GroupResults(tabs, labels, chat).value, ResultLabels(tabs, labels), Zip(tabs, labels);
    var l := labels[i];
    LabelOrderMembership(ps);
    SurvivingMembership(ps, LabelOrder(ps));
    assert LabelsOf(ps)[i] == l;
    assert l in s;
    var j :| 0 <= j < |s| && s[j] == l;
    ResultOfLabel(tabs, labels, chat, j);
    MembersMembership(ps, l);
    assert ps[i] == (tabs[i], l);
    IdInTabIds(Members(ps, l), tabs[i]);
    assert tabs[i].tabId in rs[j].tabIds;
  }

  /** With unique tab ids: a tab appears in some result exactly when it is
      not noise and its label is carried by at least two tabs, and then in
      one result only. */
  lemma TabPlacement(tabs: seq<TabContent>, labels: seq<int>, chat: string -> Option<string>, i: nat)
    requires GroupResults(tabs, labels, chat).Success?
    requires UniqueIds(tabs)
    requires i < |tabs| && i < |labels|
    ensures var rs, ps := GroupResults(tabs, labels, chat).value, Zip(tabs, labels);
            && ((exists j :: 0 <= j < |rs| && tabs[i].tabId in rs[j].tabIds)
                <==> labels[i] != Noise && |Members(ps, labels[i])| >= 2)
            && forall j, k :: 0 <= j < |rs| && 0 <= k < |rs| && tabs[i].tabId in rs[j].tabIds && tabs[i].tabId in rs[k].tabIds ==> j == k
  {
    var rs, s, ps := GroupResults(tabs, labels, chat).value, ResultLabels(tabs, labels), Zip(tabs, labels);
    ResultLabelsFacts(tabs, labels);
    forall j, k | 0 <= j < |rs| && 0 <= k < |rs| && tabs[i].tabId in rs[j].tabIds && tabs[i].tabId in rs[k].tabIds
      ensures j == k
    {
      ResultHoldingTabIsItsLabel(tabs, labels, chat, i, j);
      ResultHoldingTabIsItsLabel(tabs, labels, chat, i, k);
    }
    if exists j :: 0 <= j < |rs| && tabs[i].tabId in rs[j].tabIds {
      var j :| 0 <= j < |rs| && tabs[i].tabId in rs[j].tabIds;
      ResultHoldingTabIsItsLabel(tabs, labels, chat, i, j);
      assert s[j] in s;
    }
    if labels[i] != Noise && |Members(ps, labels[i])| >= 2 {
      GroupedTabIsEmitted(tabs, labels, chat, i);
    }
  }

  /** Fewer than two tabs never form a cluster: the answer is empty unless
      the embedding call raised. */
  lemma FewerThanTwoTabsGiveNoClusters(
    tabs: seq<TabContent>,
    embed: seq<string> -> Option<seq<Embeddings.Embedding>>,
    dbscan: seq<Embeddings.Embedding> -> seq<int>,
    chat: string -> Option<string>)
    requires |tabs| < 2
    ensures ClusterResponse(tabs, embed, dbscan, chat)
         == if tabs != [] && embed(Embeddings.Texts(tabs)).None? then Failure(EmbeddingFailed) else Success([])
  {
    if tabs != [] && embed(Embeddings.Texts(tabs)).Some? {
      var labels := Embeddings.ClusterEmbeddings(embed(Embeddings.Texts(tabs)).value, dbscan);
      var ps := Zip(tabs, labels);
      SurvivingOfShortInput(ps, LabelOrder(ps));
      AssembleSucceeds(ps, LabelOrder(ps), chat);
      AssembleShape(ps, LabelOrder(ps), chat);
    }
  }

  /** With fewer than two pairs no group reaches two tabs. */
  lemma {:induction false} SurvivingOfShortInput(ps: seq<Labelled>, keys: seq<int>)
    requires |ps| < 2
    ensures Surviving(ps, keys) == []
  {
    if keys != [] {
      SurvivingOfShortInput(ps, keys[..|keys| - 1]);
    }
  }


  /** The first loop of `cluster_tabs`: the `clusters` dict, as its
      insertion-ordered keys and its contents. Noise tabs are skipped. */
  method GroupByLabel(tabs: seq<TabContent>, labels: seq<int>)
    returns (clusters: map<int, seq<TabContent>>, order: seq<int>)
    ensures order == LabelOrder(Zip(tabs, labels))
    ensures forall l :: l in clusters <==> l in order
    ensures forall l :: l in clusters ==> clusters[l] == Members(Zip(tabs, labels), l)
  {
    ghost var ps := Zip(tabs, labels);
    var n := if |tabs| <= |labels| then |tabs| else |labels|;
    clusters, order := map[], [];
    for i := 0 to n
      invariant order == LabelOrder(ps[..i])
      invariant forall l :: l in clusters <==> l in order
      invariant forall l :: l in clusters ==> clusters[l] == Members(ps[..i], l)
    {
      assert ps[..i + 1][..i] == ps[..i];
      LabelOrderMembership(ps[..i]);
      var tab, lbl := tabs[i], labels[i];
      if lbl == Noise {
        continue;
      }
      if lbl !in clusters {
        MembersOfAbsentLabel(ps[..i], lbl);
        clusters := clusters[lbl := []];
        order := order + [lbl];
      }
      clusters := clusters[lbl := clusters[lbl] + [tab]];
    }
    assert ps[..n] == ps;
  }

  /** The second loop of `cluster_tabs`: one result per group of at least
      two tabs, in key order; an exception while naming ends the loop. */
  method EmitResults(ghost ps: seq<Labelled>, clusters: map<int, seq<TabContent>>, order: seq<int>, chat: string -> Option<string>)
    returns (response: Result<seq<ClusterResult>, Error>)
    requires forall l :: l in order ==> l in clusters && clusters[l] == Members(ps, l)
    ensures response == Assemble(ps, order, chat)
  {
    var results: seq<ClusterResult> := [];
    for k := 0 to |order|
      invariant Assemble(ps, order[..k], chat) == Success(results)
    {
      AssembleStep(ps, order, k, chat);
      var clusterId := order[k];
      var group := clusters[clusterId];
      if |group| < 2 {
        continue;
      }
      var name := Naming.GenerateGroupName(group, chat);
      if name.Failure? {
        AssembleFailureSticks(ps, order, k + 1, chat);
        return Failure(name.error);
      }
      results := results + [MakeResult(clusterId, group, name.value)];
    }
    assert order[..|order|] == order;
    response := Success(results);
  }

  /** `cluster_tabs` */
  method ClusterTabs(
    tabs: seq<TabContent>,
    embed: seq<string> -> Option<seq<Embeddings.Embedding>>,
    dbscan: seq<Embeddings.Embedding> -> seq<int>,
    chat: string -> Option<string>)
    returns (response: Result<seq<ClusterResult>, Error>)
    ensures response == ClusterResponse(tabs, embed, dbscan, chat)
  {
    if |tabs| == 0 {
      return Success([]);
    }
    var embeddings := Embeddings.GenerateEmbeddings(tabs, embed);
    if embeddings.None? {
      return Failure(EmbeddingFailed);
    }
    var labels := Embeddings.ClusterEmbeddings(embeddings.value, dbscan);
    var clusters, order := GroupByLabel(tabs, labels);
    response := EmitResults(Zip(tabs, labels), clusters, order, chat);
  }
}
