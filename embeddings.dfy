/** Text preparation for the embedding call (`generate_embeddings`) and the
    label source (`cluster_embeddings`). The embedding model and DBSCAN are
    foreign: they are passed in as functions. */
module Embeddings {
  import opened Wrappers
  import opened Models
  import opened Text

  /** One embedding vector, as the embedding model returns it. */
  type Embedding = seq<real>

  /** Characters of the page text that go into the embedded text. */
  const ContentLimit: nat := 1000

  /** `f"Title: {tab.title}\nContent: {tab.text[:1000]}"`: the title and the
      first 1000 characters of the text stand at fixed places, so both can be
      read back from it. */
  function CombinedText(tab: TabContent): (s: string)
    ensures var n := |tab.title|;
            var m := if |tab.text| < ContentLimit then |tab.text| else ContentLimit;
            && |s| == 17 + n + m
            && s[..7] == "Title: "
            && s[7..7 + n] == tab.title
            && s[7 + n..17 + n] == "\nContent: "
            && s[17 + n..] == tab.text[..m]
  {
    var s := ("Title: " + tab.title) + "\nContent: " + Take(tab.text, ContentLimit);
    s
  }

  /** Text past the first 1000 characters does not reach the embedding. */
  lemma CombinedTextIgnoresTail(tab: TabContent, extra: string)
    requires |tab.text| >= ContentLimit
    ensures CombinedText(tab.(text := tab.text + extra)) == CombinedText(tab)
  {
    assert (tab.text + extra)[..ContentLimit] == tab.text[..ContentLimit];
  }

  /** The list `texts` built by the loop of `generate_embeddings`. */
  function Texts(tabs: seq<TabContent>): (texts: seq<string>)
    ensures |texts| == |tabs|
    ensures forall i :: 0 <= i < |tabs| ==> texts[i] == CombinedText(tabs[i])
  {
    seq(|tabs|, i requires 0 <= i < |tabs| => CombinedText(tabs[i]))
  }

  /** The loop of `generate_embeddings`: one text per tab, in tab order. */
  method BuildTexts(tabs: seq<TabContent>) returns (texts: seq<string>)
    ensures |texts| == |tabs|
    ensures forall i :: 0 <= i < |tabs| ==> texts[i] == CombinedText(tabs[i])
  {
    texts := [];
    for i := 0 to |tabs|
      invariant |texts| == i
      invariant forall k :: 0 <= k < i ==> texts[k] == CombinedText(tabs[k])
    {
      texts := texts + [CombinedText(tabs[i])];
    }
  }

  /** `generate_embeddings`: the embedding model is asked once, about the
      texts of all tabs; None stands for the call raising. */
  method GenerateEmbeddings(tabs: seq<TabContent>, embed: seq<string> -> Option<seq<Embedding>>)
    returns (embeddings: Option<seq<Embedding>>)
    ensures embeddings == embed(Texts(tabs))
  {
    var texts := BuildTexts(tabs);
    assert texts == Texts(tabs);
    embeddings := embed(texts);
  }

  /** `cluster_embeddings`: fewer than two embeddings all get label 0;
      otherwise the labels are DBSCAN's. */
  function ClusterEmbeddings(embeddings: seq<Embedding>, dbscan: seq<Embedding> -> seq<int>): (labels: seq<int>)
    ensures |embeddings| < 2 ==> |labels| == |embeddings| && forall i :: 0 <= i < |labels| ==> labels[i] == 0
    ensures |embeddings| >= 2 ==> labels == dbscan(embeddings)
  {
    if |embeddings| < 2 then seq(|embeddings|, _ => 0) else dbscan(embeddings)
  }

  /** On fewer than two embeddings, DBSCAN is not consulted. */
  lemma SmallInputSkipsDbscan(embeddings: seq<Embedding>, d1: seq<Embedding> -> seq<int>, d2: seq<Embedding> -> seq<int>)
    requires |embeddings| < 2
    ensures ClusterEmbeddings(embeddings, d1) == ClusterEmbeddings(embeddings, d2)
  {
  }
}
