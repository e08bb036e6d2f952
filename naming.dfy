/** Group naming (`generate_group_name`): a prompt built from the first five
    titles, the chat model's reply cleaned up, and a fallback to the first
    tab's domain when the chat call raises. The chat model is foreign: it is
    passed in as a function from prompt to reply, None standing for the call
    raising. */
module Naming {
  import opened Wrappers
  import opened Models
  import opened Text

  /** Longest name kept from the chat reply. */
  const MaxNameLength: nat := 30

  /** Titles that go into the prompt. */
  const PromptTitleLimit: nat := 5

  /** Name used when there is no tab to take a domain from. */
  const UnnamedGroup: string := "Unnamed Group"

  /** `[tab.title for tab in tabs[:5]]` */
  function PromptTitles(tabs: seq<TabContent>): (titles: seq<string>)
    ensures |titles| == if |tabs| < PromptTitleLimit then |tabs| else PromptTitleLimit
    ensures forall i :: 0 <= i < |titles| ==> titles[i] == tabs[i].title
  {
    var first := Take(tabs, PromptTitleLimit);
    seq(|first|, i requires 0 <= i < |first| => first[i].title)
  }

  /** `f'- {t}'` for each title. */
  function Bullets(titles: seq<string>): (lines: seq<string>)
    ensures |lines| == |titles|
    ensures forall i :: 0 <= i < |titles| ==> |lines[i]| == 2 + |titles[i]| && lines[i][..2] == "- " && lines[i][2..] == titles[i]
  {
    seq(|titles|, i requires 0 <= i < |titles| => "- " + titles[i])
  }

  /** The fixed text before the titles in the prompt. */
  const PromptHead: string :=
    "Based on these browser tab titles, generate a short (2-4 words) \n"
    + "descriptive group name that captures their common theme.\n\nTab titles:\n"

  /** The fixed text after the titles in the prompt. */
  const PromptTail: string := "\n\nRespond with ONLY the group name, nothing else:"

  /** The prompt sent to the chat model. */
  function Prompt(tabs: seq<TabContent>): (p: string)
    ensures |p| >= |PromptHead| + |PromptTail|
    ensures p[..|PromptHead|] == PromptHead
    ensures p[|p| - |PromptTail|..] == PromptTail
    ensures p[|PromptHead|..|p| - |PromptTail|] == JoinWith(Bullets(PromptTitles(tabs)), "\n")
  {
    var body := JoinWith(Bullets(PromptTitles(tabs)), "\n");
    var p := PromptHead + body + PromptTail;
    assert p[..|PromptHead|] == PromptHead;
    assert p[|PromptHead|..|p| - |PromptTail|] == body;
    p
  }

  /** The prompt depends on the first five titles only. */
  lemma PromptSeesFirstFiveTitles(a: seq<TabContent>, b: seq<TabContent>)
    requires |Take(a, PromptTitleLimit)| == |Take(b, PromptTitleLimit)|
    requires forall i :: 0 <= i < |a| && i < PromptTitleLimit ==> a[i].title == b[i].title
    ensures Prompt(a) == Prompt(b)
  {
    assert PromptTitles(a) == PromptTitles(b);
  }

  /** The three strips of the clean-up together remove, from either end,
      only whitespace and quotes. */
  lemma UnquoteRemovesOnlySpaceAndQuotes(reply: string, a: string, b: string, c: string)
    requires exists i: nat :: StrippedAt(reply, Whitespace, i, a)
    requires exists j: nat :: StrippedAt(a, {'"'}, j, b)
    requires exists k: nat :: StrippedAt(b, {'\''}, k, c)
    ensures exists m: nat :: StrippedAt(reply, Whitespace + {'"'} + {'\''}, m, c)
  {
    var i: nat :| StrippedAt(reply, Whitespace, i, a);
    var j: nat :| StrippedAt(a, {'"'}, j, b);
    var k: nat :| StrippedAt(b, {'\''}, k, c);
    StrippedAtCompose(reply, Whitespace, i, a, {'"'}, j, b);
    StrippedAtCompose(reply, Whitespace + {'"'}, i + j, b, {'\''}, k, c);
  }

  /** `reply.strip().strip('"').strip("'")`: surrounding whitespace, then
      double quotes, then single quotes removed. */
  function Unquote(reply: string): (r: string)
    ensures IsSlice(r, reply)
    ensures exists i: nat :: StrippedAt(reply, Whitespace + {'"'} + {'\''}, i, r)
    ensures r != [] ==> r[0] != '\'' && r[|r| - 1] != '\''
  {
    var a := Strip(reply, Whitespace);
    var b := Strip(a, {'"'});
    var c := Strip(b, {'\''});
    UnquoteRemovesOnlySpaceAndQuotes(reply, a, b, c);
    StripIsSlice(reply, Whitespace);
    StripIsSlice(a, {'"'});
    StripIsSlice(b, {'\''});
    SliceTransitive(b, a, reply);
    SliceTransitive(c, b, reply);
    c
  }

  /** The cleaned reply, `name[:30] if len(name) > 30 else name`: at most 30
      characters, a prefix of the unquoted reply, and all of it when it is
      short enough. */
  function CleanName(reply: string): (name: string)
    ensures |name| <= MaxNameLength
    ensures name <= Unquote(reply)
    ensures |Unquote(reply)| <= MaxNameLength ==> name == Unquote(reply)
    ensures |Unquote(reply)| > MaxNameLength ==> |name| == MaxNameLength
  {
    var n := Unquote(reply);
    if |n| > MaxNameLength then n[..MaxNameLength] else n
  }

  /** The name is a contiguous piece of the raw reply. */
  lemma CleanNameIsPieceOfReply(reply: string)
    ensures IsSlice(CleanName(reply), reply)
  {
    var n := Unquote(reply);
    PrefixIsSlice(CleanName(reply), n);
    SliceTransitive(CleanName(reply), n, reply);
  }

  /** No character that the clean-up strips stands at either end of `s`. */
  ghost predicate Bare(s: string) {
    s != [] ==> && s[0] !in Whitespace && s[0] != '"' && s[0] != '\''
                && s[|s| - 1] !in Whitespace && s[|s| - 1] != '"' && s[|s| - 1] != '\''
  }

  /** A short reply with nothing to strip is kept as it is. */
  lemma CleanNameKeepsBareName(reply: string)
    requires Bare(reply) && |reply| <= MaxNameLength
    ensures CleanName(reply) == reply
  {
    StripKeepsBare(reply, Whitespace);
    StripKeepsBare(reply, {'"'});
    StripKeepsBare(reply, {'\''});
  }

  /** A short name the model wrapped in double quotes comes out unwrapped. */
  lemma CleanNameUnwrapsDoubleQuotes(core: string)
    requires Bare(core) && |core| <= MaxNameLength
    ensures CleanName("\"" + core + "\"") == core
  {
    var quoted := "\"" + core + "\"";
    StripKeepsBare(quoted, Whitespace);
    StripOneLayer(core, '"');
    StripKeepsBare(core, {'\''});
  }

  /** The `except` branch: `tabs[0].url.split('/')[2] if tabs else "Unnamed
      Group"`. The index raises, and the exception escapes, when the url holds
      fewer than two slashes. */
  function Fallback(tabs: seq<TabContent>): (r: Result<string, Error>)
    ensures tabs == [] ==> r == Success(UnnamedGroup)
    ensures tabs != [] ==> (r.Success? <==> Count(tabs[0].url, '/') >= 2)
    ensures tabs != [] && r.Success? ==> '/' !in r.value
    ensures tabs != [] && r.Failure? ==> r.error == UrlWithoutDomain(tabs[0].url)
  {
    if tabs == [] then Success(UnnamedGroup)
    else
      var parts := Split(tabs[0].url, '/');
      SplitLength(tabs[0].url, '/');
      if |parts| > 2 then Success(parts[2]) else Failure(UrlWithoutDomain(tabs[0].url))
  }

  /** For a url `scheme//host/...` the fallback is the host: the third
      `/`-separated segment. */
  lemma FallbackIsThirdSegment(tabs: seq<TabContent>, segments: seq<string>)
    requires tabs != [] && |segments| >= 3
    requires forall k :: 0 <= k < |segments| ==> '/' !in segments[k]
    requires tabs[0].url == JoinWith(segments, "/")
    ensures Fallback(tabs) == Success(segments[2])
  {
    SplitJoin(segments, '/');
  }

  /** `generate_group_name`: the cleaned reply when the chat call answers,
      the fallback when it raises. It fails exactly when the call raised and
      the first tab's url has fewer than two slashes. */
  function GenerateGroupName(tabs: seq<TabContent>, chat: string -> Option<string>): (r: Result<string, Error>)
    ensures r.Failure? <==> chat(Prompt(tabs)).None? && tabs != [] && Count(tabs[0].url, '/') < 2
    ensures chat(Prompt(tabs)).Some? ==> r.Success? && |r.value| <= MaxNameLength
    ensures chat(Prompt(tabs)).None? && tabs == [] ==> r == Success(UnnamedGroup)
    ensures chat(Prompt(tabs)).Some? ==> r == Success(CleanName(chat(Prompt(tabs)).value))
    ensures chat(Prompt(tabs)).None? ==> r == Fallback(tabs)
  {
    match chat(Prompt(tabs))
    case Some(reply) => Success(CleanName(reply))
    case None => Fallback(tabs)
  }

  /** The name depends on the first five titles and the first url only. */
  lemma GroupNameSeesFirstFiveTitlesAndFirstUrl(a: seq<TabContent>, b: seq<TabContent>, chat: string -> Option<string>)
    requires |Take(a, PromptTitleLimit)| == |Take(b, PromptTitleLimit)|
    requires forall i :: 0 <= i < |a| && i < PromptTitleLimit ==> a[i].title == b[i].title
    requires a != [] ==> a[0].url == b[0].url
    ensures GenerateGroupName(a, chat) == GenerateGroupName(b, chat)
  {
    PromptSeesFirstFiveTitles(a, b);
  }
}
