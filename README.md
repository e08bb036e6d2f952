# Chronicle clustering service — a Dafny model

Chronicle is a browser extension that groups open tabs by topic. Its remote
clustering service, `backend/main.py`, answers `POST /api/cluster`. The
request is a list of tabs (id, url, title, page text, keywords). The service
works in these steps:

1. It builds one text per tab: the title plus the first 1000 characters of
   the page text.
2. It has an embedding model turn those texts into vectors.
3. It labels the vectors with DBSCAN. Label `-1` means noise. Fewer than two
   vectors all get label `0` and DBSCAN is not run.
4. It groups the tabs by label, in order of first occurrence. Noise tabs are
   skipped.
5. It drops every group with fewer than two tabs.
6. It emits one result per remaining group. Each result has the id
   `cluster_<label>`, a colour from an eight-colour palette, the group's tab
   ids in input order, and a name. The name comes from a chat model's reply,
   cleaned and cut to 30 characters. When the chat call raises, the name is
   the domain of the group's first url instead.

The model covers the deterministic part of these steps. The three foreign
components are parameters of the model:

- `embed: seq<string> -> Option<seq<Embedding>>` is the embedding model.
  `None` means the call raised.
- `dbscan: seq<Embedding> -> seq<int>` is DBSCAN.
- `chat: string -> Option<string>` is the chat model, mapping a prompt to a
  reply. `None` means the call raised.

Everything else is modelled as the code does it:

- Python's `zip` stops at the shorter list. It is modelled that way, so a
  label list of the wrong length is handled as the code handles it, with no
  extra precondition.
- An `IndexError` raised inside the name fallback escapes `cluster_tabs` and
  fails the whole request. So does an exception from the embedding call. Both
  are `Failure` values of the endpoint's `Result`.
- Python's `%` and Dafny's `%` agree for the divisor 8. Both give a remainder
  in [0, 8), also for negative ids.
- `str.strip()` removes exactly the characters for which `str.isspace()`
  holds. They are listed in `Text.Whitespace`.
- `str(label)` writes a minus sign for negative labels.

Modules, one per concern of `main.py`:

- `Wrappers`: Option and Result.
- `Models`: the request and response records, and the error cases.
- `Text`: the Python string operations the service uses: slicing, `strip`,
  `split`, `join` and `str(int)`.
- `Palette`: `assign_color`.
- `Embeddings`: the text loop of `generate_embeddings`, and `cluster_embeddings`.
- `Naming`: `generate_group_name`.
- `Clustering`: `cluster_tabs`. Its first loop (the `clusters` dict) is the
  method `GroupByLabel`. Its second loop (the `results` list) is the method
  `EmitResults`. Both are proved against the specification functions
  `LabelOrder`, `Members` and `Assemble`, and the lemmas below are proved
  about those functions.

The code emits only groups of at least two tabs, and the model proves that
(`Clustering.ResultsHaveTwoTabs`).

## Model

| member | source | states |
|---|---|---|
| Models.TabIds | backend/main.py:130 | `[tab.tabId for tab in tabs]`: same length as the tabs, and the k-th id is the k-th tab's id |
| Text.Take | backend/main.py:34 | `s[:n]` has length min(n, len(s)) and is a prefix of `s` |
| Text.StripStart | backend/main.py:76 | the leading half of `strip`: it removes only characters of the set from the front, leaves a suffix, and the result does not start with one of them |
| Text.StripEnd | backend/main.py:76 | the trailing half of `strip`: it removes only characters of the set from the back, leaves a prefix, and the result does not end with one of them |
| Text.Strip | backend/main.py:76 | `strip(cs)` leaves a contiguous piece of the input; everything removed before and after it is in `cs`; the result neither starts nor ends with a character of `cs` |
| Text.StripIsSlice | backend/main.py:76 | a stripped string is a contiguous piece of the original |
| Text.StripIdempotent | backend/main.py:76 | stripping again removes nothing more |
| Text.StrippedAtCompose | backend/main.py:76 | two strips in a row remove, at either end, only characters of the two sets together |
| Text.Split | backend/main.py:82 | `split('/')` gives at least one part, and no part holds `/` |
| Text.JoinSplit | backend/main.py:82 | joining the parts of a split with the separator gives back the input |
| Text.SplitLength | backend/main.py:82 | `split` gives one part more than there are separators |
| Text.JoinWith | backend/main.py:69 | `sep.join(parts)`: no parts give the empty string, one part gives that part, and more parts start with the first part followed by the separator |
| Text.SplitJoin | backend/main.py:82 | splitting undoes joining, for parts without the separator |
| Text.NatToString | backend/main.py:127 | `str(n)` is canonical (at least one decimal digit, no leading zero unless it is the single digit `0`) and reads back as `n` (`DecimalValue`) |
| Text.CanonicalUnique | backend/main.py:127 | a number has one canonical spelling: a canonical digit string that reads back as `n` is `str(n)`, so `0` is written `0` and never `00` |
| Text.IntToString | backend/main.py:127 | `str(i)` starts with `-` exactly for negative `i`; what follows the sign is canonical and reads back as `-i`; for other `i` the whole string is canonical and reads back as `i` |
| Text.IntToStringInjective | backend/main.py:127 | different integers render differently, because the digits read back to the number and the sign separates negatives from the rest |
| Palette.AssignColor | backend/main.py:84-87 | the colour is one of the eight palette colours |
| Palette.AssignColorSameExactlyModulo | backend/main.py:86-87 | two cluster ids get the same colour if and only if they agree modulo 8 |
| Palette.AssignColorPeriodic | backend/main.py:86-87 | ids that differ by a multiple of 8 share a colour |
| Embeddings.CombinedText | backend/main.py:34 | the combined text is `Title: ` + title + `\nContent: ` + the first min(1000, len) characters of the text, each part at a fixed offset, so title and truncated text can be read back from it |
| Embeddings.CombinedTextIgnoresTail | backend/main.py:34 | text past the first 1000 characters does not change the combined text |
| Embeddings.Texts | backend/main.py:31-35 | the list of texts has one entry per tab, the k-th being the k-th tab's combined text |
| Embeddings.BuildTexts | backend/main.py:31-35 | the loop builds exactly one text per tab, in tab order, the k-th being the k-th tab's combined text |
| Embeddings.GenerateEmbeddings | backend/main.py:29-39 | the embedding model is asked once, about the texts of all tabs in order, and its answer is returned |
| Embeddings.ClusterEmbeddings | backend/main.py:41-56 | fewer than two embeddings give a list of zeros of the same length; otherwise the labels are DBSCAN's |
| Embeddings.SmallInputSkipsDbscan | backend/main.py:42-43 | on fewer than two embeddings the labels do not depend on DBSCAN |
| Naming.PromptTitles | backend/main.py:63 | the titles are those of the first min(5, len) tabs, in order |
| Naming.Bullets | backend/main.py:69 | one line per title, the k-th being `- ` followed by the k-th title |
| Naming.Prompt | backend/main.py:65-71 | the prompt is the fixed head, then the bullet lines of the first five titles joined by newlines, then the fixed tail |
| Naming.PromptSeesFirstFiveTitles | backend/main.py:63-71 | the prompt depends only on the titles of the first five tabs |
| Naming.Unquote | backend/main.py:76 | stripping whitespace, then `"`, then `'` leaves a contiguous piece of the reply; everything removed before and after it is whitespace or a quote; it neither starts nor ends with `'` |
| Naming.UnquoteRemovesOnlySpaceAndQuotes | backend/main.py:76 | the three strips of the clean-up together remove only whitespace and quotes from either end of the reply |
| Naming.CleanName | backend/main.py:76-78 | the name has at most 30 characters, is a prefix of the stripped reply, is all of it when that has at most 30 characters, and has exactly 30 characters otherwise |
| Naming.CleanNameIsPieceOfReply | backend/main.py:76-78 | the name is a contiguous piece of the raw reply |
| Naming.CleanNameKeepsBareName | backend/main.py:76-78 | a reply of at most 30 characters with no whitespace or quote at either end is kept unchanged |
| Naming.CleanNameUnwrapsDoubleQuotes | backend/main.py:76-78 | a short bare name wrapped in double quotes comes out without them |
| Naming.Fallback | backend/main.py:81-82 | no tabs give `Unnamed Group`; otherwise the fallback succeeds if and only if the first url has at least two `/`; the name then holds no `/`; otherwise the error is the IndexError for that url |
| Naming.FallbackIsThirdSegment | backend/main.py:82 | for a url made of at least three `/`-separated segments, the fallback is the third segment, the host of `scheme://host/...` |
| Naming.GenerateGroupName | backend/main.py:58-82 | with a reply, the name is the cleaned reply (`CleanName`), of at most 30 characters; after the chat call raised, the answer is the fallback (`Fallback`); so the call fails if and only if the chat call raised, there is a tab, and its url has fewer than two `/` |
| Naming.GroupNameSeesFirstFiveTitlesAndFirstUrl | backend/main.py:63-82 | the group name depends only on the first five titles and the first url |
| Clustering.Zip | backend/main.py:114 | `zip(tabs, labels)` pairs the i-th tab with the i-th label, up to the shorter list |
| Clustering.LabelOrder | backend/main.py:113-119 | the dict has no more keys than there are zipped tabs, and no key is noise |
| Clustering.Members | backend/main.py:113-119 | a group has no more tabs than there are zipped tabs |
| Clustering.LabelOrderMembership | backend/main.py:113-119 | the dict's keys are exactly the labels that occur, except noise |
| Clustering.LabelOrderDistinct | backend/main.py:117-118 | each label becomes a key once |
| Clustering.LabelOrderFirstOccurrence | backend/main.py:117-118 | the keys are in order of first occurrence |
| Clustering.MembersMembership | backend/main.py:117-119 | a tab is in `clusters[l]` if and only if it is zipped with label `l` |
| Clustering.IndicesOf | backend/main.py:114-119 | the positions labelled `l` are listed in ascending order |
| Clustering.IndicesOfComplete | backend/main.py:114-119 | every position labelled `l` is listed |
| Clustering.MembersInInputOrder | backend/main.py:119 | the k-th tab of `clusters[l]` is the tab at the k-th position labelled `l` |
| Clustering.MembersOfAbsentLabel | backend/main.py:117-118 | a label that does not occur has no tabs |
| Clustering.Surviving | backend/main.py:122-124 | no more keys are kept than there are keys, and every kept key's group has at least two tabs |
| Clustering.SurvivingMembership | backend/main.py:122-124 | a key is kept if and only if its group has at least two tabs |
| Clustering.SurvivingDistinct | backend/main.py:122-124 | dropping groups keeps the keys distinct |
| Clustering.SurvivingKeepsOrder | backend/main.py:122-124 | dropping groups keeps first-occurrence order |
| Clustering.ClusterId | backend/main.py:127 | the id is `cluster_` followed by `str(label)` |
| Clustering.ClusterIdInjective | backend/main.py:127 | different labels give different `cluster_<label>` ids |
| Clustering.MakeResult | backend/main.py:126-133 | the result has the label's id, the given name, the label's palette colour, and the ids of the group's tabs in order |
| Clustering.ResultFor | backend/main.py:125-133 | the result for a key exists if and only if naming its group succeeds; it then has the key's id, that name and one tab id per tab of the group; otherwise its error is the naming error |
| Clustering.Assemble | backend/main.py:121-133 | a successful second loop gives exactly one result per kept key |
| Clustering.AssembleStep | backend/main.py:122-133 | one pass of the second loop: a failure so far stays, a group of fewer than two tabs is skipped, a naming failure ends the request, otherwise the group's result is appended |
| Clustering.AssembleFailureSticks | backend/main.py:125 | once naming a group raised, later groups change nothing: the first error is the answer |
| Clustering.AssembleSucceeds | backend/main.py:125 | assembling succeeds if and only if every kept group can be named |
| Clustering.AssembleShape | backend/main.py:121-133 | on success there is one result per kept key, in key order, built from that key's group and name |
| Clustering.GroupResults | backend/main.py:113-135 | a successful grouping gives one result per emitted label |
| Clustering.ClusterResponse | backend/main.py:103-135 | an empty request gives no clusters; a raising embedding call on a non-empty request fails with that error; any failure is either that or the IndexError of a url without a domain |
| Clustering.ResultLabelsFacts | backend/main.py:113-124 | the emitted labels are distinct and never noise, are exactly the labels carried by at least two tabs, and are in first-occurrence order |
| Clustering.GroupResultsSucceeds | backend/main.py:121-133 | the request fails if and only if naming one of the emitted groups raises |
| Clustering.GroupResultsShape | backend/main.py:121-133 | result j has id `cluster_<label j>`, that label's colour, the ids of the tabs with that label, and that group's name |
| Clustering.ResultOfLabel | backend/main.py:126-130 | result j has the id of the j-th emitted label and the ids of that label's group |
| Clustering.ResultsHaveTwoTabs | backend/main.py:122-124 | every emitted result holds at least two tab ids |
| Clustering.ResultIdsDistinct | backend/main.py:127 | the result ids are pairwise distinct |
| Clustering.ResultTabsCarryItsLabel | backend/main.py:114-119 | every tab id in a result belongs to a non-noise tab whose label names that result |
| Clustering.GroupIdsInInputOrder | backend/main.py:114-130 | the ids of a label's group are those of all tabs zipped with that label, in ascending input position |
| Clustering.ResultTabIdsInInputOrder | backend/main.py:119 | a result's tab ids are those of all tabs carrying its label, in input order |
| Clustering.IdInTabIds | backend/main.py:130 | the id of every tab of a group is among the group's tab ids |
| Clustering.ResultHoldingTabIsItsLabel | backend/main.py:114-130 | with unique tab ids, a result that holds a tab's id is the result for that tab's label |
| Clustering.GroupedTabIsEmitted | backend/main.py:114-130 | a non-noise tab whose label is carried by at least two tabs is in the result for that label |
| Clustering.TabPlacement | backend/main.py:113-130 | with unique tab ids, a tab is in some result if and only if it is not noise and its label has at least two tabs, and it is then in exactly one result |
| Clustering.SurvivingOfShortInput | backend/main.py:122-124 | with fewer than two tabs no group is kept |
| Clustering.FewerThanTwoTabsGiveNoClusters | backend/main.py:107-124 | fewer than two tabs give no clusters, unless the embedding call raised |
| Clustering.GroupByLabel | backend/main.py:113-119 | the first loop builds a dict whose keys, in insertion order, are the label order and whose entries are the groups |
| Clustering.EmitResults | backend/main.py:121-133 | the second loop computes the assembly of the dict |
| Clustering.ClusterTabs | backend/main.py:103-135 | the endpoint answers as the specification function `ClusterResponse`: empty request first, then embedding, labelling, grouping and assembly |

## Left out

- The FastAPI app, the CORS middleware, the `/health` route and `uvicorn.run` are left out. They are web-server set-up (backend/main.py:89-101, 137-138).
- The construction of the embedding and chat models is left out (backend/main.py:9-10). Their calls are the parameters `embed` and `chat`. These are functions of their arguments, so the model does not capture a chat model that answers two identical prompts differently within one request.
- DBSCAN, numpy and the cosine distance matrix are left out (backend/main.py:45-56). They are floating-point library code; the labels they give are the parameter `dbscan`. An exception raised by numpy or DBSCAN is not modelled.
- The `confidence` float (always 0.8) and pydantic validation of the request and the response are left out (backend/main.py:22-27, 131).
- The `print` calls are left out. They are output only.
- The web framework turns an escaped exception into an HTTP 500 response. The model stops at the `Failure` value.
- The chat reply's `content` is taken to be a string.
- The `keywords` field is carried but never read, as in the code.
- Naming.GenerateGroupName: the `"Unnamed Group"` branch is modelled. The endpoint never reaches it, because it names only groups of at least two tabs.
- The browser extension's own code (tab inventory, importance scoring, message routing, tab-group mutations) is not part of this model.
