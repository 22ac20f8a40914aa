# XSS chat widget: display-time sanitisation, modelled in Dafny

The chat widget of the XSS exercise pages (`bin/js/main.js`) keeps the posts of
every work (Part 0 to Part 3) in browser storage and shows them under a policy
that depends on the work:

- Work 0 escapes everything. Its aggregate page lists the posts of works 1
  to 3, oldest first.
- Works 1 and 2 show well-formed HTML raw.
- Work 3 escapes the text and then re-enables the tags `b`, `i`, `s` and `u`
  through an allow-list filter (`customXssFilter`).

Every shown text then goes through `nl2br`.

The model has seven modules:

- `Text`: an option type and predicates for "pattern occurs at / is absent".
- `Entities`: `escapeHtml` and `unescapeHtml` as an entity codec, with both
  round trips.
- `AllowList`: `customXssFilter` with the semantics of a JavaScript global
  regex replacement. The scan is leftmost first and matches do not overlap.
  Replaced text is never rescanned. The capture `[^>]*` is greedy and backs
  off to the last `&gt;` it can reach.
- `Policy`: the branch of `appendChatPosts` that chooses the displayed HTML.
- `PostStore`: the per-work store, `post` and `chat_delete`.
- `Aggregate`: `displayAllWorkPosts`. It collects works 1, 2 and 3, tags each
  post with its origin, sorts stably by posting time and escapes each text.
- `LineBreaks`: `nl2br`, following the regex engine's steps, together with a
  reference definition.

The well-formedness check `isHtmlValid` parses the text with the browser's
DOMParser. Here it is a parameter `isValid: string -> bool`, and nothing is
assumed about it.

Other values become inputs:

- Post ids, posting times and the answer to `confirm()` are inputs to the
  operations.
- A posting time is the integer key that the sort comparator subtracts.

## Model

| member | source | states |
|---|---|---|
| Entities.Escape | bin/js/main.js:5-14 | escaping never shortens the text. It leaves no `<`, `>`, `"` or `'` in the result. Text without reserved characters is returned as is |
| Entities.Unescape | bin/js/main.js:16-25 | decoding never lengthens the text. Text without `&` is returned as is |
| Entities.EscapeWellEscaped | bin/js/main.js:5-14 | every `&` in escaped text starts one of the five entities, and no delimiter is left raw |
| Entities.UnescapeEscape | bin/js/main.js:5-25 | `unescapeHtml(escapeHtml(t)) == t` for every text, including text that already holds entities |
| Entities.EscapeUnescape | bin/js/main.js:5-25 | `escapeHtml(unescapeHtml(s)) == s` exactly when `s` is well escaped |
| Entities.EscapeInjective | bin/js/main.js:5-14 | two different texts never escape to the same HTML |
| AllowList.FilterWithoutCandidates | bin/js/main.js:28-65 | `customXssFilter`, as written and corrected: when no `<` of the text is followed by b, i, s, u or `/`, none of the eight passes finds anything and the result is the escaped text |
| AllowList.ReplaceOpenAbsent | bin/js/main.js:36-40 | one opening pass leaves a string unchanged when the escaped `<` plus tag name does not occur in it |
| AllowList.ReplaceAllAbsent | bin/js/main.js:41 | a closing pass leaves a string unchanged when its escaped closing tag does not occur in it. The same replacement serves lines 47, 53 and 59 |
| AllowList.OpenMatchAt | bin/js/main.js:36 | the opening-tag regex matches at a position exactly when the result is Some. The capture ends at the last `&gt;` before the first raw `>`, so no longer match exists |
| AllowList.FilterWithoutLt | bin/js/main.js:28-65 | text without `<` comes out of the filter exactly as `escapeHtml` leaves it, in the as-written filter and the corrected one alike |
| AllowList.GreedyOpenSpansAll | bin/js/main.js:36-40 | on escaped `<x…>` one opening pass restores the whole raw text, whatever lies between |
| AllowList.FilterBypass | bin/js/main.js:36-59 | `<x…>` for x in b, i, s, u with no `&` passes the whole filter unchanged and live. This also holds with other `<` inside when x is `b` |
| AllowList.ScriptPassesThrough | bin/js/main.js:49-52 | `<script…>` without `&` or another `<` passes as a live tag, through the prefix match of the `s` pass |
| AllowList.BoldSpanPassesThrough | bin/js/main.js:36-41 | a text `<b attrs>rest>` that ends in `>` and holds no `&` stays entirely live, including event handlers and later script tags inside it |
| AllowList.BoldElementPassesThrough | bin/js/main.js:36-41 | `<b>v</b>` with no `&` in v is shown as itself. The greedy opening match absorbs the `</b>`, so line 41 never sees it |
| AllowList.LoneClosingTags | bin/js/main.js:41-59 | as written, a lone `</b>` becomes `<b>`, while `</i>`, `</s>` and `</u>` come out as closing tags |
| AllowList.IntendedLoneClosingTags | bin/js/main.js:41-59 | with `</b>` restored to `</b>`, each of the four closing tags comes out as itself |
| Policy.Render | bin/js/main.js:265-296 | the post is flagged as an error exactly for works 1 to 3 with text that fails the check. Error posts and works other than 1 to 3 are escaped. Works 1 and 2 show valid text raw. Work 3 shows it through the filter |
| Policy.EscapedRenderShowsText | bin/js/main.js:265-296 | whenever the policy escapes, the HTML has no delimiter and decodes to exactly the posted text |
| Policy.LiveMarkupNeedsValidPolicy | bin/js/main.js:265-296 | a live `<` can only come from works 1 to 3 with text that passed the check |
| Policy.FilterPolicyWithoutTags | bin/js/main.js:287-296 | under work 3, a valid text without `<` shows exactly as under work 0 |
| Policy.RawPolicyShowsBold | bin/js/main.js:271-286 | under works 1 and 2, valid `<b>hi</b>` is shown as live markup |
| Policy.EscapedLinesShowText | bin/js/main.js:309-314 | under the escaping policy, the shown `nl2br(displayHtml)` gives back the posted text once the inserted `<br>` are dropped and the text is decoded |
| PostStore.Load | bin/js/main.js:79-88 | `getChatData`: a work with nothing stored reads as the empty list, and a stored list is returned as it is |
| PostStore.NormalizeQuotes | bin/js/main.js:130-133 | the length is kept. Each curly single quote becomes `'`, each curly double quote becomes `"`, and every other character is kept |
| PostStore.Submit | bin/js/main.js:127-151 | the exact empty text leaves the store unchanged. Any other text appends one post with the normalised text, the fixed author and the current work. The other works are unchanged |
| PostStore.SubmitGrowsUnlessEmpty | bin/js/main.js:135-137 | the work grows by one post unless the text is empty. Whitespace-only text is stored |
| PostStore.RemoveId | bin/js/main.js:166 | each post with the id disappears, and every other post keeps its multiplicity |
| PostStore.RemoveIdMembers | bin/js/main.js:166 | a post remains exactly when it was there and its id differs |
| PostStore.RemoveIdConcat | bin/js/main.js:166 | the filter works piecewise on a concatenation, so the order of surviving posts is kept |
| PostStore.RemoveIdIdempotent | bin/js/main.js:162-183 | deleting an id a second time changes nothing |
| PostStore.Delete | bin/js/main.js:162-175 | without confirmation nothing changes. With it, the id is filtered from the current work, and from works 1 to 3 too when the current work is 0. Every other work is untouched |
| PostStore.DeleteRemovesEverywhere | bin/js/main.js:162-175 | after a confirmed delete, no affected work holds the id and every other post survives |
| Aggregate.Tag | bin/js/main.js:214-216 | entry i is post i of the work, tagged with that work, so stored order and multiplicity are kept and the length is the work's |
| Aggregate.Collect | bin/js/main.js:211-217 | the length is the sum of the three works'. First come the posts of work 1 in stored order, then those of work 2, then those of work 3, each tagged with its own work |
| Aggregate.Gather | bin/js/main.js:211-217 | on three lists already read, positions 0 to n1-1 hold the first list's posts tagged 1. The next n2 positions hold the second's tagged 2, and the rest hold the third's tagged 3 |
| Aggregate.CollectMember | bin/js/main.js:211-217 | an entry is collected exactly when its origin is 1, 2 or 3 and its post is stored under that work |
| Aggregate.CollectedIsStored | bin/js/main.js:211-217 | every collected entry is a stored post of its origin, which is 1, 2 or 3 |
| Aggregate.StoredIsCollected | bin/js/main.js:211-217 | every stored post of works 1 to 3, tagged with its work, is collected |
| Aggregate.CollectOrigins | bin/js/main.js:211-217 | every collected entry links to work 1, 2 or 3 |
| Aggregate.InsertStable | bin/js/main.js:221 | for each posting time, the inserted entry is placed ahead of the entries with the same time |
| Aggregate.SortByDate | bin/js/main.js:221 | the result is ordered oldest first and is a permutation. For each posting time, the entries keep their original order |
| Aggregate.StableSortUnique | bin/js/main.js:221 | two ordered arrangements with the same entries per posting time, in the same order, are equal |
| Aggregate.SortByDateIsStableSort | bin/js/main.js:221 | any stable chronological arrangement of the input is exactly the sort's result |
| Aggregate.DisplayAll | bin/js/main.js:207-237 | one shown entry per post of works 1 to 3. Each links to work 1, 2 or 3 and its HTML holds no delimiter |
| Aggregate.DisplayAllShowsStoredPosts | bin/js/main.js:231-237 | every shown entry is a stored post of the work it links to, and its HTML decodes to that post's text |
| Aggregate.DisplayAllIsChronological | bin/js/main.js:207-237 | the page presents the stable chronological arrangement of the collected posts |
| Aggregate.InterleavedWorks | bin/js/main.js:212-221 | one post per work at times t1 < t3 < t2 is listed as works 1, 3, 2 |
| Aggregate.SameTimeKeepsWorkOrder | bin/js/main.js:212-221 | one post per work, all at the same time, is listed as works 1, 2, 3: the stable sort keeps the collection order on ties |
| LineBreaks.BreakAt | bin/js/main.js:323 | a line-break token starts exactly at CR or LF. The token is two characters long exactly when CR is followed by LF or LF by CR, so a Windows line end is one token, not two; any other CR or LF is a one-character token |
| LineBreaks.Nl2Br | bin/js/main.js:322-324 | the result is never shorter than the input |
| LineBreaks.Nl2BrInsertsBreaks | bin/js/main.js:322-324 | the regex replacement, with its optional group and backtracking, is exactly "write `<br>` before every line-break token" |
| LineBreaks.Nl2BrWithoutBreaks | bin/js/main.js:322-324 | text without CR or LF is returned unchanged |
| LineBreaks.Nl2BrLength | bin/js/main.js:322-324 | the output is the input plus four characters per line-break token |
| LineBreaks.StripNl2Br | bin/js/main.js:322-324 | on text without `<`, removing each `<br>` in front of a line break gives back the input |

Notes on the code as written:

- The escaping round trip `unescapeHtml(escapeHtml(t)) == t` holds for every
  text. It is not limited to text free of entities, because escaping turns
  the `&` of an existing entity into `&amp;`.
- `post` rejects only the exact empty string, so whitespace-only text is
  stored. The `null` test can never be true for a text-field value.
- The opening pattern of the `b` pass is greedy and tag names match as
  prefixes. As a result, `<b onclick="…">x</b><script>…</script>` is restored
  whole by the first pass and shown fully live. The script is not kept
  escaped.
- The comment after the passes (main.js:61-62) says script, style, iframe and
  img tags stay escaped. Because tag names match as prefixes, `<script…>`,
  `<style…>`, `<iframe…>` and `<img…>` pass the `s` or `i` pass live
  (`AllowList.ScriptPassesThrough`, `AllowList.FilterBypass`). The filter is
  built to reproduce a vulnerability, so it is not evident which of the
  comment and the pattern is intended; this is not listed as a finding.
- In `nl2br` the class `[^>\r\n]` of the optional group has no effect on the
  output. When it cannot take the character in front of a line break, the
  group matches empty and `<br>` is inserted all the same, after `>` too.

## Left out

- `isHtmlValid`: the DOMParser well-formedness check is browser code. It is the parameter `isValid`, with nothing assumed about it.
- `htmlspecialchars`, the DOM templates, `innerHTML` and the bubble layout are left out. An error post shows `nl2br(htmlspecialchars(text))`, which is browser code and is not modelled.
- Policy.Render: it yields the `displayHtml` of an error post (the escaped text), which the page computes but does not show in the error bubble.
- `getChatData` and `saveChatData` (browser storage and JSON): the store is a map. A missing key, like an entry that fails to parse, is the empty list.
- Aggregate.SortByDate: `Date.now`, `Math.random` and `toLocaleString` are left out, along with the `Date` parse in the comparator. Times are integers, so a date string that parses to NaN is not modelled.
- `confirm()` is the boolean parameter `confirmed`.
- `disp`, `copy`, `save`, `bg`, the keydown handler, the load and resize listeners, `chat_reload` and scrolling are left out. They are UI wiring: layout with floating-point arithmetic, the clipboard, the editor draft in browser storage, colours and event handlers. The keydown handler submits by calling `post`, which is modelled as `PostStore.Submit`.
- Entities.Unescape: its own contract gives only a length bound and the identity on text without `&`. What it decodes is stated by `Entities.UnescapeEscape` and `Entities.EscapeUnescape`.
- LineBreaks.Nl2Br: its own contract gives only a length bound. Its output is characterised by `LineBreaks.Nl2BrInsertsBreaks` and `LineBreaks.Nl2BrLength`.
- PostStore.Submit: the id and posting time are parameters, and ids are not assumed unique.

## Findings

| source | as written | input that shows it | evidently intended | confidence | as-written member | corrected member |
|---|---|---|---|---|---|---|
| bin/js/main.js:41 | the closing pass of `b` replaces an escaped `</b>` with `<b>` | the text `</b>` is shown as `<b>`, an opening tag | `</b>`, as the `i`, `s` and `u` passes do for their own closing tags | high (not executed) | AllowList.LoneClosingTags | AllowList.IntendedLoneClosingTags |

`Policy.Render` uses the filter as written (`AllowList.CustomXssFilter`),
since the page behaves that way. The corrected filter
`AllowList.CustomXssFilterIntended` differs only in that replacement.
`AllowList.FilterWithoutLt` and `AllowList.FilterBypass` are stated for both
filters. A `</b>` that follows an opening `<b…>` is absorbed by the greedy
opening pass, so the wrong replacement shows only on a `</b>` that has no
opening tag before it.
