# markdown-note in Dafny

A model of the two parts of the markdown-note front end (`app.js`) that hold logic:

- **The markup renderer `mdToHtml`** (app.js:142-189). It is a fixed chain of whole-text rewrites:
  1. HTML escaping.
  2. Extraction of fenced code into a table. Each block is left behind as a sentinel token `U+E000 digits U+E000`.
  3. Headings, longest `#` run first.
  4. Horizontal rules.
  5. Bullet lists.
  6. Bold, italic, inline code, links.
  7. Paragraph grouping.
  8. Re-injection of every code block as `<pre><code>…</code></pre>`.

  Each regular expression is written out as its own scanner over `seq<char>`, with the JavaScript semantics that matter:
  - `\s` is the full JavaScript whitespace set and runs over line breaks;
  - `^` and `$` under the `m` flag hold at any of the four line terminators;
  - `.` stops at a line terminator;
  - lazy quantifiers stop at the first possible end;
  - `replace` with `/g` resumes after each match.
- **The in-memory note store.** A `class Store` holds the `notes` array and `currentId`, and has the four mutations `createNote`, `updateCurrent`, `removeCurrent` and `togglePin` (app.js:237-276). The import of app.js:356-362 is modelled as a fifth mutation. Beside them are the filtered, sorted list view of `renderList` (app.js:193-198) and the functions that specify the methods.

`Date.now()`, `uid()` and the answer the user gives `confirm` are method parameters. `JSON.parse` is replaced by a value that is either an array of notes or "not an array".

Modules:

| module | file | contents |
|---|---|---|
| `Text` | text.dfy | JavaScript whitespace and line terminators; `trim`, ASCII `toLowerCase`, `includes`, decimal numerals; sequence lemmas |
| `Escaping` | escape.dfy | the three escaping replacements |
| `Sentinels` | sentinels.dfy | the token format; well-formed texts and the token list they carry |
| `Fences` | fences.dfy | fence extraction and the code-block table |
| `BlockRules` | blocks.dfy | heading, rule and list passes |
| `Inline` | inline.dfy | bold, italic, code and link passes |
| `Paragraphs` | paragraphs.dfy | splitting on `\n{2,}`, block tests, `<br/>`, joining |
| `Preserve` | preserve.dfy | every middle stage keeps every token intact |
| `Render` | render.dfy | re-injection and the whole `mdToHtml` |
| `Notes` | notes.dfy | notes, the store class, the list view |

Where each step of the source is defined (the lemmas about each are in "## Model"):

| function | source |
|---|---|
| `Render.MdToHtml` | app.js:142-189 |
| `Escaping.Escape` | app.js:144-147 |
| `Fences.Extract` | app.js:148-152 |
| `BlockRules.HeadingPass`, `BlockRules.Headings` | app.js:153-159 |
| `BlockRules.HrPass`, `BlockRules.Rules` | app.js:160 |
| `BlockRules.ListPass`, `BlockRules.Items` | app.js:161-168 |
| `Inline.BoldPass` | app.js:170 |
| `Inline.ItalicPass` | app.js:171 |
| `Inline.CodePass` | app.js:172 |
| `Inline.LinkPass` | app.js:173-176 |
| `Paragraphs.SplitBlank`, `Paragraphs.Block`, `Paragraphs.Paragraph` | app.js:177-183 |
| `Render.Reinject` | app.js:184-187 |
| `Notes.Query`, `Notes.Filter` | app.js:193-197 |
| `Notes.Before`, `Notes.Sort`, `Notes.ListView` | app.js:198 |

The model follows the code wherever the code does something other than what a reader of markdown would expect:
- A rule line may mix `-`, `*` and `_`. Markdown asks for one repeated character.
- A paragraph break is two or more line feeds. A line holding only spaces therefore does not separate paragraphs, although markdown treats a blank line as a break.
- A standalone code block is wrapped in `<p>`, because the tag test runs while the block is still a sentinel token. One would expect a code block to pass through unwrapped.
- Inline code does not protect emphasis, because bold and italic run first.
- `\s+` after the `#` run of a heading, and the whitespace around a rule, may cross line breaks. So `##` on a line of its own followed by `# x` gives `<h2># x</h2>`, and a rule can swallow the line breaks of blank lines after it.
- The escaping pass leaves `"` alone, and a link target is copied verbatim into `href="…"`. A target holding `"` therefore ends the attribute early: `[a](x" onmouseover="y)` gives an anchor with an extra `onmouseover` attribute. A `javascript:` target passes through as well, since `Inline.LinkSpan` keeps every target as written. `Escaping.EscapeKeepsQuotes` and `Inline.QuoteLeavesHref` state the quote case.

Headings and rules are stated both for a note that is that one line and for the line among others. The surrounding text must keep the pattern from running past the line's edges:
- Before a heading line there must be nothing, or text that ends with a line break and whose last character other than whitespace is not `#` (`Closed`). Otherwise a `#` line before it could take the line break into its `\s+`.
- Before a rule line there must be nothing, or text that ends with a line break right after a character that is neither whitespace nor a rule character (`RuleClosed`). Otherwise the leading `\s*` of the rule could start on a blank line before it, or a rule line before it could take its line break.
- After the rule line come a line break and a line holding more than whitespace (`InkedLine`). Otherwise the trailing `\s*$` runs on over blank lines.

## Model

| member | source | states |
|---|---|---|
| Render.RendersEmptyIff | app.js:142-189 | the output is empty exactly when the note is empty |
| Render.CodeBlocksShown | app.js:148-152 | every fenced block of a note with no sentinel character appears in the output as `<pre><code>block</code></pre>`, with the block as the table stored it |
| Render.NoSentinelLeft | app.js:184-187 | for a note without U+E000 the output holds no sentinel character |
| Render.FencedNote | app.js:142-189 | a note that is one fenced block with no backtick inside renders as `<p><pre><code>` + escaped block + `</code></pre></p>` |
| Render.LoneToken | app.js:177-183 | a lone sentinel token passes the line and inline rules untouched and then becomes a paragraph |
| Render.Lookup | app.js:186 | a token's digits read the table entry whose canonical decimal they are, and anything else reads `undefined` |
| Render.ReinjectShows | app.js:184-187 | each token of a well-formed text shows up in what re-injection writes, as its code block |
| Render.ReinjectClears | app.js:184-187 | re-injection leaves no sentinel behind when no table entry holds one |
| Render.ReinjectPlain | app.js:184-187 | text without a sentinel is left as it is |
| Escaping.EscapeIsCharwise | app.js:145-147 | the three passes, `&` first, equal the one-character-at-a-time escaper, so nothing is escaped twice |
| Escaping.EscapedIsSafe | app.js:145-147 | the escaped text holds no `<` or `>`, and each `&` in it begins `&amp;`, `&lt;` or `&gt;` |
| Escaping.UnescapeEscape | app.js:145-147 | unescaping the escaped text gives the note back, so each `&` became exactly one `&amp;` |
| Escaping.EscapeKeepsQuotes | app.js:145-147 | escaping neither adds nor removes `"`, and leaves `"` itself unchanged |
| Escaping.EscapeKeepsSentinelFree | app.js:145-147 | escaping neither adds nor removes the sentinel character |
| Escaping.ReplaceCharSpec | app.js:145-147 | a replacement that does not write `c` leaves no `c`; one with no `c` to replace changes nothing |
| Fences.FindFence | app.js:149 | the lazy `[\s\S]*?` stops at the first closing fence |
| Fences.RestoreExtract | app.js:148-152 | putting the fences back around the table entries, in token order, gives the escaped text back: the i-th entry is the inside of the i-th complete fence pair |
| Fences.ExtractTakesEveryPair | app.js:149-152 | no complete fence pair is left in the text after extraction |
| Fences.BlocksHoldNoFence | app.js:149 | no table entry contains a fence |
| Fences.ExtractedTokens | app.js:150-151 | the text after extraction is well formed, and its tokens are `0`, `1`, … in order, one per table entry |
| Fences.UnclosedFenceStaysLiteral | app.js:149 | text without a complete fence pair is left unchanged, and the table stays empty |
| BlockRules.HeadingLine | app.js:154-159 | exactly n `#` (1 ≤ n ≤ 6), whitespace (line breaks allowed), then text becomes `<hn>text</hn>`: the levels are tried from 6 down to 1, so `## x` gives `<h2>x</h2>` and not `<h1>#…` |
| BlockRules.SevenHashesIsNoHeading | app.js:154-159 | seven or more `#` followed by the rest of a line are left alone |
| BlockRules.HeadingsSplit | app.js:154-159 | after a closed text the heading passes rewrite it and what follows separately |
| BlockRules.PassSplit | app.js:154-159 | one heading pass rewrites a closed text and what follows separately, and its output is closed again |
| BlockRules.HeadingAmongLines | app.js:154-159 | a heading line between a closed text and a line end becomes `<hn>text</hn>`, and the texts before and after are rewritten as if it were not there |
| BlockRules.SevenHashesAmongLines | app.js:154-159 | a line of seven or more `#` among other lines stays as it is, and the texts around it are rewritten on their own |
| BlockRules.RuleLineIsRule | app.js:160 | whitespace, three or more of `-*_` in any mixture, and whitespace is one `<hr/>` |
| BlockRules.HrSplit | app.js:160 | the rule pass rewrites a rule-closed text and what follows separately |
| BlockRules.RuleAmongLines | app.js:160 | a rule line between a rule-closed text and a line break followed by a line that is not blank becomes `<hr/>`; the line break is kept and the texts on both sides are rewritten on their own |
| BlockRules.HrMatchIsRule | app.js:160 | whatever the rule pattern matches is whitespace, three or more rule characters, and whitespace |
| BlockRules.LastStopSpec | app.js:160 | the backtracking `\s*$` ends at the last line end it can reach, and fails only when there is none |
| BlockRules.RuleRunSpec | app.js:160 | the greedy `[-*_]+` takes only rule characters |
| BlockRules.ListRun | app.js:161-168 | a maximal run of `- ` or `* ` lines becomes one `<ul>`, with one `<li>` per line, the marker removed and the text trimmed; the scan goes on after the run |
| BlockRules.WholeList | app.js:161-168 | a text made only of marker lines is one list |
| BlockRules.ChainCoversRun | app.js:161 | the list pattern takes exactly the run of marker lines, and a non-marker line ends it |
| BlockRules.SplitJoinLines | app.js:163 | splitting the run on `\n` gives its lines back |
| Inline.BoldSpan | app.js:170 | `**x**` on one line, with no `*` in `x`, becomes `<strong>x</strong>`; the text around it is scanned on its own |
| Inline.BoldCloseSpec | app.js:170 | the lazy `(.+?)\*\*` stops at the first closing pair, and fails only when every pair has a line break before it |
| Inline.BoldStaysOnOneLine | app.js:170 | a would-be bold span with a line break inside is left alone |
| Inline.BoldBeforeItalic | app.js:170-171 | bold runs first, so the italic rule finds no star left in `**x**` |
| Inline.ItalicSpan | app.js:171 | `*x*` on one line becomes `<em>x</em>` at the start of the text or after a character other than `*` |
| Inline.StarNextToStarDoesNotOpen | app.js:171 | a star next to another star opens nothing: `**x*` is left as it is |
| Inline.ItalicStaysOnOneLine | app.js:171 | a would-be emphasis span with a line break inside is left alone |
| Inline.ItalicAgree | app.js:171 | the regex scan, which consumes the character before the star, equals a scan that only looks at the previous character |
| Inline.CodeSpan | app.js:172 | `` `x` `` with no backtick inside becomes `<code>x</code>` |
| Inline.BackticksDoNotProtectBold | app.js:169-176 | `` `**x**` `` becomes `<code><strong>x</strong></code>` |
| Inline.LinkSpan | app.js:173-176 | `[l](t)` becomes `<a href="t" target="_blank" rel="noopener">l</a>`, with `t` exactly as written |
| Inline.QuoteLeavesHref | app.js:173-176 | the link target `x" onmouseover="y` is written into `href="…"` as it stands, so the quote ends the attribute |
| Paragraphs.SplitBlankRoundTrip | app.js:178 | the pieces and the separators together give the text back, and every separator is two or more line feeds |
| Paragraphs.SplitBlankPieces | app.js:178 | each run of line feeds is taken whole: no piece holds a double line feed or touches a separator with one |
| Paragraphs.FirstBlank | app.js:178 | the split finds the first double line feed |
| Paragraphs.BlockKinds | app.js:179-182 | a piece that opens with `<h`+digit, `<ul`, `<pre` or `<hr` after whitespace is kept as it is; any other piece becomes `<p>` + its lines joined by `<br/>` + `</p>` |
| Paragraphs.UnbreakBreakLines | app.js:181 | turning each `<br/>` back into a line feed gives the piece back, and no line feed is left |
| Paragraphs.TwoParagraphs | app.js:177-183 | two plain lines with a blank line between them become two paragraphs, joined by one line feed |
| Paragraphs.Blocks | app.js:179-182 | one block per piece, in order |
| Preserve.MiddlePreserves | app.js:153-183 | the heading, rule, list, inline and paragraph stages keep the text well formed and keep its tokens, the same ones as often as before |
| Preserve.InlinesPreserve | app.js:169-176 | the four inline passes keep every token, although the link pass swaps label and target |
| Notes.Store.constructor | app.js:7-8 | the store starts with no notes and no open note |
| Notes.Store.CreateNote | app.js:237-250 | the note `{title: "New note", content: "", pinned: false, updatedAt: now}` goes first and becomes the open note |
| Notes.Store.UpdateCurrent | app.js:251-257 | only the first note with the open id changes: the given fields, and `updatedAt` set to now; with no such note nothing changes |
| Notes.Store.RemoveCurrent | app.js:258-267 | with no open id (null or the empty id), or with the confirmation declined, nothing changes; otherwise every note with that id goes and the first remaining id, or null, becomes the open id |
| Notes.Store.TogglePin | app.js:268-276 | only the first note with the open id flips its pin and takes the new time; with no such note nothing changes |
| Notes.Store.Import | app.js:356-362 | an array replaces the notes and opens the first; anything else leaves notes and open id untouched |
| Notes.FindIndex | app.js:252 | the index of the first note with the open id, or none; a null open id matches nothing |
| Notes.Patched | app.js:254 | the spread keeps the id and the pin, takes the given fields, and takes the new time |
| Notes.Toggled | app.js:271-272 | the pin flips and the time is set, and the rest is kept |
| Notes.ToggleTwice | app.js:268-276 | toggling twice restores the pin and keeps only the last time |
| Notes.Without | app.js:261 | a note is kept exactly when its id is not the removed one |
| Notes.WithoutKeepsOrder | app.js:261 | removal keeps the other notes, in their order and each as often as before, and drops every note with the removed id |
| Notes.RemovedIsGone | app.js:261 | no remaining note has the removed id |
| Notes.RemoveUndoesCreate | app.js:237-267 | removing a freshly created note with a new id gives the old notes back |
| Notes.FirstId | app.js:264 | the id of the first note, or null when there are no notes or that id is empty |
| Notes.FilterKeeps | app.js:195-197 | a note is in the view exactly when it is in the store and matches the query, and a matching note occurs as often as in the store; the empty query keeps every note |
| Notes.BlankQueryKeepsAll | app.js:193-197 | a query made only of whitespace keeps every note |
| Notes.SortSpec | app.js:198 | the sort orders the notes by the comparator and only reorders them |
| Notes.BeforeIsStrict | app.js:198 | the comparator is a strict weak order |
| Notes.PinnedFirst | app.js:198 | in the sorted view pinned notes come first, then the newer before the older |
| Notes.ListViewSpec | app.js:193-198 | the view holds exactly the matching notes, each as often as the store does, pinned first and newest first |
| Text.Trim | app.js:164 | `trim` removes only whitespace from the two ends, and its result neither starts nor ends with whitespace |
| Text.Contains | app.js:196 | `includes` holds exactly when the query occurs at some position |
| Text.ParseDecimalOfDecimal | app.js:150-151 | reading back the decimal index written into a token gives the index |

## Left out

- The DOM and layout: dialogs, the mobile layout, the preview toggle, the theme, keyboard shortcuts, the list's DOM loop, `renderEditor` and the display work of `selectNote` (app.js:30-113, 199-234, 293-336, 369-383). These are display plumbing.
- Persistence and file exchange: `localStorage`, `save`/`load`, `JSON.stringify`/`JSON.parse`, and export through Blob/URL (app.js:115-135, 338-367). Only the array check of the import is kept.
- `uid()`, `Date.now()` and `confirm` are parameters of the store methods. `fmtDate` is left out because it formats dates for display only.
- The debounce timers of the editor (app.js:279-291) are asynchronous scheduling, so they are left out. The trimming of the title box there belongs to the caller.
- `toLowerCase` is modelled for ASCII letters only. JavaScript maps every Unicode letter.
- A Dafny `char` is a Unicode scalar value, while a JavaScript string is a sequence of UTF-16 code units. A lone surrogate half, which a JavaScript string can hold, cannot be written in the model.
- Text that already holds U+E000 before rendering is excluded from the rendering theorems. In the source such a character can look up a missing table entry. `Render.Lookup` still models that case as `undefined`.
- Import: the model takes each element of an imported array to be a well-formed note. The source keeps any array, whatever its elements are. An element such as `{"id": null}` then has an id that matches a null open id; the model cannot express that.
- The start-up sequence (app.js:385-417): loading, the welcome note seeded into an empty store, and the first selection. It is one-off initialisation around the store methods.
- `selectNote` (app.js:222-234) is only the assignment of the open id plus display work. It appears inside `Notes.Store.CreateNote`.
- Notes.SortSpec: proves ordered and a permutation, but not that ties keep the order they had in the store (the stability of `Array.prototype.sort`).
- Notes.ListViewSpec: the same gap. Notes that tie on pin and time may come out in any order.
- BlockRules.RuleAmongLines: states a rule line followed by a line break and a line that is not blank. When blank lines follow, the trailing `\s*$` also takes line breaks; that case is not stated.
- BlockRules.HeadingAmongLines: the text before the heading line must be closed, which is stricter than needed. A `#` that is not at a line start, such as in `a #` on the line before, is also excluded.
