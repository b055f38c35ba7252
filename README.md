# markdown-render in Dafny

A model of the two cores of markdown-render, with proofs about both.

- **The markdown converter of `md.ts`.** It has three stages:
  - `tokenize` turns each line into one token. The only state it carries is whether a fenced code block is open.
  - `parse` folds the tokens into a tree of `MarkdownNode` objects. It keeps a current-container pointer and a buffer of table lines.
  - `render` turns the tree into HTML. It uses `renderInline` for paragraph and list-item text and `renderTable` for table text.
- **The round-robin scheduler of `r_r.ts`.** `roundRobin` drains a queue of `Process` objects. Each turn runs the front process for one time slice, and an unfinished process goes to the back of the queue.

The project has one module per part of the program:

| module | file | what it models |
|---|---|---|
| `Text` | text.dfy | `split` on one character, `join` and `trim`; JavaScript's `\s`, `\d`, `\w` and line-terminator classes |
| `Tokenizer` | tokenizer.dfy | `tokenize`: one matcher per line pattern, the per-line step `Classify`, and the line loop `ScanLines` |
| `BlockParser` | parser.dfy | `parse`: the value fold `Run`/`ParseSpec`, and the class `MarkdownNode` with the imperative `Parse` proved against that fold |
| `InlineRenderer` | inline.dfy | `renderInline`: one matcher per regular expression, an independent description of what each regular expression accepts (`Matches`), and `replace` with and without the `g` flag |
| `TableRenderer` | table.dfy | `renderTable` |
| `BlockRenderer` | render.dfy | `render` |
| `Pipeline` | pipeline.dfy | `render(parse(tokenize(markdown)))` |
| `RoundRobin` | roundrobin.dfy | the class `Process` and the imperative `roundRobin`, proved against the value schedule `Schedule` |
| `Wrappers` | wrappers.dfy | `Option` |

**State and values.**
- `parse` mutates children arrays and reassigns `currentNode`. Its model is the method `Parse` over `MarkdownNode` objects.
  - `Parse` keeps the object tree two levels deep (`TwoLevel`).
  - Its loop invariant `Mirrors` ties the objects, the current node and the table buffer to the value state `Run(tokens[..i])`.
  - The properties of the parser are proved about `Run`.
- `roundRobin` mutates the `burstTime` fields of the caller's objects.
  - The model is the method `RoundRobin` over an `array<Process>`, with a queue of object references.
  - Its loop invariant `Progress` ties the objects to the value schedule `Schedule`.
  - The properties of the scheduler are proved about `Schedule`.
- Each `console.log` line becomes an `Event(name, units, finished)` in a returned trace.

**Behaviour of the code a reader may not expect, which the model keeps:**
- A line `- a` is a paragraph, not a list item, because the list pattern accepts only `*` and `<digits>.` markers (`DashIsNotListMarker`).
- A header line wrapped in pipes, such as `| a | b |`, has one header cell more at each end than it has columns: the empty pieces outside the outer pipes (`PipeWrappedCells`).
- A list node can hold other kinds of node. Once a list is current, every header, paragraph, blockquote and rule goes inside it (`ListStaysCurrent`, `ParagraphJoinsList`).
- No input ever yields a table node.
  - Every separator line is also a table row, and the table-row test runs first (`SeparatorIsRow`).
  - So table lines are buffered and never flushed (`NoTableNodes`, `TableLinesVanish`).
  - `renderTable` is still modelled and proved on its own.
- `trim`, and the `\s` of the header, list and blockquote patterns, use the full ECMAScript whitespace and line-terminator set.
- The `.` of the patterns refuses all four ECMAScript line terminators, `\r` included, so a line ending in `\r` can fail a pattern that ends in `.*$`.
- An image whose url holds a complete link is rewritten twice. The image url runs up to the first `)`, so `![a](x[y](z) )` leaves `[y](z" alt="a" /> )` after the image pass, and the link pass turns that into a link: the result is `<img src="x<a href="z" alt="a" /> ">y</a>` (`LinkInsideImageUrl`).
- The separator token's value is the empty string.
- The `throw` defaults of `parse` and `render` cannot be reached: token kinds and node kinds are closed datatypes, and the `match` statements are exhaustive.

## Model

| member | source | states |
|---|---|---|
| Text.Split | md.ts:12 | `split` on one character gives one piece more than there are separators, no piece holds the separator, and joining the pieces with the separator gives back the string |
| Text.SplitJoin | md.ts:12 | the other half of the round trip: pieces without the separator survive a join followed by a split |
| Text.Concat | md.ts:142 | `join('')` is the concatenation of the parts |
| Text.Join | md.ts:142 | `Array.prototype.join`: the parts with the separator between neighbours; its properties are `JoinCons`, `JoinSnoc` and the round trips `Split` and `SplitJoin` |
| Text.Trim | md.ts:176-177 | `trim` keeps a contiguous stretch of the input; only whitespace is cut at either end; the result neither starts nor ends with whitespace |
| Text.TrimIdempotent | md.ts:176-177 | trimming twice is the same as trimming once |
| Tokenizer.FenceSound | md.ts:18 | a line the fence matcher accepts is three backticks followed by a label of word characters, and the label is what it captures |
| Tokenizer.FenceComplete | md.ts:18 | three backticks with any label of word characters is matched, capturing that label |
| Tokenizer.MatchFence | md.ts:18 | the fence pattern as a matcher: three backticks and a label of word characters, capturing the label; what it accepts and captures is stated by `FenceSound` and `FenceComplete` |
| Tokenizer.IsRule | md.ts:15 | `^-{3,}$`: three or more `-` and nothing else (used by `RuleLine` and `DashIsNotListMarker`) |
| Tokenizer.IsTableRow | md.ts:19 | the table-row pattern: a pipe at each end and no line terminator in between (used by `TableLine` and `SeparatorIsRow`) |
| Tokenizer.IsTableSeparator | md.ts:20 | the separator pattern: a pipe at each end and three or more `-` and nothing else between; `SeparatorIsRow` shows it is never reached |
| Tokenizer.SpacedText | md.ts:14-17 | the `\s+(.*)$` tail: on success the text is a non-empty whitespace run followed by the capture, the capture does not start with whitespace, and it holds no line terminator |
| Tokenizer.SpacedTextComplete | md.ts:14-17 | every whitespace run followed by such a text is matched, with exactly that text captured |
| Tokenizer.MatchHeader | md.ts:41-43 | a header match is a run of `#` of the reported level followed by the whitespace-and-text tail |
| Tokenizer.HeaderComplete | md.ts:14 | one to six `#`, whitespace and a text match as a header of exactly that level and text |
| Tokenizer.ListMarker | md.ts:16 | the list marker is a single `*` or one or more digits followed by `.` |
| Tokenizer.MatchListItem | md.ts:46-48 | a list-item match is a marker followed by the whitespace-and-text tail, capturing the text |
| Tokenizer.NumberedItemComplete | md.ts:16 | digits, `.`, whitespace and a text match as a list item carrying the text |
| Tokenizer.StarredItemComplete | md.ts:16 | `*`, whitespace and a text match as a list item carrying the text |
| Tokenizer.MatchBlockquote | md.ts:49-51 | a blockquote match is `>` followed by the whitespace-and-text tail |
| Tokenizer.SeparatorIsRow | md.ts:19-20 | every line the separator pattern accepts is also accepted by the table-row pattern |
| Tokenizer.FenceLine | md.ts:38-40 | in normal state a fence line gives `codeBlockStart` carrying its label |
| Tokenizer.HeaderLine | md.ts:41-43 | in normal state `#`×N, whitespace and a text give a header of level N carrying the text |
| Tokenizer.RuleLine | md.ts:44-45 | in normal state three or more `-` alone give `hr` with an empty value |
| Tokenizer.StarredItemLine | md.ts:46-48 | in normal state `*`, whitespace and a text give a list item carrying the text |
| Tokenizer.NumberedItemLine | md.ts:46-48 | in normal state digits, `.`, whitespace and a text give a list item carrying the text |
| Tokenizer.BlockquoteLine | md.ts:49-51 | in normal state `>`, whitespace and a text give a blockquote carrying the text |
| Tokenizer.TableLine | md.ts:52-53 | in normal state a line that starts and ends with a pipe gives a table row carrying the whole line |
| Tokenizer.ParagraphLine | md.ts:56-57 | a line, the empty line included, whose first character can start no pattern and which is not a rule gives a paragraph carrying the whole line |
| Tokenizer.DashIsNotListMarker | md.ts:16 | a line starting `- ` is a paragraph carrying the whole line, not a list item |
| Tokenizer.ClassifyNormalKind | md.ts:38-57 | in normal state no line gives a separator, a code line or a code-block end |
| Tokenizer.ClassifyNormalSuffix | md.ts:38-57 | in normal state every token's value is a suffix of its line |
| Tokenizer.ClassifyNormal | md.ts:38-58 | the `else` branch of the line loop, testing the patterns in source order; its cases are stated by `FenceLine`, `HeaderLine`, `RuleLine`, `StarredItemLine`, `NumberedItemLine`, `BlockquoteLine`, `TableLine`, `ParagraphLine`, `ClassifyNormalKind` and `ClassifyNormalSuffix` |
| Tokenizer.Classify | md.ts:30-58 | one step of the loop: a fence line flips the code-block state and any other line keeps it; inside a block a fence gives `codeBlockEnd` and any other line is a verbatim code line; code lines and block ends arise exactly inside a block; no separator; the value is a suffix of the line |
| Tokenizer.StatePrefix | md.ts:28-60 | the state the loop is in at a line depends only on the lines before it |
| Tokenizer.Scan | md.ts:28-60 | the loop pushes one token per line, in line order, each computed from the state the earlier lines left |
| Tokenizer.ScanStep | md.ts:29-60 | one more line appends exactly its token and advances the state by one step |
| Tokenizer.StateKept | md.ts:28-60 | once reached, a state that every following line keeps holds up to the end of those lines |
| Tokenizer.StateSet | md.ts:28-60 | a state that line k moves to and every following line keeps holds up to the end of those lines |
| Tokenizer.ScanLines | md.ts:28-60 | the line loop computes exactly `Scan` of its loop body over the lines |
| Tokenizer.TokenizeLines | md.ts:28-60 | the token of line i is the classification of line i in the code-block state left by lines 0..i-1 |
| Tokenizer.TokenizeSpec | md.ts:10-12 | the token count equals the number of `'\n'` plus one |
| Tokenizer.FenceFlips | md.ts:30-40 | each fence line flips the code-block state, and every other line keeps it |
| Tokenizer.NeverInCode | md.ts:28-40 | without fence lines no code block is ever open |
| Tokenizer.TokenizeWithoutFences | md.ts:37-58 | without fence lines every line is classified in normal state |
| Tokenizer.InsideBlock | md.ts:30-40 | a fence line reached at any line k with no block open opens a block, and the block stays open at every line after it up to the next fence line |
| Tokenizer.FencedBlock | md.ts:30-40 | for a fenced block at lines k..m reached with no block open, anywhere in the text: the opening fence gives `codeBlockStart` with its label; every line between the fences is a verbatim code line, whatever it looks like; the closing fence gives `codeBlockEnd` with an empty value; and no block is open after it |
| Tokenizer.TokenizeSpecShape | md.ts:10-63 | one token per `'\n'`-separated line, and no token is a table separator |
| Tokenizer.Tokenize | md.ts:10-63 | `tokenize` returns exactly the specified tokens: one per line, in line order, none a separator |
| BlockParser.AppendAt | md.ts:81 | appending a leaf to the current container keeps the state valid, the cursor and the buffer |
| BlockParser.WithList | md.ts:84-88 | a current list is kept; otherwise one new empty list is added under the root and made current |
| BlockParser.Step | md.ts:70-113 | one token: the state stays valid and the root's children are never removed; only a list item outside a list, a code-block start and a code-block end move the cursor; a list item outside a list and a code-block start each add one container under the root and make it current; a code-block end returns to the root |
| BlockParser.Run | md.ts:70-114 | every state the fold reaches is valid: the tree is two levels deep, leaves are childless, and the current container is a list or code block at the root |
| BlockParser.ParseSpec | md.ts:65-117 | `parse` as a value: the root holding the children the fold built; `Parse` is proved equal to it and `ParseKeepsOrder`, `ParseTableCount` and `ParseParagraphs` state its properties |
| BlockParser.LeafOf | md.ts:72-101 | exactly the header, paragraph, blockquote, rule, list-item and code-line tokens give a childless leaf node carrying the token's value |
| BlockParser.StepListItem | md.ts:83-89 | a list item goes into the current list, or into a new list that is added under the root |
| BlockParser.StepAppends | md.ts:72-82 | every other text-carrying token appends its node to the current container |
| BlockParser.StepFlatten | md.ts:70-113 | one step adds exactly the token's own text-carrying node to the document read top to bottom |
| BlockParser.ParseKeepsOrder | md.ts:65-117 | no text is lost, duplicated or reordered: reading the tree top to bottom gives the text-carrying tokens in order |
| BlockParser.StepTableCount | md.ts:102-110 | only a separator token adds a table, and no step removes one |
| BlockParser.ParseTableCount | md.ts:102-110 | the root holds exactly one table per separator token |
| BlockParser.TableCountZero | md.ts:102-110 | a table count of zero means that no child is a table, and the other way round |
| BlockParser.ParseWithoutSeparators | md.ts:102-110 | without separator tokens the root holds no table |
| BlockParser.RunParagraphs | md.ts:78-81 | paragraph tokens alone become the root's children, one each, in order, with the root current and the buffer empty |
| BlockParser.ParseParagraphs | md.ts:65-117 | a document of paragraph tokens parses to one paragraph per token under the root |
| BlockParser.RunTableRows | md.ts:102-110 | table rows without a separator are only buffered, in order: the root gets no child |
| BlockParser.ListStaysCurrent | md.ts:81-90 | once a list is current it stays current until a code fence, every text-carrying token is appended to it, and table tokens leave it alone |
| BlockParser.ParagraphJoinsList | md.ts:78-89 | an illustration of `ListStaysCurrent`: a paragraph after a list item is placed inside the list, not after it |
| BlockParser.MarkdownNode.constructor | md.ts:5-8 | a new node has the given kind and value and no children |
| BlockParser.AppendToRoot | md.ts:86 | a fresh childless node is added at the end of the root's children; the tree stays two levels deep; its value gains that node |
| BlockParser.AppendToKid | md.ts:81 | a fresh childless node is added under child k; nothing else changes in the tree's value |
| BlockParser.AppendLeaf | md.ts:81 | pushing onto the current node changes the tree's value exactly as `AppendAt` does |
| BlockParser.OpenList | md.ts:84-88 | the object tree follows `WithList`: a new list under the root becomes current unless a list already is |
| BlockParser.AppendListItem | md.ts:83-90 | the object tree follows opening a list if needed and appending the item to it |
| BlockParser.PushLeaf | md.ts:72-82 | the header, paragraph, blockquote and rule cases of the loop body follow `Step` |
| BlockParser.PushListItem | md.ts:83-90 | the `listItem` case follows `Step` |
| BlockParser.PushCodeBlock | md.ts:91-95 | the `codeBlockStart` case adds a fresh code block under the root and makes it current, following `Step` |
| BlockParser.PushTableLine | md.ts:102-110 | the table cases buffer the value, and a separator flushes the buffer into one table node under the root, following `Step` |
| BlockParser.Consume | md.ts:71-113 | the loop body: the objects, the current node and the buffer follow one `Step` of the value state |
| BlockParser.Parse | md.ts:65-117 | `parse` returns a fresh root of a two-level object tree whose value is exactly the fold of the tokens |
| InlineRenderer.Span | md.ts:161-162 | a `[^x]*x` run ends at the first `x`, and there is none when `x` does not occur |
| InlineRenderer.SpanIs | md.ts:161-162 | the run's length is fixed by the position of the first `x` |
| InlineRenderer.LazyClose | md.ts:159-160 | lazy `.*?` followed by a closing delimiter stops at the earliest delimiter that no line terminator precedes, and fails exactly when there is no such delimiter |
| InlineRenderer.LazyCloseIs | md.ts:159-160 | the lazy closing position is the earliest admissible delimiter |
| InlineRenderer.Matches | md.ts:158-162 | the regular expressions as an independent description of a match at the start of a text, captures included; the matchers are proved sound and complete against it |
| InlineRenderer.MatchImage | md.ts:162 | `!\[([^\]]*)\]\(([^)]+)\)` at the start of a text: a reported match is never empty and never longer than the text (and `ImageSound`, `ImageComplete`) |
| InlineRenderer.MatchLink | md.ts:161 | `\[([^\]]+)\]\(([^)]+)\)` at the start of a text: a reported match is never empty and never longer than the text (and `LinkSound`, `LinkComplete`) |
| InlineRenderer.MatchBold | md.ts:159 | `\*\*(.*?)\*\*` at the start of a text: a reported match is never empty and never longer than the text (and `BoldSound`, `BoldComplete`) |
| InlineRenderer.MatchItalic | md.ts:160 | `\*(.*?)\*` at the start of a text: a reported match is never empty and never longer than the text (and `ItalicSound`, `ItalicComplete`) |
| InlineRenderer.MatchCode | md.ts:158 | `` `([^`]+)` `` at the start of a text: a reported match is never empty and never longer than the text (and `CodeSound`, `CodeComplete`) |
| InlineRenderer.MatchAt | md.ts:158-162 | a reported match is never empty and never longer than the text |
| InlineRenderer.ImageSound | md.ts:162 | every image match is one the image regular expression accepts |
| InlineRenderer.LinkSound | md.ts:161 | every link match is one the link regular expression accepts |
| InlineRenderer.BoldSound | md.ts:159 | every bold match is one the bold regular expression accepts |
| InlineRenderer.ItalicSound | md.ts:160 | every italic match is one the italic regular expression accepts |
| InlineRenderer.CodeSound | md.ts:158 | every inline-code match is one the inline-code regular expression accepts |
| InlineRenderer.MatchAtSound | md.ts:158-162 | every match the matchers report is accepted by the pattern's regular expression |
| InlineRenderer.ImageComplete | md.ts:162 | the image matcher finds every match the regular expression accepts |
| InlineRenderer.LinkComplete | md.ts:161 | the link matcher finds every match the regular expression accepts |
| InlineRenderer.BoldComplete | md.ts:159 | the bold matcher finds the lazy match the regular expression accepts |
| InlineRenderer.ItalicComplete | md.ts:160 | the italic matcher finds the lazy match the regular expression accepts |
| InlineRenderer.CodeComplete | md.ts:158 | the inline-code matcher finds every match the regular expression accepts |
| InlineRenderer.MatchAtComplete | md.ts:158-162 | the matchers find every match the regular expressions accept, so the two agree exactly |
| InlineRenderer.MatchNeedsTrigger | md.ts:158-162 | no pattern matches without its trigger character (`]` for images and links, `*` for bold and italic, a backtick for code) |
| InlineRenderer.MatchNeedsTriggerNot | md.ts:158-162 | a text without the trigger character has no match at any position |
| InlineRenderer.Matcher | md.ts:158-162 | the pattern as a function value: it agrees with the pattern's matcher and never reports an empty match |
| InlineRenderer.Replacement | md.ts:165-169 | each pattern's template with `$1` and `$2` filled in: the result is one element, starting with `<` and ending with `>`; it holds every character of the first capture; and it adds no backtick, `*` or `]` of its own, so any of them comes from a capture |
| InlineRenderer.ScanAll | md.ts:165-168 | `replace` with the `g` flag from a position on: every leftmost match replaced, resuming after it; stated by `ScanAllSkips` and `ReplaceAllLeftmost` |
| InlineRenderer.ScanFirst | md.ts:169 | `replace` without the `g` flag from a position on: only the leftmost match replaced; stated by `ScanFirstSkips` and `ReplaceFirstLeftmost` |
| InlineRenderer.ReplaceAll | md.ts:165-168 | a global `replace` over the whole text; stated by `ReplaceAllLeftmost` and `ReplaceAllOne` |
| InlineRenderer.ReplaceFirst | md.ts:169 | a `replace` without `g` over the whole text; stated by `ReplaceFirstLeftmost` and `LeadingCodeSpan` |
| InlineRenderer.Rewrite | md.ts:165-169 | one line of `renderInline`: the inline-code pattern without `g`, every other pattern with it; stated by `RewriteWithoutTrigger` and `RewriteOne` |
| InlineRenderer.RenderInline | md.ts:156-172 | the five passes in source order: images, links, bold, italic, then the first inline code span; stated by `RenderInlinePlain`, `OnlyFirstCodeSpan`, `OnlyItalic`, `OnlyBold`, `ImageBeforeLink` and `LinkInsideImageUrl` |
| InlineRenderer.ScanAllSkips | md.ts:165-168 | in a global replace, a stretch with no match is copied unchanged |
| InlineRenderer.ScanFirstSkips | md.ts:169 | in a replace without `g`, a stretch with no match is copied unchanged |
| InlineRenderer.ReplaceAllLeftmost | md.ts:165-168 | a global replace keeps the text before the leftmost match, replaces that match and resumes right after it |
| InlineRenderer.ReplaceFirstLeftmost | md.ts:169 | a replace without `g` replaces only the leftmost match and keeps everything after it verbatim |
| InlineRenderer.ReplaceAllOne | md.ts:165-168 | a global replace of a text with exactly one match, and none in the text before or after it, replaces that match and keeps both sides |
| InlineRenderer.RewriteOne | md.ts:165-168 | a global rewrite of one match between a text without the pattern's first character and a text without its trigger character gives the filled-in template between the two |
| InlineRenderer.RewriteWithoutTrigger | md.ts:165-169 | a rewrite changes nothing in a text without the pattern's trigger character |
| InlineRenderer.RenderInlinePlain | md.ts:156-172 | `renderInline` returns text with no backtick, `*` or `]` unchanged |
| InlineRenderer.RenderInlineOnlyCode | md.ts:165-169 | without `*` and `]` only the inline-code rewrite can change the text |
| InlineRenderer.RenderInlineOnlyImages | md.ts:165-169 | when the image rewrite leaves no other markup, the later rewrites change nothing |
| InlineRenderer.LeadingCodeSpan | md.ts:169 | a leading code span becomes a `code` element, and the rest is kept verbatim, later backticks included |
| InlineRenderer.OnlyFirstCodeSpan | md.ts:156-172 | through the whole of `renderInline`, only the first code span is converted |
| InlineRenderer.WholeImageMatch | md.ts:162 | the image pattern matches a text that is exactly one image, all of it, capturing the alt text and the url |
| InlineRenderer.WholeImage | md.ts:165 | a text that is exactly one image becomes one `img` element |
| InlineRenderer.ImageMarkupClean | md.ts:165 | the `img` markup adds no backtick, `*` or `]` of its own |
| InlineRenderer.ImageBeforeLink | md.ts:165-166 | images are rewritten before links: an image followed by any text without markup characters becomes an `img` element, not a link, and the text after it is kept |
| InlineRenderer.ImageFirst | md.ts:165 | in an image followed by a text without `]`, the image pass replaces the image and keeps the rest |
| InlineRenderer.ImagePassKeepsBracket | md.ts:162-165 | in `![a](x[y](z)w)` the image url runs up to the first `)`, so the image pass leaves the `[y](z` inside the `src` attribute and `w)` after the element |
| InlineRenderer.LinkPassInsideImage | md.ts:161-166 | the link pass then matches from the `[` inside that `src` attribute, taking the rest of the `img` element and `w` as the link target |
| InlineRenderer.LinkInsideImageUrl | md.ts:156-172 | through the whole of `renderInline`, `![a](x[y](z)w)` becomes an `img` element whose `src` holds a link spanning the rest of the element |
| InlineRenderer.BoldNeedsPair | md.ts:159 | bold can only start at a doubled `*` |
| InlineRenderer.RewriteWithoutPair | md.ts:167 | text without two adjacent `*` passes the bold rewrite unchanged |
| InlineRenderer.WholeItalic | md.ts:168 | a text that is exactly one italic span becomes one `em` element |
| InlineRenderer.OnlyItalic | md.ts:156-172 | through the whole of `renderInline`, a single-`*` span becomes an `em` element |
| InlineRenderer.WholeBold | md.ts:167 | a text that is exactly one bold span becomes one `strong` element |
| InlineRenderer.OnlyBold | md.ts:156-172 | through the whole of `renderInline`, a `**` span without other markup becomes a `strong` element |
| TableRenderer.Cells | md.ts:176-177 | a line's cells are its pipe-separated pieces, each trimmed, one more than there are pipes; no cell holds a pipe or surrounding whitespace |
| TableRenderer.RowCells | md.ts:177 | the cells of each line, in order |
| TableRenderer.BodyCells | md.ts:177 | the body rows are the cells of every line from the third on: none with fewer than three lines |
| TableRenderer.RenderTable | md.ts:174-183 | the table layout around the cells of the first line, one more than it has pipes, as header, and one body row per line from the third on, row i being the cells of line i + 2, none with fewer than three lines |
| TableRenderer.ShortTableHasEmptyBody | md.ts:175-182 | a table text of one or two lines renders an empty `tbody` element, without failing |
| TableRenderer.CellsJoin | md.ts:176 | cells without pipes and surrounding whitespace are read back exactly from the line that joins them with pipes |
| TableRenderer.TableFromLines | md.ts:175-177 | for a table built from some lines, the header is the cells of the first line and the body the cells of the third line on; the second line is not read |
| TableRenderer.SeparatorIgnored | md.ts:177 | the second line is skipped by position: replacing it changes nothing in the rendering |
| TableRenderer.TaggedInjective | md.ts:179-180 | the `<th>`/`<td>` markup determines its cells, their number and their order, for cells without `<` |
| TableRenderer.PipeWrappedCells | md.ts:176 | a line wrapped in pipes has an empty cell at each end besides its columns |
| BlockRenderer.LevelDigit | md.ts:123-134 | the header tag's digit is the header level |
| BlockRenderer.Render | md.ts:119-154 | `render`: one template per node kind; stated by `HeaderVerbatim`, `ParagraphInlined`, `BlockquoteVerbatim`, `ListAppends`, `ListItemInlined`, `CodeBlockVerbatim`, `RootLines` and `RenderTable` |
| BlockRenderer.HeaderVerbatim | md.ts:122-133 | a header of level 1 to 6 emits its value unchanged, whatever markup it holds, between `<hN>` and `</hN>` of its level |
| BlockRenderer.ListAppends | md.ts:141-142 | a list's items are concatenated with nothing between them: one more child appends exactly its HTML before `</ul>` |
| BlockRenderer.PlainList | md.ts:141-144 | a list of items without markup characters is each text in its own `li` element, concatenated inside `ul` |
| BlockRenderer.ListItemInlined | md.ts:143-144 | list-item text goes through `renderInline` |
| BlockRenderer.PlainListItem | md.ts:143-144 | a list item without backtick, `*` and `]` keeps its text inside `<li>` |
| BlockRenderer.BoldListItem | md.ts:143-144 | a list item that is one `**` span becomes a `strong` element inside `<li>` |
| BlockRenderer.RenderAll | md.ts:122 | `children.map(render)`: one HTML string per child, in order |
| BlockRenderer.CodeBlockVerbatim | md.ts:145-148 | a code block shows its lines verbatim, joined by `'\n'`, with its label as class |
| BlockRenderer.PlainParagraph | md.ts:135-136 | a paragraph without backtick, `*` and `]` keeps its text inside `<p>` |
| BlockRenderer.BlockquoteVerbatim | md.ts:137-138 | blockquote text is emitted as written, markup characters included |
| BlockRenderer.ParagraphInlined | md.ts:135-136 | paragraph text goes through `renderInline` |
| BlockRenderer.OnlyParagraphsAreInlined | md.ts:135-138 | emphasis stays as written in a blockquote and becomes markup in a paragraph |
| BlockRenderer.RootLines | md.ts:121-122 | the root's children are rendered in order, one per line |
| Pipeline.Convert | md.ts:213-215 | the three stages in order give the converter's output |
| Pipeline.ConvertSpec | md.ts:213-215 | `render(parse(tokenize(markdown)))` as a value; `Convert`, `PlainDocument` and `TableLinesVanish` state what it gives |
| Pipeline.NoTableNodes | md.ts:52-55 | no markdown text yields a table node |
| Pipeline.TokenizePlain | md.ts:56-57 | plain lines become one paragraph token each, carrying the whole line |
| Pipeline.RenderPlainParagraphs | md.ts:135-136 | paragraph nodes of plain text render to their `<p>` elements |
| Pipeline.ParseParagraphTokens | md.ts:78-81 | paragraph tokens parse to one paragraph node per token directly under the root |
| Pipeline.ParsePlain | md.ts:65-117 | a document of plain lines parses to one paragraph per line directly under the root |
| Pipeline.PlainDocument | md.ts:213-215 | a document of plain lines converts to one `<p>` per line, each keeping its text, joined by `'\n'` |
| Pipeline.TableLinesVanish | md.ts:102-110 | a document made only of table lines converts to the empty string |
| RoundRobin.Process.constructor | r_r.ts:5-8 | a new process has the given name and burst time |
| RoundRobin.Rounds | r_r.ts:16-23 | every job takes at least one turn |
| RoundRobin.Turn | r_r.ts:14-23 | one pass of the loop as a value: the front job runs for the slice and goes to the back with that much less if its burst time exceeds the slice, and otherwise runs for what it has left and leaves; stated by `TurnProgress`, `StuckTurn`, `RequeueTurn` and `FinishTurn` |
| RoundRobin.Schedule | r_r.ts:11-26 | the slices the loop runs, in order; `RoundRobin` is proved to emit exactly them, and `ScheduleLength`, `FinishesOnce`, `UnitsAddUp`, `SliceLengths` and `FirstRoundInOrder` state their properties |
| RoundRobin.RoundsCoverBurst | r_r.ts:16-23 | a job takes as many turns as slices are needed to cover its burst time |
| RoundRobin.TurnProgress | r_r.ts:13-25 | every turn keeps the loop terminating and leaves exactly one turn less to do, so the loop ends |
| RoundRobin.StuckTurn | r_r.ts:16-19 | with a slice that is not positive, a job whose burst time exceeds the slice is still queued after a turn |
| RoundRobin.Diverges | r_r.ts:13-19 | with a slice that is not positive and some burst time above it, the queue never empties |
| RoundRobin.ScheduleLength | r_r.ts:13-25 | the loop runs exactly as many turns as the jobs' rounds add up to |
| RoundRobin.FinishesOnce | r_r.ts:20-23 | each queued job has exactly one finishing turn |
| RoundRobin.UnitsAddUp | r_r.ts:16-22 | the units each process runs for add up to its burst time |
| RoundRobin.SliceLengths | r_r.ts:16-21 | a turn that does not finish runs exactly the time slice, and a finishing one runs at most the time slice |
| RoundRobin.FirstRoundInOrder | r_r.ts:12-19 | first in, first out: the first turns serve the queue in its initial order |
| RoundRobin.SliceIds | r_r.ts:12 | every turn belongs to a process of the queue |
| RoundRobin.Jobs | r_r.ts:12 | the initial queue holds every process of the array, in order, with its burst time |
| RoundRobin.JobsCount | r_r.ts:12 | each process stands in the initial queue exactly once, with its burst time |
| RoundRobin.ScheduleOfProcesses | r_r.ts:11-26 | for the caller's processes, process i finishes exactly once, runs for its burst time in total, and has the i-th turn |
| RoundRobin.Label | r_r.ts:17-21 | one event per turn, naming the process, its units and whether it finished |
| RoundRobin.Bursts | r_r.ts:12 | the burst time of each process of the array, in order |
| RoundRobin.Names | r_r.ts:12 | the name of each process of the array, in order |
| RoundRobin.TrackedStart | r_r.ts:12 | the copied queue holds each process once, in the array's order |
| RoundRobin.ProgressStart | r_r.ts:12 | the loop's bookkeeping holds when the queue is first copied |
| RoundRobin.RequeueTurn | r_r.ts:16-19 | an unfinished process goes to the back with one slice less, as the value turn does |
| RoundRobin.FinishTurn | r_r.ts:20-23 | a finishing process leaves the queue with burst time 0, as the value turn does |
| RoundRobin.ScheduleTurn | r_r.ts:13-25 | one more turn moves the front slice from the pending schedule into the slices already run |
| RoundRobin.ProgressTurn | r_r.ts:14-23 | one pass of the loop keeps the bookkeeping, records the front process's slice, and leaves less work |
| RoundRobin.ServeFront | r_r.ts:14-23 | the loop body takes the front process, runs it for a slice or what it has left, sets its burst time, requeues it if it is unfinished, and emits its event |
| RoundRobin.RoundRobin | r_r.ts:11-26 | `roundRobin` emits exactly the schedule's events; every process ends with burst time 0; names and the array itself are unchanged |

## Left out

- The React interface in src/App.tsx is not part of this model. It also imports a `getStr` that md.ts does not define.
- The demo text and the `console.log` calls are left out: md.ts:185-217 and r_r.ts:28-37.
- The regular expressions declared in `tokenize` but never used there (md.ts:21-25) are left out.
- Strings are sequences of Unicode scalar values, not of UTF-16 code units. Every character class involved lies in the Basic Multilingual Plane. Lengths of text with characters outside it are not modelled.
- No HTML escaping is modelled, because the code performs none.
- The text of the console lines is not modelled. Each line is an `Event(name, units, finished)` of the returned trace.
- JavaScript numbers are modelled as unbounded integers. Fractional burst times and time slices, and floating-point rounding, are left out.
- RoundRobin.RoundRobin: requires the caller's processes to be distinct objects. The source does not demand this. With an object listed twice, both queue entries would share one `burstTime`, and that aliasing is not modelled.
- RoundRobin.RoundRobin: requires a slice for which the loop ends: a positive slice, or no burst time above the slice. For every other input the source never returns, and `RoundRobin.Diverges` proves that case separately.
- The body of `tokenize`'s `forEach` is written inline in the source. The model's line loop `Tokenizer.ScanLines` calls the pure per-line step `Tokenizer.Classify` instead, which has the same branches.
- The loop bodies of `parse` and `roundRobin` are factored out as methods: `BlockParser.Consume` with one method per case, and `RoundRobin.ServeFront`. Their contracts say what one pass does.
- A thrown `Error` for an unknown token kind or node kind (md.ts:112, md.ts:152) is not modelled. Both kinds are closed datatypes, so neither case can arise.
