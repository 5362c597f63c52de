# processText of the card processor, in Dafny

The card processor is a React component. It runs OCR (Tesseract, Spanish) on
an uploaded PDF of board-game cards, then turns the recognised text into a
list of `{ title, description }` cards. This project models that second step,
`processText`, and proves what it does. It works in four stages:

1. **Cut into blocks.** `text.split(/\n\s*\n/)` cuts the text at every run of
   white space that holds at least two newlines. The model (`SectionSplit`)
   follows the scan ECMAScript's `String.prototype[@@split]` performs:
   - it tries the pattern at each position in turn;
   - the match is greedy, so it ends just after the last newline of the
     white-space run that follows the first newline;
   - the scan resumes where the match ended;
   - `""` gives `[""]`.
2. **Cut into lines.** Each block is split with `split('\n')`, modelled as
   `JsString.SplitLines`.
3. **Build the card.** The title search is a `for` loop with a `break`. It is
   modelled as the method `FindTitleIndex`, proved equal to the function
   `TitleIndex`. The loop finds the first line whose `trim()` is non-empty,
   and index 0 if there is none.
   - The title is that line, untrimmed, or `'Untitled'` when the line is `""`.
   - The description is the later lines, joined with `'\n'` and trimmed.
4. **Filter.** Cards whose title or description is empty are dropped. The
   filter is kept exactly as written (`title != "" && description != ""`).
   `KeptIffTwoNonBlankLines` proves that the title half of it never drops
   anything.

Proved about the whole of `processText`:

- **All-white-space input.** Any text made only of white space, `""`
  included, gives no cards.
- **Well-formed cards.** Every card returned has:
  - a title that is a non-blank line of its block, holding no newline;
  - only blank lines before that title;
  - a non-empty description with no white space at either end;
  - in the block's own text, a newline right after the title line, and a
    description that is the trim of everything after that newline.
- **Untitled fallback.** A card titled by the `'Untitled'` fallback is always
  dropped by the filter. A line that actually reads "Untitled" can still be a
  title.
- **Order and count.** The output is the subsequence of the per-block cards
  at the kept positions, in order, so there are at most as many cards as
  blocks.
- **The block split.** Putting the separators back between the blocks
  rebuilds the text exactly. No block holds a match of the pattern, and each
  separator is both leftmost and longest: a block between two separators is
  never all white space, so a run such as `"\n\n\n\n"` is one separator.
- **Round trips.** `split('\n')` and `join('\n')` are inverse to each other.
- **Concrete case.** The two-card example text gives exactly its two cards,
  in order.

"White space" is the set that ECMAScript's `\s` and `trim` share:
WhiteSpace plus LineTerminator. It is listed in `JsString.IsWs`, with the
space separators as of Unicode 15.

The comment on line 16 of card-processor.tsx speaks of a title line that
"ends with a period". The code never checks for a period. The model follows
the code.

Files:
- `js_string.dfy`: module `JsString`, covering `trim`, `split('\n')` and
  `join('\n')`.
- `section_split.dfy`: module `SectionSplit`, covering
  `split(/\n\s*\n/)`.
- `card_processor.dfy`: module `CardProcessor`, covering the title search,
  the card, the filter and the pipeline.

## Model

| member | source | states |
|---|---|---|
| JsString.WsRunEnd | card-processor.tsx:13-21 | the end of the maximal white-space run from a position: everything before it from there is white space, and the character at it is not (the greedy `\s*`, the leading part of `trim`) |
| JsString.WsRunStart | card-processor.tsx:28 | the start of the maximal white-space run that ends at a position: everything from it up to there is white space, and the character before it is not (the trailing part of `trim`) |
| JsString.TrimSpec | card-processor.tsx:21 | `trim()` returns the slice between a white-space prefix and a white-space suffix; it is empty exactly when the input is all white space, and otherwise starts and ends with a non-white-space character |
| JsString.TrimOfTrimmed | card-processor.tsx:28 | a string that starts and ends with a non-white-space character trims to itself |
| JsString.SplitLines | card-processor.tsx:17 | `split('\n')` gives at least one piece, and no piece holds a newline |
| JsString.JoinOfSplitLines | card-processor.tsx:17-28 | joining the pieces of `split('\n')` with `'\n'` gives back the block |
| JsString.SplitLinesOfJoin | card-processor.tsx:17-28 | splitting a `'\n'`-join of one or more newline-free lines gives back those lines |
| JsString.JoinSplitAt | card-processor.tsx:28 | a join is the join of the first k lines, a newline, then the join of the rest |
| JsString.JoinAllWs | card-processor.tsx:28 | a join is all white space if and only if every line is |
| SectionSplit.LastNewline | card-processor.tsx:13 | the last newline in a range, or None exactly when the range has none |
| SectionSplit.MatchAt | card-processor.tsx:13 | the sticky match of `\n\s*\n` at q: when found, it is a separator and no longer separator starts at q; when None, no separator starts at q |
| SectionSplit.SplitFrom | card-processor.tsx:13 | the scan emits exactly one section more than separators |
| SectionSplit.Split | card-processor.tsx:13 | `split` always returns at least one section |
| SectionSplit.Separators | card-processor.tsx:13 | there is one separator fewer than sections |
| SectionSplit.SplitFromSpec | card-processor.tsx:13 | the scan from any point with no match passed yet rebuilds the rest of the text from its sections and separators; every separator is a match; no section holds one; every separator is leftmost and longest, and no section between two separators is all white space |
| SectionSplit.NoMatchNoSeparator | card-processor.tsx:13 | text the scan passed without a match holds no separator |
| SectionSplit.Leftmost | card-processor.tsx:13 | before a match, no newline is followed only by white space (otherwise the match would have started earlier) |
| SectionSplit.Greedy | card-processor.tsx:13 | after a match, no newline is preceded only by white space (otherwise the greedy match would have reached it) |
| SectionSplit.InterleaveHead | card-processor.tsx:13 | the first section and the first separator open the rebuilt text |
| SectionSplit.NextSectionNotBlank | card-processor.tsx:13 | a section that follows a match and is itself followed by a separator holds a non-white-space character, because the greedy match stopped at the last newline of its white-space run |
| SectionSplit.SplitSpec | card-processor.tsx:13 | interleaving the sections with the separators rebuilds the text; there is one more section than separators; every separator matches `\n\s*\n`; no section contains a match; every separator is leftmost and longest: no newline before it is followed only by white space, no newline after it is preceded only by white space, and a section between two separators is never all white space |
| SectionSplit.SplitEmpty | card-processor.tsx:13 | `"".split(/\n\s*\n/)` is `[""]` |
| SectionSplit.GreedyRunExample | card-processor.tsx:13 | `"\n\n\n\n"` splits into two empty sections around the one separator `"\n\n\n\n"`, not into more |
| SectionSplit.InterleaveAllWs | card-processor.tsx:13 | when the rebuilt text is all white space, so is every section |
| SectionSplit.NoMatchAtLoose | card-processor.tsx:13 | no match starts at a non-newline, or at a newline followed by a non-white-space character |
| SectionSplit.SplitFromSkip | card-processor.tsx:13 | the scan steps over positions where no match starts |
| SectionSplit.SplitTwoSections | card-processor.tsx:13 | two blocks without blank lines, joined by one empty line, split into exactly those two blocks, with `"\n\n"` the one separator |
| CardProcessor.FirstNonBlankFrom | card-processor.tsx:20-25 | the first non-blank line at or after i, with every line before it blank, or None exactly when all the remaining lines are blank |
| CardProcessor.TitleIndex | card-processor.tsx:18-25 | the final `titleIndex` is the first non-blank line, with every earlier line blank, or 0 when all lines are blank; it is a valid index whenever there are lines |
| CardProcessor.FindTitleIndex | card-processor.tsx:18-25 | the `for`/`break` loop computes TitleIndex |
| CardProcessor.BuildCard | card-processor.tsx:15-33 | the map callback, with its loop, builds SectionCard of the block |
| CardProcessor.SectionCards | card-processor.tsx:15 | `map` makes one card per section, card i coming from section i |
| CardProcessor.BlankIffTrimEmpty | card-processor.tsx:21 | `line.trim().length > 0` is false exactly when the line is all white space |
| CardProcessor.DescriptionEmptyIff | card-processor.tsx:28 | the description is "" if and only if every line after the title line is blank |
| CardProcessor.KeptIffTwoNonBlankLines | card-processor.tsx:27-34 | the title is never ""; a card is kept if and only if its block has at least two non-blank lines |
| CardProcessor.KeptCardTitle | card-processor.tsx:18-34 | a kept card's title is the untrimmed first non-blank line, not the fallback, and every earlier line is blank |
| CardProcessor.DescriptionTrimmed | card-processor.tsx:28 | a description is empty, or starts and ends with a non-white-space character |
| CardProcessor.DescriptionIsTrimmedRemainder | card-processor.tsx:17-28 | in the block text itself, the description is the trim of what follows the title line's newline, and "" when the block ends at the title line |
| CardProcessor.HeadEndsWithLine | card-processor.tsx:17-27 | the block text up to the end of the title line ends with the title line |
| CardProcessor.RemainderAfterHead | card-processor.tsx:28 | the block is the text up to the title line, then a newline and the join of the later lines (or nothing) |
| CardProcessor.FilterSpec | card-processor.tsx:34 | `filter` gives, in order, exactly the cards whose title and description are non-empty |
| CardProcessor.FilterAllKept | card-processor.tsx:34 | filtering a list of cards that all pass changes nothing |
| CardProcessor.FilterIdempotent | card-processor.tsx:34 | filtering twice is filtering once |
| CardProcessor.OrderAndCount | card-processor.tsx:13-34 | the output is the per-section cards at increasing kept positions, at most one per section, and a section is kept exactly when its card passes the filter |
| CardProcessor.KeptTitleAndDescription | card-processor.tsx:18-34 | for newline-free lines whose card is kept: the title is the first non-blank line, without newline, every earlier line is blank, and the description is non-empty with no white space at either end |
| CardProcessor.TitleAndDescriptionInBlock | card-processor.tsx:17-28 | when the title line is not the last line, in the joined block text a newline follows the title line and the description is the trim of everything after that newline |
| CardProcessor.InBlockTextOfParts | card-processor.tsx:28 | a block that is the text up to the title line, a newline, then a rest, has its description at the trim of that rest |
| CardProcessor.KeptCardWellFormed | card-processor.tsx:17-34 | a kept card is well formed: its title is the newline-free first non-blank line, every earlier line is blank, its description is non-empty with no white space at either end, and in the block text the title line is followed by a newline and the description is the trim of everything after it |
| CardProcessor.CardsAreWellFormed | card-processor.tsx:11-35 | every card `processText` returns is well formed, as KeptCardWellFormed states it, with respect to the section it came from |
| CardProcessor.OneLineSectionDropped | card-processor.tsx:17-34 | a block with no newline yields no card |
| CardProcessor.UntitledFallbackDropped | card-processor.tsx:27-34 | a card whose title line is "" gets the 'Untitled' title and is always dropped |
| CardProcessor.BlankSectionDropped | card-processor.tsx:17-34 | a block made only of white space yields no card |
| CardProcessor.AllWhitespaceYieldsNoCards | card-processor.tsx:11-35 | any text made only of white space, "" included, yields no cards |
| CardProcessor.TwoLineSectionCard | card-processor.tsx:15-33 | a block of a title line and a description line gives exactly that title and that description |
| CardProcessor.TwoCardText | card-processor.tsx:11-35 | two two-line blocks separated by an empty line give exactly their two cards, in order |
| CardProcessor.DragonGoblinExample | card-processor.tsx:11-35 | the text "Dragon Card.\nA fierce beast.\n\nGoblin Card.\nA sneaky foe." gives ("Dragon Card.", "A fierce beast.") then ("Goblin Card.", "A sneaky foe.") |

## Left out

- `handleFileUpload` (card-processor.tsx:37-60) is not modelled: it is an async call into the Tesseract OCR worker with try/catch error reporting. The recognised text is taken as an arbitrary input string.
- The React state hooks (lines 7-9) and the JSX rendering (lines 62-106) are UI with no logic to state.
- JavaScript strings are sequences of UTF-16 code units, while a Dafny `char` is a Unicode scalar value. The model represents a string as its code points. Every white-space character is in the Basic Multilingual Plane, so split, trim and the emptiness tests behave the same. Lone surrogates cannot be represented.
- The white-space set is the one of Unicode 15. A newer Unicode table that added a space separator would change `IsWs`, and nothing else.
- The filter is written recursively from the end of the list rather than as a front-to-back loop; FilterSpec proves it is exactly the order-preserving filter.
