# Playroom editor core in Dafny

Playroom is a browser playground for React components. Its editor has three
pieces of logic modelled here.

- **Cursor translation** (`src/utils/formatting.js`). One function turns an
  editor `{line, ch}` position into a flat offset into the code. The other
  turns an offset back into a position. Both are recursive functions over
  `seq<char>`, built on models of JavaScript's `split('\n')`, `slice(0, end)`
  and `lastIndexOf('\n')`. On valid inputs they are proved to be inverses in
  both directions.
- **Autocomplete schema and preview frames**, computed in `render`
  (`src/Playroom/Playroom.js`).
  - The component names are sorted with JavaScript's default string order.
  - `children` and `className` are dropped from each component's parsed prop
    types.
  - Each remaining prop becomes its `oneOf` string members, or `null`.
  - The frames are the width-major product of widths and theme names.
  - A JavaScript object is modelled as a sequence of (key, value) entries
    with distinct keys, listed in insertion order. JavaScript lists keys that
    are array indices ("9", "10") first, in numeric order; the model assumes no
    component or prop name is such a key.
- **Editor state** (`src/Playroom/Playroom.js`). The `Playroom` class holds
  `codeReady`, `code`, `renderCode` and `key`, plus the editor gutter the
  component writes its error markers into.
  - `initialiseCode`, `updateCode`, `validateCode` and the format shortcut
    are methods that change these fields.
  - The class invariant `Valid()` states what `renderCode` is once the code
    is loaded: the loaded code or the latest validated text that parsed.
  - The error line comes from the parser's message. It is the first match of
    the pattern `\(([0-9]+):`, read as a decimal number.

The JSX parser (acorn-jsx) and the formatter (prettier) are foreign
libraries, so they are fixed function values given to the class when it is
created. The parser's verdict is `Parsed` or `Failed(message)`. The formatter
returns `None` when it throws. `parsePropTypes` is a library too, so its
output is the input of the schema functions.

Modules: `Wrappers` (Option), `Formatting`, `Ordering` (JavaScript string
order and sorting), `Schema`, `Frames`, `ErrorLine` and `Playroom`.

Where the code and the component's stated design differ, the model follows
the code.

- `componentDidMount` runs `initialiseCode` before validation, so
  `renderCode` is at first the loaded code whether or not it parses
  (`Playroom.UnparsedLoadScenario`). The invariant is therefore "the loaded
  code or the last text that parsed", not "a text that parses".
- The regular expression takes the leftmost `(` that is followed by digits
  and a `:`. This is not simply the first `(` in the message: a `(` that
  fails to match is skipped (`ErrorLine.FirstMatchFrom`).

## Model

| member | source | states |
|---|---|---|
| Formatting.Split | src/utils/formatting.js:19 | `split('\n')` always gives at least one piece |
| Formatting.SplitPiecesLackNewline | src/utils/formatting.js:19 | no piece of `split('\n')` holds a newline |
| Formatting.SplitJoin | src/utils/formatting.js:19 | joining the pieces with newlines gives back the text |
| Formatting.JoinSplit | src/utils/formatting.js:19 | splitting a join of newline-free pieces gives back the pieces |
| Formatting.SplitCountsNewlines | src/utils/formatting.js:31 | the number of pieces is one more than the number of newlines |
| Formatting.Slice | src/utils/formatting.js:30 | `slice(0, end)` is the prefix of length `end`, clamped to the text; a negative `end` counts from the back |
| Formatting.LastIndexOf | src/utils/formatting.js:32 | the index holds the character and none comes after it, or -1 when the character is absent |
| Formatting.Step | src/utils/formatting.js:19-26 | the `reduce` callback: lines before `line` add length + 1, line `line` adds `ch`, later lines add nothing; its effect is stated by `Formatting.FoldIsPrefixSum` |
| Formatting.Fold | src/utils/formatting.js:19-26 | `reduce` from a given line and running total; `Formatting.FoldIsPrefixSum` states that it adds the prefix sum `LinesBefore` and `ch` once |
| Formatting.FoldIsPrefixSum | src/utils/formatting.js:19-26 | folding from line `index` with total `pos` adds length + 1 for each of lines `index` to `line - 1`, and `ch` once if `line` is an existing line at or after `index` |
| Formatting.PositionToCursorOffset | src/utils/formatting.js:18-27 | `positionToCursorOffset`; its contract is stated by `OffsetIsPrefixSum`, `OffsetOutsideLines`, `OffsetInRange` and the two round trips |
| Formatting.OffsetIsPrefixSum | src/utils/formatting.js:18-27 | the offset sums length + 1 over every line before `line`, then adds `ch` if `line` is an existing line; later lines add nothing |
| Formatting.OffsetOutsideLines | src/utils/formatting.js:18-27 | for a line at or past the line count the offset is the code length + 1, whatever `ch` is; a negative line gives 0 |
| Formatting.OffsetInRange | src/utils/formatting.js:18-27 | a valid position (existing line, `ch` at most its length) maps into [0, length of code] |
| Formatting.CursorOffsetToPosition | src/utils/formatting.js:29-38 | `cursorOffsetToPosition`; its contract is stated by `LineCountsNewlines`, `ColumnFromLastNewline` and the two round trips |
| Formatting.LineCountsNewlines | src/utils/formatting.js:29-31 | the line of offset `o` is the number of newlines in the first `o` characters |
| Formatting.ColumnFromLastNewline | src/utils/formatting.js:29-37 | the column is the distance back to the last newline before the offset; no newline lies in between; it equals the offset exactly when there is no newline before it |
| Formatting.PositionRoundTrip | src/utils/formatting.js:18-38 | offset then position gives back every valid position |
| Formatting.OffsetRoundTrip | src/utils/formatting.js:18-38 | every offset in [0, length] gives a valid position, and position then offset gives back the offset |
| Ordering.Precedes | src/Playroom/Playroom.js:170 | the comparison of the default `sort()`: a proper prefix comes first, otherwise the first differing character decides; `PrecedesIrreflexive`, `PrecedesTransitive` and `PrecedesTotal` make it a strict total order |
| Ordering.PrecedesIrreflexive | src/Playroom/Playroom.js:170 | no string comes before itself |
| Ordering.PrecedesTransitive | src/Playroom/Playroom.js:170 | the default string order of `sort` is transitive |
| Ordering.PrecedesTotal | src/Playroom/Playroom.js:170 | of two different strings, one comes before the other |
| Ordering.Sort | src/Playroom/Playroom.js:170 | `sort()` gives an ordered permutation of the names |
| Ordering.SortDistinct | src/Playroom/Playroom.js:170 | sorting an object's keys gives exactly the same names, strictly increasing |
| Schema.Strings | src/Playroom/Playroom.js:193 | the filter keeps exactly the string members, and never adds one |
| Schema.StringsAppend | src/Playroom/Playroom.js:193 | the filter keeps the original order of the string members |
| Schema.Completion | src/Playroom/Playroom.js:188-195 | a `oneOf` prop gives its string members; any other prop gives `null` |
| Schema.Omit | src/Playroom/Playroom.js:176-180 | lodash `omit(parsedPropTypes, 'children', 'className')`; it never grows the object, and `OmitMembers`, `OmitAppend` and `OmitKeepsObject` state what it keeps |
| Schema.OmitMembers | src/Playroom/Playroom.js:176-180 | `omit` keeps exactly the entries whose key is neither `children` nor `className` |
| Schema.OmitAppend | src/Playroom/Playroom.js:176-180 | `omit` keeps the order of the entries it keeps |
| Schema.OmitKeepsObject | src/Playroom/Playroom.js:176-181 | what `omit` returns still has no key twice |
| Schema.AttrsOf | src/Playroom/Playroom.js:181-197 | the `attrs` object of one component; its contract is `AttrsSpec` |
| Schema.AttrsSpec | src/Playroom/Playroom.js:176-197 | `attrs` has no `children` or `className`, has every other parsed prop once, and maps each to its completion |
| Schema.TagsOf | src/Playroom/Playroom.js:170-201 | the `tags` object; its contract is `TagsSpec` |
| Schema.TagsSpec | src/Playroom/Playroom.js:170-201 | the schema has one entry per component, with exactly the registry's names, in strictly increasing order, each with that component's `attrs` |
| Schema.OneOfExample | src/Playroom/Playroom.js:176-195 | a component with `children` and a `oneOf(['a', 'b', 2])` prop gets only that prop, completed with `["a", "b"]` |
| Frames.FramesForWidth | src/Playroom/Playroom.js:165-167 | one frame per theme name for one width; its layout is stated by `FrameAt` |
| Frames.FramesOf | src/Playroom/Playroom.js:163-168 | the `frames` list, `flatMap` over the widths; its contract is `FramesLength`, `FrameAt` and `FrameAtIndex` |
| Frames.FramesLength | src/Playroom/Playroom.js:163-168 | there are widths × themes frames |
| Frames.FrameAt | src/Playroom/Playroom.js:163-168 | width `i` with theme `j` sits at index `i * themes + j`, so the list is width-major with the themes in key order |
| Frames.FrameAtIndex | src/Playroom/Playroom.js:163-168 | conversely, the frame at index `k` has width number `k / themes` and theme number `k % themes` |
| ErrorLine.DigitRun | src/Playroom/Playroom.js:138 | `[0-9]+` is greedy: the run is all digits and stops before a non-digit or the end |
| ErrorLine.MatchAtIsGreedy | src/Playroom/Playroom.js:138 | the pattern matches at `(` exactly when the greedy digit run is non-empty and ends at a `:` |
| ErrorLine.MatchEndUnique | src/Playroom/Playroom.js:138 | a match starting at a given `(` ends at one `:` only |
| ErrorLine.FirstMatchFrom | src/Playroom/Playroom.js:138 | the match found is the leftmost one; if none is found, the pattern matches nowhere |
| ErrorLine.DecimalValue | src/Playroom/Playroom.js:144 | `parseInt(digits, 10)` on a digit string, read most significant digit first; `DecimalValueZero` states when it is 0 |
| ErrorLine.DecimalValueZero | src/Playroom/Playroom.js:144-146 | `parseInt` gives 0 exactly when every digit is `0` |
| ErrorLine.LineNumber | src/Playroom/Playroom.js:138-144 | there is a line number exactly when the pattern matches; it is the decimal value of the captured digits |
| ErrorLine.LineNumberOfLeftmost | src/Playroom/Playroom.js:138-144 | for the leftmost match the line number is its captured digits read in base 10 |
| ErrorLine.NoMatchNoLineNumber | src/Playroom/Playroom.js:138-144 | there is no line number exactly when the message matches nowhere |
| ErrorLine.MarkerLine | src/Playroom/Playroom.js:140-153 | the 0-based line `validateCode` marks, if any; its contract is `MarkerLineSpec` |
| ErrorLine.MarkerLineSpec | src/Playroom/Playroom.js:140-153 | no marker when the number is 0; otherwise the marker line is the number minus one |
| ErrorLine.MismatchedTagMessage | src/Playroom/Playroom.js:138-153 | `Unexpected token (1:17)` puts the marker on line 0 |
| Playroom.Wrap | src/Playroom/Playroom.js:130 | the parsed text is the code inside an 11-character `<div>` pair |
| Playroom.MarkersAfter | src/Playroom/Playroom.js:125-153 | after a parse the gutter is empty; after a failure it holds at most one marker, on the line the message names, titled with the message |
| Playroom.LastGoodSpec | src/Playroom/Playroom.js:109-134 | the rendered code is the loaded code or a text that parsed: the latest that parsed, or the loaded code when none did |
| Playroom.LastGoodAppend | src/Playroom/Playroom.js:123-135 | one more validation replaces the rendered code only when the new text parses |
| Playroom.Format | src/Playroom/Playroom.js:246-265 | `format` returns the formatter's result, or the input when the formatter throws |
| Playroom.FormatIdempotent | src/Playroom/Playroom.js:246-265 | formatting twice equals formatting once, when the formatter leaves its own output alone |
| Playroom.Playroom.constructor | src/Playroom/Playroom.js:72-81 | not ready, no code, no rendered code, key 0, empty gutter |
| Playroom.Playroom.InitialiseCode | src/Playroom/Playroom.js:109-115 | ready, and the loaded text becomes both `code` and `renderCode` |
| Playroom.Playroom.ValidateCode | src/Playroom/Playroom.js:123-155 | the gutter is cleared and then holds the message's marker; `renderCode` becomes the text exactly when it parses and is otherwise unchanged; `code` is untouched |
| Playroom.Playroom.UpdateCode | src/Playroom/Playroom.js:117-121 | `code` always becomes the text, the text is handed to the owner, then it is validated |
| Playroom.Playroom.CodeLoaded | src/Playroom/Playroom.js:84-87 | after loading, `code` and `renderCode` are the loaded text even if it does not parse, and the gutter shows its error |
| Playroom.Playroom.FormatShortcut | src/Playroom/Playroom.js:95-103 | the shortcut replaces the live code by its formatted form and changes nothing else |
| Playroom.MismatchedTagScenario | src/Playroom/Playroom.js:84-153 | after a good load, a text that fails with `(1:17)` leaves the preview on the loaded code and marks line 0 |
| Playroom.UnparsedLoadScenario | src/Playroom/Playroom.js:84-115 | loaded code that does not parse is still the rendered code |

## Left out

- The 200 ms debounce on editor changes (`src/Playroom/Playroom.js:157`) is timer scheduling inside lodash. `UpdateCode` is called directly.
- The CodeMirror autocomplete triggers (`src/Playroom/Playroom.js:32-69`) and the Tab and extra-key options (`src/Playroom/Playroom.js:226-237`) are editor widget code.
- Building the marker DOM element (`src/Playroom/Playroom.js:150-152`) is not modelled. The gutter is a map from 0-based line to the marker's title text.
- The keyboard events, the `window` listeners, `componentWillUnmount` and the Promise from `getCode` (`src/Playroom/Playroom.js:83-103`) are event plumbing. `CodeLoaded` stands for what runs when the Promise resolves. `FormatShortcut` stands for a Ctrl/Cmd-S key press; the key test is not modelled.
- The React render tree and `Preview` (`src/Playroom/Playroom.js:203-242`) are not modelled. The model keeps only the values `render` computes (`tags`, `frames`).
- The internals of acorn-jsx, `parsePropTypes` and prettier are not modelled. They are foreign libraries, given as function values or as input.
- `formatCode` (`src/utils/formatting.js:4-16`) is only a rethrowing wrapper around prettier.
- `key` is set to 0 and never changed in this file.
- The `propTypes = {}` destructuring on line 174 is not modelled, since its value is never used.
- ErrorLine.LineNumber: `parseInt` is read as an unbounded natural number. Digit strings too long for a double lose precision in JavaScript; the model does not capture that.
- Formatting.PositionToCursorOffset: positions and offsets are unbounded integers, not JavaScript doubles.
- Formatting.PositionToCursorOffset and Formatting.CursorOffsetToPosition: lengths, offsets and columns count Unicode code points (Dafny `char`). JavaScript strings and CodeMirror's `ch` count UTF-16 code units, where a character outside the Basic Multilingual Plane counts 2. For such text the model's offsets differ from the source's: for `"😀\nx"` and line 1, column 0, the source gives 3 and the model gives 2.
- Schema.TagsSpec: assumes no component name is an array index such as "10". For such names, JavaScript's `Object.assign` lists those keys first in numeric order, so the key order of `tags` is not the sorted order `TagsSpec` states. The same holds for prop names and the key order of `attrs` in Schema.AttrsSpec.
- Ordering.Precedes: compares `char` values one by one, the way JavaScript compares UTF-16 code units. Characters outside the Basic Multilingual Plane are not split into surrogate pairs.
- Playroom.Playroom.ValidateCode: a thrown value that is `null` or has no `message` is not modelled; every failure carries a message string.
- Playroom.Playroom.UpdateCode: the owner's `updateCode` callback is modelled as a log of the values handed to it (`persisted`).
