# PrintString, modelled in Dafny

`PrintString` is a custom HTML element. It shows a text as a row (or a column) of
coloured blocks, with one block per character. When its `text` or `order` attribute
changes, it recomputes the text to show. It then edits its list of blocks in place with
an edit script derived from a Levenshtein distance matrix, rather than rebuilding the
list.

The model covers the element's logic, with the DOM replaced by a sequence of blocks:

- **`Transformer`** (`transformer.dfy`): the text pipeline of `getValue`.
  - `formatString` strips every `\s` code unit and upper-cases the rest.
  - `reverseString` reverses the text.
  - `shuffleString` is the Fisher–Yates loop over an array.
- **`SequenceDiffer`** (`differ.dfy`): `levenshteinDistance`.
  - The filling loops run over an `array2`.
  - The `do … while` walk back runs over that matrix.
  - The function `Apply` says what the emitted `R`/`A`/`D` records do to a block list.
  - The parameter `a` is the new text and `b` the old one.
- **`ColorCoder`** (`colorcoder.dfy`): `hashCode` and `intToRGB`. Together they give each block the six hexadecimal digits of its background colour.
- **`BlockList`** (`blocklist.dfy`): how `addBlock` and `delBlock` change the container's children.
- **`PrintStringElement`** (`printstring.dfy`): the element as a class.
  - Its fields are the blocks, the `column` class, `stateLayout`, `stateOrder`, `textOutputCached` and the `text` attribute.
  - It has methods for `render`, the block operations and the three attribute handlers.
  - Its invariant `Valid()` says the blocks show the cached text, each block in its own character's colour.
- **`JsStrings`** and **`Outcomes`**: JavaScript strings as sequences of UTF-16 code units, and the exceptions the element can throw, as a result type.

The main theorem is the round trip, `SequenceDiffer.LevenshteinDistance`. Apply the
records to the old text in the order they were emitted, and you get the new text.
`PrintString.Render` relies on it, and so it leaves the blocks showing the new text.

Behaviour of the code that a reader might not expect:

- **The script is not always minimal.** The walk never enters row or column 0 of the matrix. From the old text "X" to the new text "AX" it emits an insertion and then a replacement, though the distance is 1 (`SequenceDiffer.NotMinimalExample`).
- **Ties go to the diagonal first, then to an insertion (`A`), then to a deletion (`D`).** This is the order of the `switch` cases.
- **A change between two one-character texts throws `'MinRda Error'`.** The loop body runs once at cell (1, 1), where no candidate exists. No other pair of non-empty texts throws.
- **A `null` text throws a `TypeError` in `formatString`.** This happens when `getValue` receives the value of an absent `text` attribute. It also happens in `handleOrder`, which re-reads the attribute, when the order changes before any text is set.
- **Only the shift in `hashCode` wraps to 32 bits.** The subtraction and the addition are exact, so the hash can leave the int32 range. Its value modulo 2^32, and therefore the colour, is still that of the wrapped hash `31 h + c` (`ColorCoder.HashCode`).

## Model

| member | source | states |
|---|---|---|
| BlockList.InsertBlock | src/components/print-string/index.js:143-147 | one block longer; index 0 or an index past the end appends the block; any other index puts it at that index, with the blocks before it unchanged and the blocks from it on moved up by one, in order |
| BlockList.RemoveBlock | src/components/print-string/index.js:151 | one block shorter; the blocks before the index stay and those after it move up by one |
| Transformer.IsWhitespace | src/components/print-string/index.js:70 | the `\s` class: space, tab, LF and CR are in it; no ASCII letter or digit is |
| Transformer.ToUpper | src/components/print-string/index.js:70 | no lower-case ASCII letter remains; every other code unit is kept; whitespace stays whitespace and nothing else becomes whitespace |
| Transformer.UpperCase | src/components/print-string/index.js:70 | `toUpperCase()` keeps the length, leaves no lower-case ASCII letter, and keeps every other code unit in place |
| Transformer.StripWhitespace | src/components/print-string/index.js:70 | the result is never longer than the input |
| Transformer.StripWhitespaceSingle | src/components/print-string/index.js:70 | a single code unit is dropped exactly when it is whitespace (with `StripWhitespaceConcat`, every `\s` code unit is dropped and every other one kept) |
| Transformer.StripWhitespaceClean | src/components/print-string/index.js:70 | no whitespace code unit is left after `replace(/\s/g, '')` |
| Transformer.StripWhitespaceKeepsClean | src/components/print-string/index.js:70 | a text without whitespace is left as it is |
| Transformer.StripWhitespaceConcat | src/components/print-string/index.js:70 | stripping distributes over concatenation, so every non-whitespace code unit is kept, in order |
| Transformer.FormatString | src/components/print-string/index.js:69-71 | the normalised text is no longer than the input, holds no whitespace, and upper-casing does not change it |
| Transformer.FormatStringIdempotent | src/components/print-string/index.js:69-71 | normalising twice is normalising once |
| Transformer.StripSpaceBetween | src/components/print-string/index.js:70 | a space between two texts without whitespace is dropped |
| Transformer.FormatStringExample | src/components/print-string/index.js:69-71 | "he llo" normalises to "HELLO" |
| Transformer.ReverseString | src/components/print-string/index.js:73-75 | same length, and position k holds the code unit at position n-1-k of the input |
| Transformer.ReverseStringInvolutive | src/components/print-string/index.js:73-75 | reversing twice gives back the input |
| Transformer.ShuffleString | src/components/print-string/index.js:77-88 | whatever index each swap picks in [0, i], the result has the same length and the same multiset of code units |
| ColorCoder.ToInt32 | src/components/print-string/index.js:221 | the int32 conversion lies in the signed 32-bit range and agrees with its input modulo 2^32 |
| ColorCoder.ShiftLeft5 | src/components/print-string/index.js:221 | `h << 5` is an int32 congruent to 32 h modulo 2^32 |
| ColorCoder.HashStep | src/components/print-string/index.js:221 | one step of the loop is 31 h + c modulo 2^32, although only the shift is wrapped |
| ColorCoder.PolyHashIsWeightedSum | src/components/print-string/index.js:218-224 | the Horner form of the hash equals the sum of code_k * 31^(n-1-k) |
| ColorCoder.HashCode | src/components/print-string/index.js:218-224 | the hash agrees with the 31-polynomial hash modulo 2^32 and stays within n * 2^32 in absolute value |
| ColorCoder.Low24 | src/components/print-string/index.js:227 | `i & 0x00FFFFFF` is the value of i modulo 2^24 |
| ColorCoder.ToHexString | src/components/print-string/index.js:227 | `toString(16).toUpperCase()` gives at least one upper-case hex digit, with no leading zero, and denotes the number |
| ColorCoder.HexLength | src/components/print-string/index.js:227-228 | a number below 16^k has at most k hex digits, so the padding length is never negative |
| ColorCoder.HexValueLeadingZeros | src/components/print-string/index.js:228 | left padding with zeros does not change the value |
| ColorCoder.IntToRGB | src/components/print-string/index.js:226-229 | exactly six upper-case hex digits whose value is the hash modulo 2^24 |
| ColorCoder.SameColor | src/components/print-string/index.js:226-229 | hashes that agree modulo 2^32 give the same colour |
| ColorCoder.ColorOf | src/components/print-string/index.js:137 | the colour `addBlock` and `replaceBlock` give a code unit: six hex digits with value (sum of code_k * 31^(n-1-k)) mod 2^24 over `symbol + 'hashpadding'` |
| ColorCoder.BlockColor | src/components/print-string/index.js:130 | the colour of a block is six hex digits with value (sum of code_k * 31^(n-1-k)) mod 2^24 over the code units of `symbol + 'hashpadding'` |
| SequenceDiffer.Min3 | src/components/print-string/index.js:172-176 | `Math.min` of three numbers is one of them and no larger than any |
| SequenceDiffer.Lev | src/components/print-string/index.js:161-177 | the cell recurrence (borders r and c, interior minimum of left + 1, up + 1 and diagonal + mismatch); a cell never exceeds r + c, deleting everything and inserting everything |
| SequenceDiffer.LevLower | src/components/print-string/index.js:158-178 | a cell is at least the difference of the two prefix lengths |
| SequenceDiffer.LevUpper | src/components/print-string/index.js:158-178 | a cell is at most the longer prefix length |
| SequenceDiffer.LevZeroIff | src/components/print-string/index.js:158-178 | a cell is 0 exactly when its two prefixes are equal |
| SequenceDiffer.DistanceMatrix | src/components/print-string/index.js:159-178 | the filled matrix has one row per prefix of the old text and one column per prefix of the new one; every cell holds the edit distance of its two prefixes by the recurrence (borders r and c; interior the minimum of left + 1, up + 1 and diagonal + mismatch) |
| SequenceDiffer.FillRow | src/components/print-string/index.js:170-177 | the inner loop completes row j from the rows above and leaves the rows below untouched |
| SequenceDiffer.MinRda | src/components/print-string/index.js:189 | the minimum over the candidates other than -1, which is none exactly when all are -1 |
| SequenceDiffer.Pick | src/components/print-string/index.js:191-209 | the `switch` takes the diagonal when it exists and is minimal, else the left cell when minimal, else the upper cell, and throws exactly when no candidate exists |
| SequenceDiffer.Choice | src/components/print-string/index.js:186-189 | the chosen move stays inside the matrix, and there is none exactly at i <= 1 and j <= 1 |
| SequenceDiffer.Step | src/components/print-string/index.js:192-206 | a move never increases i or j and lowers i + j; it pushes at most one record, and none exactly on a diagonal between equal code units |
| SequenceDiffer.Final | src/components/print-string/index.js:211-213 | at (1, 1) the only record is `R(1, 1)`, pushed exactly when the first code units differ |
| SequenceDiffer.Backtrace | src/components/print-string/index.js:185-214 | the records of the walk from (i, j); the only error it throws is 'MinRda Error' |
| SequenceDiffer.NextMove | src/components/print-string/index.js:186-189 | reading `cr`, `cd`, `ca` from the matrix picks the move of `Choice` |
| SequenceDiffer.Turn | src/components/print-string/index.js:186-213 | one pass of the loop body pushes the records of the move and the final record at (1, 1), and steps to the next cell |
| SequenceDiffer.WalkTurn | src/components/print-string/index.js:185-214 | one pass keeps the loop invariant (records so far, then the walk from the current cell, make the whole walk) and decreases i + j |
| SequenceDiffer.Walk | src/components/print-string/index.js:180-215 | the `do … while` loop returns exactly the records of the walk from the bottom-right cell, or throws 'MinRda Error' where it does |
| SequenceDiffer.BacktraceSucceeds | src/components/print-string/index.js:185-214 | the walk from (i, j) returns exactly when i >= 1, j >= 1 and i + j > 2, and otherwise throws 'MinRda Error' |
| SequenceDiffer.ApplyOp | src/components/print-string/index.js:113-125 | what an `R`, `A` or `D` record does to the text the blocks show; an `A` adds one block, a `D` removes one, an `R` keeps the length |
| SequenceDiffer.Apply | src/components/print-string/index.js:112-126 | the records applied in order; when they all apply, the length changes by the adds minus the deletes |
| SequenceDiffer.ApplyConcat | src/components/print-string/index.js:112-126 | applying two record lists in turn is applying their concatenation |
| SequenceDiffer.ApplySingle | src/components/print-string/index.js:112-126 | a one-record list does what that record does |
| SequenceDiffer.DiagonalApplies | src/components/print-string/index.js:192-198 | a diagonal step turns old[..i] + new[j..] into old[..i-1] + new[j-1..], with an `R` record only where the code units differ |
| SequenceDiffer.AddApplies | src/components/print-string/index.js:117-118 | an `A` record at a positive `src` places new[dest-1] after the first `src` blocks |
| SequenceDiffer.LeftApplies | src/components/print-string/index.js:199-202 | a step left with its `A` record turns old[..i] + new[j..] into old[..i] + new[j-1..] |
| SequenceDiffer.UpApplies | src/components/print-string/index.js:203-206 | a step up with its `D` record turns old[..i] + new[j..] into old[..i-1] + new[j..] |
| SequenceDiffer.StepApplies | src/components/print-string/index.js:191-209 | every move keeps the invariant that the blocks read old[..i] + new[j..] |
| SequenceDiffer.FinalApplies | src/components/print-string/index.js:211-213 | at (1, 1) the final `R` record, pushed only when the first code units differ, completes the new text |
| SequenceDiffer.BacktraceRoundTrip | src/components/print-string/index.js:185-215 | from any cell of the walk, the records applied in order to old[..i] + new[j..] give the new text |
| SequenceDiffer.StepRecords | src/components/print-string/index.js:191-209 | each move pushes at most one record, within bounds, with `src` and `dest` above those of later moves; its adds minus deletes equal the change in j minus the change in i |
| SequenceDiffer.BacktraceShape | src/components/print-string/index.js:185-214 | every `src` lies in 1..i and every `dest` in 1..j; along the records `src` never grows and `dest` strictly falls |
| SequenceDiffer.BacktraceCounts | src/components/print-string/index.js:185-214 | the adds minus the deletes equal j - i, and at most i + j - 1 records are pushed |
| SequenceDiffer.LevenshteinDistance | src/components/print-string/index.js:158-216 | the result is the walk over the filled matrix; it returns exactly when both texts are non-empty and not both of length 1, and otherwise throws 'MinRda Error'; the records turn the old text into the new one, lie within bounds, are ordered, and their adds minus deletes equal the length difference |
| SequenceDiffer.NotMinimalExample | src/components/print-string/index.js:185-214 | from "X" to "AX" the distance is 1, but the walk emits two records |
| SequenceDiffer.ChoiceDiagonal | src/components/print-string/index.js:191-198 | the diagonal wins when its cell is no larger than the other two |
| SequenceDiffer.DiagonalKeeps | src/components/print-string/index.js:192-198 | a diagonal step between equal code units pushes nothing |
| SequenceDiffer.BacktraceSamePrefix | src/components/print-string/index.js:185-214 | where the first i code units agree, the walk from (i, i) emits no record, so equal texts give an empty script |
| SequenceDiffer.LevDiagonalOne | src/components/print-string/index.js:158-178 | for texts differing at one position, the diagonal cells past it are at most 1 |
| SequenceDiffer.BacktraceOneReplace | src/components/print-string/index.js:185-214 | texts of equal length that differ at one position k give exactly one record, the `R` that rewrites block k + 1 (as from "HELLO" to "HELPO") |
| PrintStringElement.Painted | src/components/print-string/index.js:136-148 | one block per code unit |
| PrintStringElement.PaintedInjective | src/components/print-string/index.js:129-148 | the blocks determine the text they show |
| PrintStringElement.PaintedInsert | src/components/print-string/index.js:136-148 | painting commutes with the insertion of `addBlock` |
| PrintStringElement.PaintedRemove | src/components/print-string/index.js:150-152 | painting commutes with the removal of `delBlock` |
| PrintStringElement.PaintedReplace | src/components/print-string/index.js:129-134 | painting commutes with the rewrite of `replaceBlock` |
| PrintStringElement.ReorderedSingle | src/components/print-string/index.js:52-60 | every known order leaves a one-code-unit text as it is |
| PrintStringElement.GetValueStatus | src/components/print-string/index.js:49-67 | how `getValue` ends: it completes only on a text and a known order; with a cache other than one code unit, or when the normalised text equals the cache, it never throws 'MinRda Error'; that error needs a one-code-unit cache that differs from the normalised text |
| PrintStringElement.PrintString.constructor | src/components/print-string/index.js:2-12 | layout and order are read from the attributes, the cache is empty, and so is the container |
| PrintStringElement.PrintString.ReplaceBlock | src/components/print-string/index.js:129-134 | block `index` becomes the symbol in its colour; the others stay |
| PrintStringElement.PrintString.AddBlock | src/components/print-string/index.js:136-148 | a block for the symbol, in its colour, is inserted as `InsertBlock` places it |
| PrintStringElement.PrintString.DelBlock | src/components/print-string/index.js:150-152 | block `index` is removed |
| PrintStringElement.PrintString.RemoveAll | src/components/print-string/index.js:154-156 | the container is emptied |
| PrintStringElement.PrintString.Render | src/components/print-string/index.js:90-127 | on blocks showing the old value, the blocks end up showing the new value; a change between two texts of one code unit each throws 'MinRda Error' and leaves the blocks as they were |
| PrintStringElement.PrintString.AddEach | src/components/print-string/index.js:103-105 | on an empty container, appending every code unit in order shows the new value |
| PrintStringElement.PrintString.ApplyEach | src/components/print-string/index.js:112-126 | replaying records that turn the current text into the new one leaves the blocks showing the new one |
| PrintStringElement.PrintString.ApplyRecord | src/components/print-string/index.js:113-125 | one record on the blocks changes them exactly as it changes the text they show |
| PrintStringElement.PrintString.GetValue | src/components/print-string/index.js:49-67 | a `null` text, an unknown order and a one-code-unit change throw, and leave cache and blocks unchanged; otherwise the cache becomes the normalised text, left as it is, reversed or permuted as the order says, and the blocks show it |
| PrintStringElement.PrintString.HandleLayout | src/components/print-string/index.js:32-38 | the layout is stored; the `column` class flips exactly when the value changed |
| PrintStringElement.PrintString.HandleOrder | src/components/print-string/index.js:40-47 | an unchanged order changes nothing; a new order is stored, and the text attribute is re-run through `getValue` under it |
| PrintStringElement.PrintString.SetText | src/components/print-string/index.js:20-22 | a new text attribute is stored and run through `getValue` |

## Left out

- The DOM plumbing: the shadow root, the template, `customElements.define`, `innerHTML` and the `style` of a block (index.js lines 1-8, 132-133, 138-141, 155, 232). The container is a sequence of blocks, and the class list is the `column` flag.
- `attributeChangedCallback` and `observedAttributes` (index.js lines 14-30): the browser calls them and dispatches by name. The model has one method per attribute instead (`SetText`, `HandleLayout`, `HandleOrder`). When these calls happen is up to the caller.
- The template is not part of the source file. The model takes it that the template's container starts with no children, and the constructor takes its initial `column` class as a parameter.
- `Math.random` and `Math.floor` (index.js line 82) are floating point. The swap index is any j in [0, i], and only the permutation property is proved, not the distribution.
- Full Unicode `toUpperCase`: `Transformer.ToUpper` maps only the ASCII letters. In particular, characters whose upper case is longer, such as "ß", are not modelled.
- Characters outside the Basic Multilingual Plane are sequences of two code units, as in JavaScript. The model does not treat surrogate pairs specially, and neither do `replace(/\s/g, '')`, `split('')`, `reverse()` and `charCodeAt`. `toUpperCase` works on code points, which the line above leaves out.
- The `'Diff Error'` default (index.js lines 123-124) cannot be reached, because every record is `R`, `A` or `D`.
- PrintStringElement.PrintString.ReplaceBlock: requires an index inside the block list. Outside it, the source throws a `TypeError` on `undefined`. `render` never gets there, because every record it replays fits the blocks (`ApplyRecord` requires this, and `LevenshteinDistance` proves it).
- PrintStringElement.PrintString.DelBlock: requires an index inside the block list, for the same reason as `ReplaceBlock`.
- The `order` and `layout` values are Dafny strings (`Option<string>`), not sequences of code units like the text. The element only compares them for equality, with each other and with "direct", "reverse" and "random", and equality means the same in both representations.
- ColorCoder.HashCode: models the hash as an unbounded integer. JavaScript numbers hold it exactly, because the bound |hash| <= n * 2^32 is far below 2^53 for the 12-unit strings that are hashed.
- The build configuration and the settings component (`webpack.config.js`, `src/components/settings/index.js`) are not part of this model.
