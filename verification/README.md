# text-diff-tool comparison core, in Dafny

This project models the comparison pipeline of text-diff-tool, a browser tool that
shows the differences between an original and a modified text side by side. The
model has three parts.

- **`computeDiff`** (module `App`). There is an optional JSON canonicalisation of
  both inputs, then an identity check. After that comes the line-level diff:
  - each line-level edit is expanded into numbered per-side line records;
  - a two-cursor walk pairs those records into aligned rows;
  - a deleted line facing an inserted line becomes a `modify` pair, whose
    character-level diff is split per side.
- **`stringifyWithSortedKeys`** (module `JsonUtils`). It has three steps:
  - it collects one global sorted key list over every depth;
  - it makes a prototype-free deep copy in which arrays become index-keyed objects;
  - it runs `JSON.stringify` with the key list as filter and order, and a two-space indent.
- **The side-by-side view** (module `CompareDisplay`). This covers the row
  pairing, the line and character CSS classes, the line-number and gutter cells,
  and the choice of content. It also covers the `Invalid charDiff type` throw.

Supporting modules:

- `DiffMatchPatch` holds the parts of the diff_match_patch library that the
  application calls. The diff and cleanup algorithms are function values. The
  one promise the model relies on is stated as `Library.Valid`: a script
  reproduces both of its texts. The line hashing, `diff_linesToChars_` and
  `diff_charsToLines_`, is modelled concretely in its usual case: one symbol per
  line, with its terminator (three exceptions are listed under "## Left out").
- `Text` models `split('\n')`/`join('\n')`, the decimal rendering of indices and
  the default string order of `Array.prototype.sort`. That order compares UTF-16
  code units, so a character above U+FFFF sorts before U+E000 to U+FFFF.
- `Wrappers` holds `Option` and `Result`. A `Failure` stands for a thrown error.

The foreign inputs are parameters:

- `JSON.parse` is a parameter `parse: string -> Result<Json>` of `ComputeDiff`.
- The library is a parameter `lib: Library`.

Properties that depend on the library hold when `lib.Valid()` holds.

Arrays in the canonicaliser: the copy turns every array into an object whose keys
are the indices (src/utils/jsonUtils.ts:35-56), so the serialised form of an array
is written with braces and its elements are ordered by their indices as *strings*.
The repository's unit tests (src/utils/jsonUtils.test.ts:106-130) expect bracketed
arrays in element order. The model follows the code: `EmptyArrayWrittenAsObject`
proves that `[]` is written `{}`, and `ArraysWrittenAsObjects` proves that every
array is written starting with `{`. No claim about element order is made.
The conversion also loses the difference between an array and the object that
maps each index string to the element there: `ArrayObjectCollision` proves that
both are written alike, so in JSON mode `[null]` and `{"0": null}` are reported
identical (`IndexedObjectIdentical`).

The gutter mark of a removed line: src/components/CompareDisplay.tsx:94 holds the
three characters U+00E2 U+02C6 U+2019. These are the UTF-8 bytes of the minus
sign U+2212 read back as Windows-1252. The model keeps the three characters the
file holds (`CompareDisplay.RemovedMark`), since those are what the view shows.

## Model

| member | source | states |
|---|---|---|
| Text.JoinSplit | src/App.tsx:126-131 | re-joining the fragments of `split('\n')` gives back the text, so the line texts handed to the library are the inputs themselves |
| Text.SplitJoin | src/App.tsx:126-131 | splitting a join of terminator-free fragments gives back the fragments |
| Text.SortStrings | src/utils/jsonUtils.ts:32 | `Array.from(keys).sort()` yields a list strictly sorted in UTF-16 code-unit order, with exactly the keys given, none lost and none added |
| Text.LessIsCodeUnitOrder | src/utils/jsonUtils.ts:32 | the string order used is exactly lexicographic order on the UTF-16 encodings, the order the default sort compares |
| Text.SupplementaryBeforeHalfwidth | src/utils/jsonUtils.ts:32 | U+10000 sorts before U+FF61, although its code point is larger |
| Text.SortedUnique | src/utils/jsonUtils.ts:32 | a strictly sorted list is determined by its elements, so the sort order is the same whatever order the keys were found in |
| Text.DecimalRoundTrip | src/utils/jsonUtils.ts:17 | `i.toString()` gives the decimal digits of `i`, and reading them back gives `i` |
| Text.DecimalInjective | src/utils/jsonUtils.ts:15-19 | distinct array indices give distinct keys |
| DiffMatchPatch.LinesToChars | src/App.tsx:133-136 | line hashing cuts a text into line symbols that concatenate back to the text; each symbol keeps its terminator, and only the last may lack one |
| DiffMatchPatch.CharsToLines | src/App.tsx:137-138 | mapping symbols back to lines keeps every edit's operation and turns the symbol-level source and destination texts into the line texts |
| DiffMatchPatch.DiffLinesReproduces | src/App.tsx:130-138 | under a valid library, the line-level diff reproduces both compared texts |
| DiffMatchPatch.DiffCharsReproduces | src/App.tsx:205-213 | under a valid library, the character diff of a line pair reproduces both lines, whichever cleanup mode is selected, including none |
| App.SplitLines | src/App.tsx:150-152 | the lines of an edit hold no terminator, and there are none exactly when the edit text is empty |
| App.SplitLinesRejoin | src/App.tsx:150-152 | only a final empty fragment is dropped: joining the lines gives the text back, less a final terminator the text ended with |
| App.PushedEqualLinesAll | src/App.tsx:154-167 | the guard that keeps a line when it is non-empty or the edit text holds a terminator never drops a line, so every line of an equal edit is pushed |
| App.Expand | src/App.tsx:141-186 | each side is numbered consecutively from its own counter and holds only `equal` records and records of its own kind; both sides hold the same `equal` lines in the same order; and each side's contents are the lines of the edits it draws from (equal and deleted edits on the original side, equal and inserted edits on the modified side), each edit split on its own, concatenated in script order |
| App.SplitCharDiffs | src/App.tsx:215-229 | the original side gets only equal and delete pieces, and the modified side only equal and insert pieces; the equal pieces are the same on both sides, in order; and each side's pieces spell that side's line |
| App.WalkStep | src/App.tsx:196-268 | every loop iteration keeps both cursors in range, advances at least one of them, and pushes at most one record per side, so the loop terminates |
| App.StepAligned | src/App.tsx:196-268 | when the remaining sides hold the same equal lines, an iteration pushes exactly one record per side in one of the four row shapes: equal/equal, modify/modify, delete/padding or padding/insert. The records it consumes are the pushed ones, unpadded and unpaired |
| App.ReconcileAligned | src/App.tsx:188-269 | the walk yields two sides of equal length in which every row has one of the four shapes, with `modify` on both sides at the same index; removing the padding and undoing the pairing gives back each side's records once each, in order |
| App.ReconcileSpellsLines | src/App.tsx:205-242 | under a valid library, the character diffs of every `modify` record spell that side's line |
| App.StepSpelled | src/App.tsx:205-242 | under a valid library, the records one iteration pushes are spelled by their character diffs |
| App.LinesOfSymbols | src/App.tsx:137-152 | the lines each side of the line-level script lists are the hashed line symbols without their terminators |
| App.SplitLinesOfLines | src/App.tsx:150-152 | cutting a run of whole lines gives each line without its terminator |
| App.ExpandListsLines | src/App.tsx:141-186 | under a valid library, record k of each expanded side is line k+1 of that side's text |
| App.DiffTexts | src/App.tsx:122-276 | the diff of two texts is aligned; each unpadded side is numbered 1, 2, …; under a valid library, it lists exactly the lines of its own text and every modify record's character diffs spell its line |
| App.ComputeDiff | src/App.tsx:82-277 | a parse error is reported exactly when a side fails to parse in JSON mode, and the original side is checked first, with the dialog title and message of that side. The outcome is `identical` exactly when the compared texts are equal. Otherwise the stored result is aligned, lists the lines of both compared texts under a valid library, and its character diffs spell their lines |
| App.ReorderedJsonIdentical | src/App.tsx:86-120 | in JSON mode, two documents that differ only in the order of object properties, at any depth, are reported identical |
| App.IndexedObjectIdentical | src/App.tsx:86-120 | in JSON mode, an array and the object mapping each index string to the element there are reported identical |
| JsonUtils.Traverse | src/utils/jsonUtils.ts:10-29 | the traversal adds to the key set exactly the keys of the value; null and primitives add nothing; the set stays duplicate-free |
| JsonUtils.TraverseElements | src/utils/jsonUtils.ts:15-20 | the array loop adds every index from the cursor on, as a string, and the keys of every element there |
| JsonUtils.TraverseMembers | src/utils/jsonUtils.ts:23-28 | the own-key loop adds every key from the cursor on and the keys of every value there |
| JsonUtils.CollectSortedKeys | src/utils/jsonUtils.ts:7-33 | the result is strictly sorted, hence duplicate-free; it holds exactly the keys found at any depth; a primitive has none |
| JsonUtils.ArrayKeys | src/utils/jsonUtils.ts:15-20 | an array of length n contributes exactly the strings of 0 … n-1, plus the keys of its elements |
| JsonUtils.SafeDeepCopy | src/utils/jsonUtils.ts:42-56 | the copy has no arrays and returns primitives unchanged. An object keeps its keys, `"__proto__"` included. An array becomes an object keyed by its indices. The copy stays free of duplicate keys |
| JsonUtils.CopiedElement | src/utils/jsonUtils.ts:49-52 | member i of an array's copy is the copy of element i, under the key `i.toString()` |
| JsonUtils.CopiedMember | src/utils/jsonUtils.ts:49-52 | member i of an object's copy is the copy of that member's value, under the same key |
| JsonUtils.CopyKeys | src/utils/jsonUtils.ts:42-56 | the copy's objects have between them exactly the keys the traversal collects |
| JsonUtils.CopyArrayFree | src/utils/jsonUtils.ts:42-56 | an array-free value is its own copy |
| JsonUtils.SerialiseCanonical | src/utils/jsonUtils.ts:61-64 | when every object key is in the sorted property list, the filtered stringification equals the reference form, in which each object writes all of its own keys in sorted order |
| JsonUtils.StringifyIsCanonical | src/utils/jsonUtils.ts:61-64 | the global key list never drops a key: the output is the copy written with every object's own keys, each object sorted on its own |
| JsonUtils.CanonicalUpToOrder | src/utils/jsonUtils.ts:61-64 | the reference form does not depend on the order of properties |
| JsonUtils.KeyOrderIndependent | src/utils/jsonUtils.ts:61-64 | values equal up to the order of object properties canonicalise to the same string |
| JsonUtils.NumericKeysSortAsStrings | src/utils/jsonUtils.ts:32 | numeric keys sort as strings: "1", "10", "2" |
| JsonUtils.TwoProperties | src/utils/jsonUtils.ts:61-64 | an object of two primitive properties is written on indented lines, one per property, in key order |
| JsonUtils.ProtoKeyKept | src/utils/jsonUtils.ts:35-56 | a `"__proto__"` key is kept and written like any other key, in sort order |
| JsonUtils.DifferentValuesDiffer | src/utils/jsonUtils.ts:61-64 | two objects of two properties, keys in sort order and a primitive first value, that differ only in the number under the second key canonicalise to different strings |
| JsonUtils.EntryInjective | src/utils/jsonUtils.ts:63 | one key with two different value texts gives two different property lines |
| JsonUtils.BlockLastItem | src/utils/jsonUtils.ts:63 | two indented layouts that have the same first item are equal only if their last items are equal |
| JsonUtils.ArraysWrittenAsObjects | src/utils/jsonUtils.ts:35-56 | every array is written as an object, starting with `{` |
| JsonUtils.ArrayObjectCollision | src/utils/jsonUtils.ts:10-64 | an array and the object mapping each index string to the element there canonicalise to the same string |
| JsonUtils.NullArrayMatchesObject | src/utils/jsonUtils.ts:61-64 | `[null]` and `{"0": null}` canonicalise to the same string |
| JsonUtils.EmptyArrayWrittenAsObject | src/utils/jsonUtils.ts:35-63 | the empty array is written `{}` |
| JsonUtils.EscapeOrdinary | src/utils/jsonUtils.ts:63 | a string of ordinary characters is written unchanged between its quotes |
| CompareDisplay.NumberCell | src/components/CompareDisplay.tsx:88-90 | the number cell is empty exactly when the line number is not positive; otherwise it holds decimal digits that read back as the line number |
| CompareDisplay.CharClass | src/components/CompareDisplay.tsx:110-126 | a piece gets a class exactly for delete on the original side, insert on the modified side, or equal on either side; otherwise it throws `Invalid charDiff type` |
| CompareDisplay.RenderSpans | src/components/CompareDisplay.tsx:73-80 | a line's pieces render exactly when every piece is allowed on that side; the spans keep the pieces' texts, in order |
| CompareDisplay.RenderRows | src/components/CompareDisplay.tsx:31-37 | the rows render exactly when every row renders. Row k pairs original record k with modified record k, one row per original record |
| CompareDisplay.RecordRenders | src/components/CompareDisplay.tsx:48-103 | a record whose character diffs suit its side renders. Its cell has that record's class, number cell, gutter and content. A padding record shows a no-break space, and a non-empty line is shown as it is when its character diffs spell it |
| CompareDisplay.RowLooks | src/components/CompareDisplay.tsx:49-98 | equal rows are unmarked; a modify pair gets `modify-delete`/`modify-insert` with the removed-line mark (the three characters the file holds) and +; a padding record gets `diff-line--empty` and an empty number cell, whatever its kind |
| CompareDisplay.AlignedRenders | src/components/CompareDisplay.tsx:19-40 | an aligned result never reaches the `Invalid charDiff type` throw. Every row renders its two records. When the character diffs spell their lines, every non-empty line is shown as it is |
| CompareDisplay.AlignedView | src/components/CompareDisplay.tsx:19-40 | an aligned result is shown as a table with one row per row of the result |
| CompareDisplay.MisplacedPieceThrows | src/components/CompareDisplay.tsx:73-80 | a record holding a piece of the other side throws `Invalid charDiff type` |

## Left out

- The diff_match_patch algorithms are left out: the longest-common-subsequence
  search, the semantic and efficiency cleanups, `Diff_EditCost` and `Diff_Timeout`.
  They are a foreign library, so the model keeps only the promise that a script
  reproduces its texts.
- `JSON.parse` is a parameter. Its error messages are whatever it returns. The
  model does not check that it yields objects without duplicate keys;
  `ReorderedJsonIdentical` assumes that as a precondition.
- Number formatting inside `JSON.stringify` is not modelled. A number is an opaque
  token written as given.
- The `undefined` input of `stringifyWithSortedKeys` is outside JSON and is not modelled.
- Strings with unpaired surrogates cannot be represented: Dafny characters are
  Unicode scalar values. The program can hold such strings (see the next line),
  and the `\u` escapes `JSON.stringify` writes for them are not modelled.
- DiffMatchPatch.DiffCharsReproduces: `diff_main` works on UTF-16 code units, so
  the character diff of a line pair can split a surrogate pair. "😀" against "😁"
  gives an equal piece holding the lead surrogate, then a deleted and an inserted
  piece each holding one trail surrogate; each goes into its own span and is drawn
  as a replacement glyph. The model's `diffChars` returns strings of whole
  characters, so `App.SplitCharDiffs`, `CompareDisplay.RenderSpans` and
  `CompareDisplay.AlignedRenders` state that the pieces spell the line, which holds
  only of their joined code units in the program.
- DiffMatchPatch.LinesToChars: models the line hashing without its three exceptions.
  First, the library stops adding lines to its table at a cap (40000 lines while
  hashing the first text, 65535 for the second) and turns the rest of that text
  into a single symbol. Second, its line table is a plain object, so a final
  unterminated line `__proto__` is never found again and gets a fresh symbol each
  time: "a\n__proto__" against "b\n__proto__" then shows the shared last line as a
  modify pair. Third, the table looks lines up through its own `hasOwnProperty`
  method. When the original text ends with the unterminated line
  `hasOwnProperty`, that line is stored under the method's name. Hashing the
  modified text then throws a `TypeError`, provided that text is non-empty and the
  texts differ (for example "hasOwnProperty" against "x"). The program then stores
  no result, where `App.ComputeDiff` returns `Compared`. The first two exceptions
  do not affect the end-to-end contracts, because the line-level script is any
  script `Library.Valid` admits. The third one does: `ComputeDiff` is total where
  the program throws. `LinesToChars` and `App.LinesOfSymbols` describe the hashing
  without any of the three.
- App.ComputeDiff: returns `Compared` for every pair of differing texts. The
  program instead throws when the original text ends with the unterminated line
  `hasOwnProperty` and the modified text is non-empty (see the previous line).
- JsonUtils.DifferentValuesDiffer: is stated only for two-property objects that
  differ in one number. No general injectivity holds: `ArrayObjectCollision` shows
  distinct values that canonicalise alike, and a general statement for array-free
  values would need a parser-style proof over the whole layout.
- JsonUtils.ArraysWrittenAsObjects: states only the opening brace, not the full
  layout of an array's index-keyed object, nor the string order of its indices.
- React state, the modal dialogs and their wiring are not modelled; `ComputeDiff`
  returns the dialog's title and message instead of opening it. The same holds
  for the header, the text areas and the settings dialog with its edit-cost
  input guard.
- Collapsible unchanged sections and a trailing-newline row are not implemented in
  src/components/CompareDisplay.tsx, which renders every row, so they are not modelled.
- The placeholder's markup and the header cells are not modelled. `Render(None)`
  is the placeholder.
- CompareDisplay.RenderRows: a row whose modified-side record is missing throws
  in the model, with the message a V8 engine gives when reading a property of
  `undefined`. The exact message is engine-specific.
