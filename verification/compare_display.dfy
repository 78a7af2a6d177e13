/**
 * The side-by-side view of a diff result (`CompareDisplay`, `DiffLine`,
 * `CharDiffSpan`): one row per original-side record, facing the
 * modified-side record at the same index, each cell with a CSS class, a
 * line-number cell, a gutter mark and either the plain line or its
 * character-diff spans. React elements are modelled as plain values; a
 * render that throws is a `Failure` carrying the error message.
 */
module CompareDisplay {
  import opened Wrappers
  import opened Text
  import opened DiffMatchPatch
  import opened App

  /** U+00A0, written in a cell that would otherwise be empty. */
  const NoBreakSpace: string := "\U{00A0}"

  /**
   * The gutter mark of a removed line, as the component file holds it: the
   * three characters U+00E2 U+02C6 U+2019, the UTF-8 bytes of U+2212 read
   * back as Windows-1252. The view shows these three characters.
   */
  const RemovedMark: string := "\U{00E2}\U{02C6}\U{2019}"

  /** The message `CharDiffSpan` throws for a piece it cannot place on its side. */
  const InvalidCharDiff: string := "Invalid charDiff type"

  /** The error a cell raises when its row has no record on the modified side (reading `lineNumber` of `undefined`). */
  const MissingRecord: string := "Cannot read properties of undefined (reading 'lineNumber')"

  /** A character-diff piece as rendered: its CSS class and its text. */
  datatype Span = Span(className: string, text: string)

  /** The text part of a cell: character-diff spans, or one plain text. */
  datatype Content = Pieces(spans: seq<Span>) | Plain(text: string)

  /** One rendered `DiffLine`. */
  datatype Cell = Cell(className: string, number: string, gutter: string, content: Content)

  /** One `diff-row`: the original-side cell and the modified-side cell. */
  datatype Row = Row(original: Cell, modified: Cell)

  /** Without a result, the placeholder; otherwise the rows. */
  datatype View = Placeholder | Table(rows: seq<Row>)

  // ---------------------------------------------------------------------------
  // DiffLine
  // ---------------------------------------------------------------------------

  /** `getLineClass`: a padding record is empty whatever its kind; a modify record's class depends on the side. */
  function LineClass(line: LineDiff, side: Side): string
  {
    if line.lineNumber == NoLine then "diff-line diff-line--empty"
    else
      match line.kind
      case DeleteLine => "diff-line diff-line--delete"
      case InsertLine => "diff-line diff-line--insert"
      case ModifyLine => if side == Original then "diff-line diff-line--modify-delete" else "diff-line diff-line--modify-insert"
      case EqualLine => "diff-line"
  }

  /** The line-number cell: the number in decimal when positive, empty otherwise. */
  function NumberCell(line: LineDiff): (r: string)
    ensures r == "" <==> line.lineNumber <= 0
    ensures line.lineNumber > 0 ==>
      (forall i :: 0 <= i < |r| ==> IsDigit(r[i])) && DigitsValue(r) == line.lineNumber
  {
    if line.lineNumber > 0 then
      DecimalRoundTrip(line.lineNumber);
      Decimal(line.lineNumber)
    else ""
  }

  /**
   * The gutter mark: a minus sign for a removed line, a plus sign for an
   * added one. It looks only at the kind and the side, so a padding record
   * shows the mark of its kind too.
   */
  function Gutter(line: LineDiff, side: Side): string
  {
    if line.kind == DeleteLine || (line.kind == ModifyLine && side == Original) then RemovedMark
    else if line.kind == InsertLine || (line.kind == ModifyLine && side == Modified) then "+"
    else ""
  }

  // ---------------------------------------------------------------------------
  // CharDiffSpan
  // ---------------------------------------------------------------------------

  /** `CharDiffSpan`'s `getClass`: equal pieces become markers; a piece of the other side throws. */
  function CharClass(cd: CharDiff, side: Side): (r: Result<string>)
    ensures r.Success? <==> AllowedOn(cd.kind, side)
    ensures r.Failure? ==> r.error == InvalidCharDiff
  {
    if cd.kind == Delete && side == Original then Result.Success("char-diff char-diff--delete")
    else if cd.kind == Insert && side == Modified then Result.Success("char-diff char-diff--insert")
    else if cd.kind == Equal && side == Original then Result.Success("char-diff char-diff--equal char-diff--insert-marker")
    else if cd.kind == Equal && side == Modified then Result.Success("char-diff char-diff--equal char-diff--delete-marker")
    else
      assert side == Side.Original || side == Side.Modified;
      Result.Failure(InvalidCharDiff)
  }

  /** The text a list of spans shows. */
  function SpansText(spans: seq<Span>): string
  {
    if |spans| == 0 then "" else spans[0].text + SpansText(spans[1..])
  }

  /** The spans of a list of character diffs, in order; the first misplaced piece throws. */
  function RenderSpans(cs: seq<CharDiff>, side: Side): (r: Result<seq<Span>>)
    ensures r.Success? <==> AllAllowedOn(cs, side)
    ensures r.Failure? ==> r.error == InvalidCharDiff
    ensures r.Success? ==> |r.value| == |cs| && SpansText(r.value) == Spelled(cs)
  {
    if |cs| == 0 then Result.Success([])
    else
      match CharClass(cs[0], side)
      case Failure(e) => Result.Failure(e)
      case Success(c) =>
        match RenderSpans(cs[1..], side)
        case Failure(e) =>
          assert !AllAllowedOn(cs[1..], side);
          assert exists k :: 1 <= k < |cs| && !AllowedOn(cs[k].kind, side) by {
            var k :| 0 <= k < |cs[1..]| && !AllowedOn(cs[1..][k].kind, side);
            assert cs[k + 1] == cs[1..][k];
          }
          Result.Failure(e)
        case Success(rest) =>
          assert forall k :: 1 <= k < |cs| ==> cs[k] == cs[1..][k - 1];
          var spans := [Span(c, cs[0].text)] + rest;
          assert spans[1..] == rest;
          Result.Success(spans)
  }

  // ---------------------------------------------------------------------------
  // Cells, rows and the view
  // ---------------------------------------------------------------------------

  /** `renderContent`: a padding record shows a no-break space; spans when there are character diffs; else the line. */
  function RenderContent(line: LineDiff, side: Side): Result<Content>
  {
    if line.lineNumber == NoLine then Result.Success(Plain(NoBreakSpace))
    else if line.charDiffs.Some? && |line.charDiffs.value| > 0 then
      match RenderSpans(line.charDiffs.value, side)
      case Success(spans) => Result.Success(Pieces(spans))
      case Failure(e) => Result.Failure(e)
    else Result.Success(Plain(if line.content == "" then NoBreakSpace else line.content))
  }

  /** The text a cell shows. */
  function Shown(c: Content): string
  {
    match c
    case Pieces(spans) => SpansText(spans)
    case Plain(t) => t
  }

  /** `DiffLine` for a record that is present. */
  function RenderLine(line: LineDiff, side: Side): Result<Cell>
  {
    match RenderContent(line, side)
    case Success(content) => Result.Success(Cell(LineClass(line, side), NumberCell(line), Gutter(line, side), content))
    case Failure(e) => Result.Failure(e)
  }

  /**
   * Row `k`: the original-side record, then the modified-side record at the
   * same index, which must exist.
   */
  function RenderRow(orig: seq<LineDiff>, mod: seq<LineDiff>, k: nat): Result<Row>
    requires k < |orig|
  {
    match RenderLine(orig[k], Original)
    case Failure(e) => Result.Failure(e)
    case Success(a) =>
      if k >= |mod| then Result.Failure(MissingRecord)
      else
        match RenderLine(mod[k], Modified)
        case Failure(e) => Result.Failure(e)
        case Success(b) => Result.Success(Row(a, b))
  }

  /**
   * The rows from index `i` on, one per original-side record, in order;
   * the first row that throws ends the render. Records of the modified
   * side past the original side's length are never shown.
   */
  function RenderRows(orig: seq<LineDiff>, mod: seq<LineDiff>, i: nat): (r: Result<seq<Row>>)
    requires i <= |orig|
    ensures r.Success? <==> forall k :: i <= k < |orig| ==> RenderRow(orig, mod, k).Success?
    ensures r.Success? ==> |r.value| == |orig| - i
    ensures r.Success? ==> forall k :: i <= k < |orig| ==> r.value[k - i] == RenderRow(orig, mod, k).value
    decreases |orig| - i
  {
    if i == |orig| then Result.Success([])
    else
      var row := RenderRow(orig, mod, i);
      if row.Failure? then Result.Failure(row.error)
      else
        var rest := RenderRows(orig, mod, i + 1);
        if rest.Failure? then Result.Failure(rest.error)
        else
          var rows := [row.value] + rest.value;
          assert forall j :: 1 <= j < |rows| ==> rows[j] == rest.value[j - 1];
          Result.Success(rows)
  }

  /** `CompareDisplay`. */
  function Render(result: Option<DiffResult>): Result<View>
  {
    match result
    case None => Result.Success(Placeholder)
    case Some(r) =>
      match RenderRows(r.originalLines, r.modifiedLines, 0)
      case Success(rows) => Result.Success(Table(rows))
      case Failure(e) => Result.Failure(e)
  }

  // ---------------------------------------------------------------------------
  // Properties
  // ---------------------------------------------------------------------------

  /** What a rendered record looks like, given that it renders. */
  predicate CellOf(c: Cell, line: LineDiff, side: Side)
  {
    && c.className == LineClass(line, side)
    && c.number == NumberCell(line)
    && c.gutter == Gutter(line, side)
    && RenderContent(line, side) == Result.Success(c.content)
  }

  /**
   * A record the walk produced renders, and shows its own line: the
   * character-diff spans of a modify record spell the line, and an empty
   * line shows as a no-break space or as nothing at all.
   */
  lemma RecordRenders(line: LineDiff, side: Side)
    requires line.charDiffs.Some? ==> AllAllowedOn(line.charDiffs.value, side)
    ensures RenderLine(line, side).Success?
    ensures CellOf(RenderLine(line, side).value, line, side)
    ensures line.lineNumber == NoLine ==> Shown(RenderLine(line, side).value.content) == NoBreakSpace
    ensures line.lineNumber != NoLine && line.content != "" && (line.charDiffs.Some? ==> Spelled(line.charDiffs.value) == line.content)
      ==> Shown(RenderLine(line, side).value.content) == line.content
  {
    if line.lineNumber != NoLine && line.charDiffs.Some? && |line.charDiffs.value| > 0 {
      var spans := RenderSpans(line.charDiffs.value, side);
      assert spans.Success?;
    }
  }

  /**
   * The four row shapes look as intended: equal rows unmarked, a modify
   * pair marked as a removal facing an addition, and a removed or added
   * line facing an empty cell.
   */
  lemma RowLooks(a: LineDiff, b: LineDiff)
    requires RowShape(a, b)
    ensures a.kind == EqualLine ==>
      && LineClass(a, Original) == "diff-line" && LineClass(b, Modified) == "diff-line"
      && Gutter(a, Original) == "" && Gutter(b, Modified) == ""
    ensures a.kind == ModifyLine ==>
      && LineClass(a, Original) == "diff-line diff-line--modify-delete"
      && LineClass(b, Modified) == "diff-line diff-line--modify-insert"
      && Gutter(a, Original) == RemovedMark && Gutter(b, Modified) == "+"
    ensures b == Padding(InsertLine) ==>
      && LineClass(a, Original) == "diff-line diff-line--delete"
      && LineClass(b, Modified) == "diff-line diff-line--empty"
      && NumberCell(b) == "" && Gutter(a, Original) == RemovedMark
    ensures a == Padding(DeleteLine) ==>
      && LineClass(a, Original) == "diff-line diff-line--empty"
      && LineClass(b, Modified) == "diff-line diff-line--insert"
      && NumberCell(a) == "" && Gutter(b, Modified) == "+"
    ensures NumberCell(a) == "" <==> a.lineNumber == NoLine
    ensures NumberCell(b) == "" <==> b.lineNumber == NoLine
  {
  }

  /**
   * An aligned result renders without throwing, one row per row of the
   * result, each cell showing its own record; when the character diffs
   * spell their lines, every non-empty line is shown as it is.
   */
  lemma AlignedRenders(r: DiffResult)
    requires Aligned(r)
    ensures var rows := RenderRows(r.originalLines, r.modifiedLines, 0);
      && rows.Success?
      && forall k :: 0 <= k < |rows.value| ==>
           && CellOf(rows.value[k].original, r.originalLines[k], Original)
           && CellOf(rows.value[k].modified, r.modifiedLines[k], Modified)
    ensures var rows := RenderRows(r.originalLines, r.modifiedLines, 0);
      CharDiffsSpellLines(r) ==> forall k :: 0 <= k < |rows.value| ==>
        && (r.originalLines[k].lineNumber != NoLine && r.originalLines[k].content != "" ==>
              Shown(rows.value[k].original.content) == r.originalLines[k].content)
        && (r.modifiedLines[k].lineNumber != NoLine && r.modifiedLines[k].content != "" ==>
              Shown(rows.value[k].modified.content) == r.modifiedLines[k].content)
  {
    forall k | 0 <= k < |r.originalLines|
      ensures RenderRow(r.originalLines, r.modifiedLines, k)
        == Result.Success(Row(RenderLine(r.originalLines[k], Original).value, RenderLine(r.modifiedLines[k], Modified).value))
      ensures CellOf(RenderLine(r.originalLines[k], Original).value, r.originalLines[k], Original)
      ensures CellOf(RenderLine(r.modifiedLines[k], Modified).value, r.modifiedLines[k], Modified)
      ensures CharDiffsSpellLines(r) && r.originalLines[k].lineNumber != NoLine && r.originalLines[k].content != "" ==>
        Shown(RenderLine(r.originalLines[k], Original).value.content) == r.originalLines[k].content
      ensures CharDiffsSpellLines(r) && r.modifiedLines[k].lineNumber != NoLine && r.modifiedLines[k].content != "" ==>
        Shown(RenderLine(r.modifiedLines[k], Modified).value.content) == r.modifiedLines[k].content
    {
      assert RowShape(r.originalLines[k], r.modifiedLines[k]);
      RecordRenders(r.originalLines[k], Original);
      RecordRenders(r.modifiedLines[k], Modified);
    }
  }

  /** The view of an aligned result is a table with one row per row of the result. */
  lemma AlignedView(r: DiffResult)
    requires Aligned(r)
    ensures Render(Some(r)).Success? && Render(Some(r)).value.Table?
    ensures |Render(Some(r)).value.rows| == |r.originalLines|
  {
    AlignedRenders(r);
  }

  /** A modify record whose character diffs hold a piece of the other side throws. */
  lemma MisplacedPieceThrows(line: LineDiff, side: Side)
    requires line.lineNumber != NoLine && line.charDiffs.Some?
    requires exists k :: 0 <= k < |line.charDiffs.value| && !AllowedOn(line.charDiffs.value[k].kind, side)
    ensures RenderLine(line, side) == Result.Failure(InvalidCharDiff)
  {
  }
}
