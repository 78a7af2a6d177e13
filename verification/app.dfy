/**
 * The comparison pipeline of the application (`computeDiff`): the identity
 * check, the expansion of a line-level edit script into numbered per-side
 * line records, and the two-cursor walk that pairs those records into aligned
 * rows, turning a deleted line facing an inserted line into a `modify` pair
 * that carries a character-level diff split per side.
 */
module App {
  import opened Wrappers
  import opened Text
  import opened DiffMatchPatch
  import JsonUtils

  // ---------------------------------------------------------------------------
  // Records
  // ---------------------------------------------------------------------------

  /** `LineDiff.type`. */
  datatype LineType = EqualLine | DeleteLine | InsertLine | ModifyLine

  /** `CharDiff`: one piece of a modified line and how it changed. */
  datatype CharDiff = CharDiff(kind: Op, text: string)

  /** `LineDiff`: one row cell; `lineNumber` is 1-based, or `NoLine` on a padding row. */
  datatype LineDiff = LineDiff(lineNumber: int, kind: LineType, content: string, charDiffs: Option<seq<CharDiff>>)

  /** `DiffResult`: the two sides, row i of one facing row i of the other. */
  datatype DiffResult = DiffResult(originalLines: seq<LineDiff>, modifiedLines: seq<LineDiff>)

  /** Which of the two texts a record, a row cell or a parse error belongs to. */
  datatype Side = Original | Modified

  /** The line number `computeDiff` gives a padding record. */
  const NoLine: int := -1

  /** A padding record: no line on this side of the row. */
  function Padding(kind: LineType): LineDiff
  {
    LineDiff(NoLine, kind, "", None)
  }

  // ---------------------------------------------------------------------------
  // Line expansion
  // ---------------------------------------------------------------------------

  lemma {:induction false} JoinSnoc(parts: seq<string>, x: string)
    requires |parts| >= 1
    ensures Join(parts + [x]) == Join(parts) + "\n" + x
  {
    var p := parts + [x];
    assert p[0] == parts[0];
    if |parts| > 1 {
      assert p[1..] == parts[1..] + [x];
      JoinSnoc(parts[1..], x);
      assert Join(p) == parts[0] + "\n" + (Join(parts[1..]) + "\n" + x);
      assert Join(parts) == parts[0] + "\n" + Join(parts[1..]);
    } else {
      assert p[1..] == [x];
      assert Join(p) == parts[0] + "\n" + x;
    }
  }

  /** Text ending with a terminator, or empty, is exactly the text whose last fragment is empty. */
  lemma LastFragmentEmpty(text: string)
    ensures var f := Split(text);
      f[|f| - 1] == "" <==> (|text| == 0 || text[|text| - 1] == '\n')
  {
    var f := Split(text);
    JoinSplit(text);
    if |f| == 1 {
      assert text == f[0];
    } else {
      var init := f[..|f| - 1];
      assert f == init + [f[|f| - 1]];
      JoinSnoc(init, f[|f| - 1]);
      assert text == Join(init) + "\n" + f[|f| - 1];
      if f[|f| - 1] != "" {
        assert text[|text| - 1] == f[|f| - 1][|f[|f| - 1]| - 1];
        assert f[|f| - 1][|f[|f| - 1]| - 1] in f[|f| - 1];
      }
    }
  }

  /**
   * The lines of one edit's text: `text.split('\n')` with an empty last fragment
   * dropped; empty fragments before it are kept.
   */
  function SplitLines(text: string): (r: seq<string>)
    ensures forall k :: 0 <= k < |r| ==> '\n' !in r[k]
    ensures |r| == 0 <==> |text| == 0
  {
    var f := Split(text);
    LastFragmentEmpty(text);
    if f[|f| - 1] == "" then f[..|f| - 1] else f
  }

  /** Joining the lines back, and restoring a final terminator the text had, gives the text. */
  lemma SplitLinesRejoin(text: string)
    ensures |text| > 0 && text[|text| - 1] == '\n' ==> Join(SplitLines(text)) + "\n" == text
    ensures |text| > 0 && text[|text| - 1] != '\n' ==> Join(SplitLines(text)) == text
  {
    var f := Split(text);
    JoinSplit(text);
    LastFragmentEmpty(text);
    if f[|f| - 1] == "" && |f| > 1 {
      var r := f[..|f| - 1];
      assert f == r + [""];
      JoinSnoc(r, "");
    }
  }

  /** Record k of the result is line `lines[k]` numbered `first + k`. */
  function Numbered(lines: seq<string>, first: int, kind: LineType): seq<LineDiff>
  {
    seq(|lines|, k requires 0 <= k < |lines| => LineDiff(first + k, kind, lines[k], None))
  }

  /** The lines of an equal edit that are pushed: `line !== '' || text.includes('\n')`. */
  function PushedEqualLines(lines: seq<string>, text: string): seq<string>
  {
    if |lines| == 0 then []
    else (if lines[0] != "" || '\n' in text then [lines[0]] else []) + PushedEqualLines(lines[1..], text)
  }

  /** The contents of the `equal` records of a side, in order. */
  function EqualContents(ls: seq<LineDiff>): seq<string>
  {
    if |ls| == 0 then []
    else (if ls[0].kind == EqualLine then [ls[0].content] else []) + EqualContents(ls[1..])
  }

  lemma EqualContentsAppend(a: seq<LineDiff>, b: seq<LineDiff>)
    ensures EqualContents(a + b) == EqualContents(a) + EqualContents(b)
  {
    if |a| > 0 {
      assert (a + b)[1..] == a[1..] + b;
      EqualContentsAppend(a[1..], b);
    } else {
      assert a + b == b;
    }
  }

  lemma EqualContentsNumbered(lines: seq<string>, first: int, kind: LineType)
    ensures EqualContents(Numbered(lines, first, kind)) == if kind == EqualLine then lines else []
  {
    if |lines| > 0 {
      var r := Numbered(lines, first, kind);
      assert r[1..] == Numbered(lines[1..], first + 1, kind);
      EqualContentsNumbered(lines[1..], first + 1, kind);
      assert lines == [lines[0]] + lines[1..];
    }
  }

  /** A side as the expansion builds it: consecutive numbers from `first`, kinds of that side only. */
  predicate SideShape(ls: seq<LineDiff>, first: int, side: Side)
  {
    forall k :: 0 <= k < |ls| ==>
      && ls[k].lineNumber == first + k
      && ls[k].charDiffs == None
      && (ls[k].kind == EqualLine || ls[k].kind == (if side == Original then DeleteLine else InsertLine))
  }

  lemma SideShapeAppend(a: seq<LineDiff>, b: seq<LineDiff>, first: int, side: Side)
    requires SideShape(a, first, side) && SideShape(b, first + |a|, side)
    ensures SideShape(a + b, first, side)
  {
    forall k | |a| <= k < |a + b| ensures (a + b)[k] == b[k - |a|] { }
  }

  /** Numbered lines placed before the rest of a side keep its shape and lead its contents. */
  lemma NumberedBefore(lines: seq<string>, first: int, kind: LineType, side: Side, rest: seq<LineDiff>)
    requires kind == EqualLine || kind == (if side == Original then DeleteLine else InsertLine)
    requires SideShape(rest, first + |lines|, side)
    ensures SideShape(Numbered(lines, first, kind) + rest, first, side)
    ensures EqualContents(Numbered(lines, first, kind) + rest)
      == (if kind == EqualLine then lines else []) + EqualContents(rest)
    ensures Contents(Numbered(lines, first, kind) + rest) == lines + Contents(rest)
  {
    var o := Numbered(lines, first, kind);
    SideShapeAppend(o, rest, first, side);
    EqualContentsAppend(o, rest);
    EqualContentsNumbered(lines, first, kind);
    ContentsAppend(o, rest);
    ContentsNumbered(lines, first, kind);
  }

  /**
   * The loop over the line-level edits: equal lines go to both sides, deleted
   * lines to the original side, inserted lines to the modified side, each side
   * numbering its records from its own counter.
   */
  function Expand(ds: seq<Diff>, origNext: int, modNext: int): (r: DiffResult)
    ensures SideShape(r.originalLines, origNext, Original)
    ensures SideShape(r.modifiedLines, modNext, Modified)
    ensures EqualContents(r.originalLines) == EqualContents(r.modifiedLines)
    ensures Contents(r.originalLines) == LinesOf1(ds) && Contents(r.modifiedLines) == LinesOf2(ds)
  {
    if |ds| == 0 then DiffResult([], [])
    else
      var text := ds[0].text;
      var lines := SplitLines(text);
      match ds[0].op
      case Equal =>
        var pushed := PushedEqualLines(lines, text);
        PushedEqualLinesAll(text);
        var rest := Expand(ds[1..], origNext + |pushed|, modNext + |pushed|);
        NumberedBefore(pushed, origNext, EqualLine, Original, rest.originalLines);
        NumberedBefore(pushed, modNext, EqualLine, Modified, rest.modifiedLines);
        DiffResult(Numbered(pushed, origNext, EqualLine) + rest.originalLines,
                   Numbered(pushed, modNext, EqualLine) + rest.modifiedLines)
      case Delete =>
        var rest := Expand(ds[1..], origNext + |lines|, modNext);
        NumberedBefore(lines, origNext, DeleteLine, Original, rest.originalLines);
        DiffResult(Numbered(lines, origNext, DeleteLine) + rest.originalLines, rest.modifiedLines)
      case Insert =>
        var rest := Expand(ds[1..], origNext, modNext + |lines|);
        NumberedBefore(lines, modNext, InsertLine, Modified, rest.modifiedLines);
        DiffResult(rest.originalLines, Numbered(lines, modNext, InsertLine) + rest.modifiedLines)
  }

  // ---------------------------------------------------------------------------
  // Character diffs of a modify pair
  // ---------------------------------------------------------------------------

  /** The kinds of character diff a side may show: deletions only on the original side, insertions only on the modified side. */
  predicate AllowedOn(kind: Op, side: Side)
  {
    kind == Equal || (kind == Delete && side == Original) || (kind == Insert && side == Modified)
  }

  predicate AllAllowedOn(cs: seq<CharDiff>, side: Side)
  {
    forall k :: 0 <= k < |cs| ==> AllowedOn(cs[k].kind, side)
  }

  /** The `equal` pieces of a character-diff list, in order. */
  function EqualPieces(cs: seq<CharDiff>): seq<string>
  {
    if |cs| == 0 then []
    else (if cs[0].kind == Equal then [cs[0].text] else []) + EqualPieces(cs[1..])
  }

  /** The text a character-diff list spells out. */
  function Spelled(cs: seq<CharDiff>): string
  {
    if |cs| == 0 then "" else cs[0].text + Spelled(cs[1..])
  }

  /**
   * Distributes a character-level script over the two sides: equal pieces go
   * to both, deleted pieces to the original side, inserted ones to the modified side.
   */
  function SplitCharDiffs(ds: seq<Diff>): (r: (seq<CharDiff>, seq<CharDiff>))
    ensures AllAllowedOn(r.0, Original) && AllAllowedOn(r.1, Modified)
    ensures EqualPieces(r.0) == EqualPieces(r.1)
    ensures Spelled(r.0) == Text1(ds) && Spelled(r.1) == Text2(ds)
  {
    if |ds| == 0 then ([], [])
    else
      var rest := SplitCharDiffs(ds[1..]);
      var d := ds[0];
      match d.op
      case Equal =>
        var r := ([CharDiff(Equal, d.text)] + rest.0, [CharDiff(Equal, d.text)] + rest.1);
        assert r.0[1..] == rest.0 && r.1[1..] == rest.1;
        r
      case Delete =>
        var r := ([CharDiff(Delete, d.text)] + rest.0, rest.1);
        assert r.0[1..] == rest.0;
        r
      case Insert =>
        var r := (rest.0, [CharDiff(Insert, d.text)] + rest.1);
        assert r.1[1..] == rest.1;
        r
  }

  // ---------------------------------------------------------------------------
  // Two-cursor reconciliation
  // ---------------------------------------------------------------------------

  /** `resultOriginal[origIdx]`: the record under a cursor, absent past the end. */
  function At(ls: seq<LineDiff>, i: nat): Option<LineDiff>
  {
    if i < |ls| then Some(ls[i]) else None
  }

  /** `line?.type === kind`. */
  predicate HasKind(line: Option<LineDiff>, kind: LineType)
  {
    line.Some? && line.value.kind == kind
  }

  function Prepend(a: seq<LineDiff>, b: seq<LineDiff>, rest: DiffResult): DiffResult
  {
    DiffResult(a + rest.originalLines, b + rest.modifiedLines)
  }

  /** One iteration of the walk: the records it pushes on each side and the cursors after it. */
  datatype Step = Step(pushedOriginal: seq<LineDiff>, pushedModified: seq<LineDiff>, nextI: nat, nextJ: nat)

  /**
   * The body of the `while` loop at cursors `i` and `j`, not both at the end.
   * Every iteration advances at least one cursor, so the loop terminates.
   */
  function WalkStep(orig: seq<LineDiff>, mod: seq<LineDiff>, i: nat, j: nat,
                    lib: Library, mode: CleanupMode, editCost: real): (s: Step)
    requires i <= |orig| && j <= |mod| && (i < |orig| || j < |mod|)
    ensures i <= s.nextI <= |orig| && j <= s.nextJ <= |mod|
    ensures s.nextI + s.nextJ > i + j
    ensures |s.pushedOriginal| <= 1 && |s.pushedModified| <= 1
  {
    var o := At(orig, i);
    var m := At(mod, j);
    if HasKind(o, EqualLine) && HasKind(m, EqualLine) then
      Step([orig[i]], [mod[j]], i + 1, j + 1)
    else if HasKind(o, DeleteLine) && HasKind(m, InsertLine) then
      var split := SplitCharDiffs(DiffChars(lib, mode, editCost, orig[i].content, mod[j].content));
      Step([orig[i].(kind := ModifyLine, charDiffs := Some(split.0))],
           [mod[j].(kind := ModifyLine, charDiffs := Some(split.1))],
           i + 1, j + 1)
    else if HasKind(o, DeleteLine) then
      Step([orig[i]], [Padding(InsertLine)], i + 1, j)
    else if HasKind(m, InsertLine) then
      Step([Padding(DeleteLine)], [mod[j]], i, j + 1)
    else
      var a := if i < |orig| then [orig[i]] else [];
      var b := if j < |mod| then [mod[j]] else [];
      Step(a, b, i + |a|, j + |b|)
  }

  /** The walk from cursors `i` and `j` to the end of both sides. */
  function Reconcile(orig: seq<LineDiff>, mod: seq<LineDiff>, i: nat, j: nat,
                     lib: Library, mode: CleanupMode, editCost: real): DiffResult
    requires i <= |orig| && j <= |mod|
    decreases |orig| - i + |mod| - j
  {
    if i == |orig| && j == |mod| then DiffResult([], [])
    else
      var s := WalkStep(orig, mod, i, j, lib, mode, editCost);
      Prepend(s.pushedOriginal, s.pushedModified, Reconcile(orig, mod, s.nextI, s.nextJ, lib, mode, editCost))
  }

  /** The four shapes a reconciled row can take. */
  predicate RowShape(a: LineDiff, b: LineDiff)
  {
    || (a.kind == EqualLine && b.kind == EqualLine && a.lineNumber > 0 && b.lineNumber > 0
        && a.content == b.content && a.charDiffs == None && b.charDiffs == None)
    || (a.kind == ModifyLine && b.kind == ModifyLine && a.lineNumber > 0 && b.lineNumber > 0
        && a.charDiffs.Some? && b.charDiffs.Some?
        && AllAllowedOn(a.charDiffs.value, Original) && AllAllowedOn(b.charDiffs.value, Modified)
        && EqualPieces(a.charDiffs.value) == EqualPieces(b.charDiffs.value))
    || (a.kind == DeleteLine && a.lineNumber > 0 && a.charDiffs == None && b == Padding(InsertLine))
    || (a == Padding(DeleteLine) && b.kind == InsertLine && b.lineNumber > 0 && b.charDiffs == None)
  }

  /** Both sides have the same length and every row has one of the four shapes. */
  predicate Aligned(r: DiffResult)
  {
    && |r.originalLines| == |r.modifiedLines|
    && forall k :: 0 <= k < |r.originalLines| ==> RowShape(r.originalLines[k], r.modifiedLines[k])
  }

  /** Every modify record of a side carries character diffs that spell its line. */
  predicate SideSpelled(ls: seq<LineDiff>)
  {
    forall k :: 0 <= k < |ls| && ls[k].kind == ModifyLine ==>
      ls[k].charDiffs.Some? && Spelled(ls[k].charDiffs.value) == ls[k].content
  }

  /** On both sides, every modify record's character diffs spell that side's line. */
  predicate CharDiffsSpellLines(r: DiffResult)
  {
    SideSpelled(r.originalLines) && SideSpelled(r.modifiedLines)
  }

  /** A record before pairing: a modify record goes back to the kind it had on its side. */
  function Unpair(l: LineDiff, side: Side): LineDiff
  {
    if l.kind == ModifyLine then
      l.(kind := if side == Original then DeleteLine else InsertLine, charDiffs := None)
    else l
  }

  /** A side's records with its padding rows removed and its modify records unpaired. */
  function Unpadded(ls: seq<LineDiff>, side: Side): seq<LineDiff>
  {
    if |ls| == 0 then []
    else (if ls[0].lineNumber == NoLine then [] else [Unpair(ls[0], side)]) + Unpadded(ls[1..], side)
  }

  lemma UnpaddedCons(l: LineDiff, ls: seq<LineDiff>, side: Side)
    ensures Unpadded([l] + ls, side) == (if l.lineNumber == NoLine then [] else [Unpair(l, side)]) + Unpadded(ls, side)
  {
    assert ([l] + ls)[1..] == ls;
  }

  /** A side as the expansion hands it to the walk: positive numbers, no character diffs, kinds of that side. */
  predicate Expanded(ls: seq<LineDiff>, side: Side)
  {
    forall k :: 0 <= k < |ls| ==>
      && ls[k].lineNumber > 0
      && ls[k].charDiffs == None
      && (ls[k].kind == EqualLine || ls[k].kind == (if side == Original then DeleteLine else InsertLine))
  }

  lemma EqualContentsCons(l: LineDiff, ls: seq<LineDiff>)
    ensures EqualContents([l] + ls) == (if l.kind == EqualLine then [l.content] else []) + EqualContents(ls)
  {
    assert ([l] + ls)[1..] == ls;
  }

  lemma AlignedCons(a: LineDiff, b: LineDiff, rest: DiffResult)
    requires RowShape(a, b) && Aligned(rest)
    ensures Aligned(Prepend([a], [b], rest))
  {
    var r := Prepend([a], [b], rest);
    forall k | 0 < k < |r.originalLines|
      ensures r.originalLines[k] == rest.originalLines[k - 1] && r.modifiedLines[k] == rest.modifiedLines[k - 1]
    { }
  }

  /**
   * From cursors whose remaining sides hold the same equal lines, the walk
   * produces aligned rows and hands every record of each side through exactly
   * once, in order.
   */
  lemma {:induction false} ReconcileAligned(orig: seq<LineDiff>, mod: seq<LineDiff>, i: nat, j: nat,
                                           lib: Library, mode: CleanupMode, editCost: real)
    requires i <= |orig| && j <= |mod|
    requires Expanded(orig, Original) && Expanded(mod, Modified)
    requires EqualContents(orig[i..]) == EqualContents(mod[j..])
    ensures var r := Reconcile(orig, mod, i, j, lib, mode, editCost);
      && Aligned(r)
      && Unpadded(r.originalLines, Original) == orig[i..]
      && Unpadded(r.modifiedLines, Modified) == mod[j..]
    decreases |orig| - i + |mod| - j
  {
    if i == |orig| && j == |mod| {
      return;
    }
    var s := WalkStep(orig, mod, i, j, lib, mode, editCost);
    StepAligned(orig, mod, i, j, lib, mode, editCost);
    var a := s.pushedOriginal[0];
    var b := s.pushedModified[0];
    var rest := Reconcile(orig, mod, s.nextI, s.nextJ, lib, mode, editCost);
    ReconcileAligned(orig, mod, s.nextI, s.nextJ, lib, mode, editCost);
    Singleton(s.pushedOriginal);
    Singleton(s.pushedModified);
    AlignedCons(a, b, rest);
    UnpaddedCons(a, rest.originalLines, Original);
    UnpaddedCons(b, rest.modifiedLines, Modified);
    SuffixSplit(orig, i, s.nextI);
    SuffixSplit(mod, j, s.nextJ);
  }

  lemma Singleton<T>(s: seq<T>)
    requires |s| == 1
    ensures s == [s[0]]
  {
  }

  lemma SuffixSplit<T>(s: seq<T>, i: nat, k: nat)
    requires i <= k <= |s|
    ensures s[i..] == s[i..k] + s[k..]
  {
  }

  /**
   * From cursors whose remaining sides hold the same equal lines, one
   * iteration pushes one record on each side, forming one of the four row
   * shapes; the records it consumes are the unpadded, unpaired pushed ones;
   * and the remaining sides still hold the same equal lines.
   */
  lemma StepAligned(orig: seq<LineDiff>, mod: seq<LineDiff>, i: nat, j: nat,
                    lib: Library, mode: CleanupMode, editCost: real)
    requires i <= |orig| && j <= |mod| && (i < |orig| || j < |mod|)
    requires Expanded(orig, Original) && Expanded(mod, Modified)
    requires EqualContents(orig[i..]) == EqualContents(mod[j..])
    ensures var s := WalkStep(orig, mod, i, j, lib, mode, editCost);
      && |s.pushedOriginal| == 1 && |s.pushedModified| == 1
      && RowShape(s.pushedOriginal[0], s.pushedModified[0])
      && (if s.pushedOriginal[0].lineNumber == NoLine then [] else [Unpair(s.pushedOriginal[0], Original)]) == orig[i..s.nextI]
      && (if s.pushedModified[0].lineNumber == NoLine then [] else [Unpair(s.pushedModified[0], Modified)]) == mod[j..s.nextJ]
      && EqualContents(orig[s.nextI..]) == EqualContents(mod[s.nextJ..])
  {
    if i < |orig| {
      assert orig[i..] == [orig[i]] + orig[i + 1..];
      EqualContentsCons(orig[i], orig[i + 1..]);
    }
    if j < |mod| {
      assert mod[j..] == [mod[j]] + mod[j + 1..];
      EqualContentsCons(mod[j], mod[j + 1..]);
    }
    var o := At(orig, i);
    var m := At(mod, j);
    // The fall-through branch of the walk is unreachable: an equal record on one
    // side always faces an equal record on the other.
    assert HasKind(o, EqualLine) ==> j < |mod|;
    assert HasKind(m, EqualLine) ==> i < |orig|;
    if HasKind(o, EqualLine) && HasKind(m, EqualLine) {
      assert EqualContents(orig[i + 1..]) == EqualContents(orig[i..])[1..];
      assert EqualContents(mod[j + 1..]) == EqualContents(mod[j..])[1..];
      assert orig[i..i + 1] == [orig[i]] && mod[j..j + 1] == [mod[j]];
    } else if HasKind(o, DeleteLine) && HasKind(m, InsertLine) {
      assert EqualContents(orig[i + 1..]) == EqualContents(orig[i..]);
      assert EqualContents(mod[j + 1..]) == EqualContents(mod[j..]);
      assert orig[i..i + 1] == [orig[i]] && mod[j..j + 1] == [mod[j]];
    } else if HasKind(o, DeleteLine) {
      assert EqualContents(orig[i + 1..]) == EqualContents(orig[i..]);
      assert orig[i..i + 1] == [orig[i]] && mod[j..j] == [];
    } else if HasKind(m, InsertLine) {
      assert EqualContents(mod[j + 1..]) == EqualContents(mod[j..]);
      assert mod[j..j + 1] == [mod[j]] && orig[i..i] == [];
    } else {
      assert false;
    }
  }

  lemma SideSpelledAppend(a: seq<LineDiff>, b: seq<LineDiff>)
    requires SideSpelled(a) && SideSpelled(b)
    ensures SideSpelled(a + b)
  {
    forall k | |a| <= k < |a + b| ensures (a + b)[k] == b[k - |a|] { }
  }

  /** Under a valid library, every modify record's character diffs spell its line. */
  lemma {:induction false} ReconcileSpellsLines(orig: seq<LineDiff>, mod: seq<LineDiff>, i: nat, j: nat,
                                               lib: Library, mode: CleanupMode, editCost: real)
    requires i <= |orig| && j <= |mod|
    requires Expanded(orig, Original) && Expanded(mod, Modified)
    requires lib.Valid()
    ensures CharDiffsSpellLines(Reconcile(orig, mod, i, j, lib, mode, editCost))
    decreases |orig| - i + |mod| - j
  {
    if i == |orig| && j == |mod| {
      return;
    }
    var s := WalkStep(orig, mod, i, j, lib, mode, editCost);
    var rest := Reconcile(orig, mod, s.nextI, s.nextJ, lib, mode, editCost);
    StepSpelled(orig, mod, i, j, lib, mode, editCost);
    ReconcileSpellsLines(orig, mod, s.nextI, s.nextJ, lib, mode, editCost);
    SideSpelledAppend(s.pushedOriginal, rest.originalLines);
    SideSpelledAppend(s.pushedModified, rest.modifiedLines);
  }

  /** Under a valid library, the records one iteration pushes are spelled. */
  lemma StepSpelled(orig: seq<LineDiff>, mod: seq<LineDiff>, i: nat, j: nat,
                    lib: Library, mode: CleanupMode, editCost: real)
    requires i <= |orig| && j <= |mod| && (i < |orig| || j < |mod|)
    requires Expanded(orig, Original) && Expanded(mod, Modified)
    requires lib.Valid()
    ensures var s := WalkStep(orig, mod, i, j, lib, mode, editCost);
      SideSpelled(s.pushedOriginal) && SideSpelled(s.pushedModified)
  {
    if HasKind(At(orig, i), DeleteLine) && HasKind(At(mod, j), InsertLine) {
      DiffCharsReproduces(lib, mode, editCost, orig[i].content, mod[j].content);
    }
  }

  // ---------------------------------------------------------------------------
  // The diff of two texts, and the lines each side lists
  // ---------------------------------------------------------------------------

  /** Record k of a side is line k + 1 of `text`. */
  predicate ListsLines(ls: seq<LineDiff>, text: string)
  {
    && |ls| == |SplitLines(text)|
    && forall k :: 0 <= k < |ls| ==> ls[k].lineNumber == k + 1 && ls[k].content == SplitLines(text)[k]
  }

  /**
   * The diff of two texts that differ: split and re-join on the terminator,
   * take the line-level script, expand it with both counters at 1, then walk it.
   */
  function DiffTexts(text1: string, text2: string, lib: Library, mode: CleanupMode, editCost: real): (r: DiffResult)
    ensures Aligned(r)
    ensures forall k :: 0 <= k < |Unpadded(r.originalLines, Original)| ==>
      Unpadded(r.originalLines, Original)[k].lineNumber == k + 1
    ensures forall k :: 0 <= k < |Unpadded(r.modifiedLines, Modified)| ==>
      Unpadded(r.modifiedLines, Modified)[k].lineNumber == k + 1
    ensures lib.Valid() ==> ListsLines(Unpadded(r.originalLines, Original), text1)
    ensures lib.Valid() ==> ListsLines(Unpadded(r.modifiedLines, Modified), text2)
    ensures lib.Valid() ==> CharDiffsSpellLines(r)
  {
    var lineText1 := Join(Split(text1));
    var lineText2 := Join(Split(text2));
    JoinSplit(text1);
    JoinSplit(text2);
    var expanded := Expand(DiffLines(lib, lineText1, lineText2), 1, 1);
    var r := Reconcile(expanded.originalLines, expanded.modifiedLines, 0, 0, lib, mode, editCost);
    assert Aligned(r) && Unpadded(r.originalLines, Original) == expanded.originalLines
      && Unpadded(r.modifiedLines, Modified) == expanded.modifiedLines by {
      assert expanded.originalLines[0..] == expanded.originalLines;
      assert expanded.modifiedLines[0..] == expanded.modifiedLines;
      ReconcileAligned(expanded.originalLines, expanded.modifiedLines, 0, 0, lib, mode, editCost);
    }
    assert lib.Valid() ==> CharDiffsSpellLines(r) by {
      if lib.Valid() {
        ReconcileSpellsLines(expanded.originalLines, expanded.modifiedLines, 0, 0, lib, mode, editCost);
      }
    }
    assert lib.Valid() ==> (ListsLines(expanded.originalLines, text1) && ListsLines(expanded.modifiedLines, text2)) by {
      if lib.Valid() {
        ExpandListsLines(lib, text1, text2);
      }
    }
    r
  }

  /** Under a valid library, the expansion lists every line of both texts on its side. */
  lemma ExpandListsLines(lib: Library, text1: string, text2: string)
    requires lib.Valid()
    ensures var e := Expand(DiffLines(lib, text1, text2), 1, 1);
      ListsLines(e.originalLines, text1) && ListsLines(e.modifiedLines, text2)
  {
    var t1 := LinesToChars(text1);
    var t2 := LinesToChars(text2);
    var es := lib.diffSymbols(t1, t2);
    assert Reproduces(es, t1, t2);
    LinesOfSymbols(es);
    SplitLinesOfLines(t1);
    SplitLinesOfLines(t2);
    var e := Expand(CharsToLines(es), 1, 1);
    ListsLinesOf(e.originalLines, Original, text1);
    ListsLinesOf(e.modifiedLines, Modified, text2);
  }

  /** A side numbered from 1 whose contents are the lines of `text` lists them. */
  lemma ListsLinesOf(ls: seq<LineDiff>, side: Side, text: string)
    requires SideShape(ls, 1, side) && Contents(ls) == SplitLines(text)
    ensures ListsLines(ls, text)
  {
    forall k | 0 <= k < |ls| ensures ls[k].content == SplitLines(text)[k] {
      assert Contents(ls)[k] == ls[k].content;
    }
  }

  function Contents(ls: seq<LineDiff>): seq<string>
  {
    seq(|ls|, k requires 0 <= k < |ls| => ls[k].content)
  }

  /** The content of a line symbol: the symbol without its terminator. */
  function Unterminated(t: string): string
  {
    if Terminated(t) then t[..|t| - 1] else t
  }

  function UnterminatedAll(ts: seq<string>): seq<string>
  {
    seq(|ts|, k requires 0 <= k < |ts| => Unterminated(ts[k]))
  }

  /** Splitting a line followed by its terminator and more text puts the line first. */
  lemma SplitLinesCons(c: string, s: string)
    requires '\n' !in c
    ensures SplitLines(c + "\n" + s) == [c] + SplitLines(s)
  {
    assert c + "\n" + s == c + ("\n" + s);
    SplitPrefix(c, "\n" + s);
    assert ("\n" + s)[1..] == s;
    assert Split("\n" + s) == [""] + Split(s);
    assert ([""] + Split(s))[1..] == Split(s);
    assert c + "" == c;
    var f := Split(s);
    assert Split(c + "\n" + s) == [c] + f;
    if f[|f| - 1] == "" {
      assert ([c] + f)[..|f|] == [c] + f[..|f| - 1];
    }
  }

  /** Cutting a line symbol followed by more text puts the line, without its terminator, first. */
  lemma LineThenRest(t: string, s: string)
    requires IsLine(t) && (|s| > 0 ==> Terminated(t))
    ensures SplitLines(t + s) == [Unterminated(t)] + SplitLines(s)
  {
    var c := Unterminated(t);
    assert '\n' !in c by {
      if Terminated(t) {
        assert c == t[..|t| - 1];
      } else {
        assert t == t[..|t| - 1] + [t[|t| - 1]];
      }
    }
    if Terminated(t) {
      assert t == c + "\n";
      assert t + s == c + "\n" + s;
      SplitLinesCons(c, s);
    } else {
      assert s == [] && t + s == t;
      SplitPrefix(c, "");
      assert c + "" == c;
    }
  }

  /** Cutting a run of whole lines into lines gives each line without its terminator. */
  lemma {:induction false} SplitLinesOfLines(ts: seq<string>)
    requires WellFormedLines(ts)
    ensures SplitLines(Concat(ts)) == UnterminatedAll(ts)
  {
    if |ts| > 0 {
      var rest := ts[1..];
      assert ts == [ts[0]] + rest;
      WellFormedSplit([ts[0]], rest);
      SplitLinesOfLines(rest);
      LineThenRest(ts[0], Concat(rest));
    }
  }

  /** The lines an edit script lists on the original side: those of its equal and deleted edits. */
  function LinesOf1(ds: seq<Diff>): seq<string>
  {
    if |ds| == 0 then []
    else (if ds[0].op == Insert then [] else SplitLines(ds[0].text)) + LinesOf1(ds[1..])
  }

  /** The lines an edit script lists on the modified side: those of its equal and inserted edits. */
  function LinesOf2(ds: seq<Diff>): seq<string>
  {
    if |ds| == 0 then []
    else (if ds[0].op == Delete then [] else SplitLines(ds[0].text)) + LinesOf2(ds[1..])
  }

  lemma ContentsNumbered(lines: seq<string>, first: int, kind: LineType)
    ensures Contents(Numbered(lines, first, kind)) == lines
  {
  }

  /** Each edit of a line-level script holds whole lines, so its lines are its symbols without terminators. */
  lemma {:induction false} LinesOfSymbols(es: seq<Edit<string>>)
    requires WellFormedLines(Text1(es)) && WellFormedLines(Text2(es))
    ensures LinesOf1(CharsToLines(es)) == UnterminatedAll(Text1(es))
    ensures LinesOf2(CharsToLines(es)) == UnterminatedAll(Text2(es))
  {
    if |es| > 0 {
      var e := es[0];
      var ds := CharsToLines(es);
      assert ds == [Edit(e.op, Concat(e.text))] + CharsToLines(es[1..]);
      assert ds[1..] == CharsToLines(es[1..]);
      var part1 := if e.op == Insert then [] else e.text;
      var part2 := if e.op == Delete then [] else e.text;
      assert Text1(es) == part1 + Text1(es[1..]);
      assert Text2(es) == part2 + Text2(es[1..]);
      WellFormedSplit(part1, Text1(es[1..]));
      WellFormedSplit(part2, Text2(es[1..]));
      UnterminatedAllAppend(part1, Text1(es[1..]));
      UnterminatedAllAppend(part2, Text2(es[1..]));
      LinesOfSymbols(es[1..]);
      if e.op != Insert {
        SplitLinesOfLines(e.text);
      }
      if e.op != Delete {
        SplitLinesOfLines(e.text);
      }
      assert UnterminatedAll([]) == [];
    }
  }

  lemma UnterminatedAllAppend(a: seq<string>, b: seq<string>)
    ensures UnterminatedAll(a + b) == UnterminatedAll(a) + UnterminatedAll(b)
  {
    if |a| > 0 {
      assert (a + b)[1..] == a[1..] + b;
      UnterminatedAllAppend(a[1..], b);
    } else {
      assert a + b == b;
    }
  }

  lemma ContentsAppend(a: seq<LineDiff>, b: seq<LineDiff>)
    ensures Contents(a + b) == Contents(a) + Contents(b)
  {
  }

  /** The guard `computeDiff` puts on equal lines never skips one: every line of an equal edit is pushed. */
  lemma PushedEqualLinesAll(text: string)
    ensures PushedEqualLines(SplitLines(text), text) == SplitLines(text)
  {
    if '\n' in text {
      PushedWhenTerminated(SplitLines(text), text);
    } else {
      SplitJoin([text]);
      assert Join([text]) == text;
    }
  }

  lemma PushedWhenTerminated(lines: seq<string>, text: string)
    requires '\n' in text
    ensures PushedEqualLines(lines, text) == lines
  {
    if |lines| > 0 {
      PushedWhenTerminated(lines[1..], text);
      assert lines == [lines[0]] + lines[1..];
    }
  }

  // ---------------------------------------------------------------------------
  // computeDiff
  // ---------------------------------------------------------------------------

  /** The user's comparison settings. */
  datatype Settings = Settings(jsonMode: bool, cleanup: CleanupMode, editCost: real)

  /**
   * What `computeDiff` reports: `'error'` after the parse-error dialog (whose
   * title and message are kept), `'identical'`, or `'success'` with the result
   * it stores.
   */
  datatype Outcome = ParseError(side: Side, title: string, message: string) | Identical | Compared(result: DiffResult)

  /** The dialog title of a parse error. */
  function ParseErrorTitle(side: Side): string
  {
    if side == Original then "JSON Parse Error - Original Text" else "JSON Parse Error - Modified Text"
  }

  /** The dialog message of a parse error, the parser's own message after a blank line. */
  function ParseErrorMessage(side: Side, error: string): string
  {
    "Failed to parse the " + (if side == Original then "original" else "modified") + " text as JSON:\n\n" + error
  }

  /**
   * The text compared for one side: the input itself, or in JSON mode the
   * canonical form of what `JSON.parse` returns, or the parser's error.
   */
  function Prepared(text: string, jsonMode: bool, parse: string -> Result<JsonUtils.Json>): Result<string>
  {
    if !jsonMode then Result.Success(text)
    else
      match parse(text)
      case Success(v) => Result.Success(JsonUtils.StringifyWithSortedKeys(v))
      case Failure(e) => Result.Failure(e)
  }

  /**
   * `computeDiff`. `JSON.parse` is the parameter `parse`; the original side is
   * parsed first, so when both fail only the original side's error is shown.
   */
  function ComputeDiff(originalText: string, modifiedText: string, settings: Settings,
                       parse: string -> Result<JsonUtils.Json>, lib: Library): (r: Outcome)
    ensures var o := Prepared(originalText, settings.jsonMode, parse);
      var m := Prepared(modifiedText, settings.jsonMode, parse);
      && (r.ParseError? <==> o.Failure? || m.Failure?)
      && (r.ParseError? ==> r.side == (if o.Failure? then Original else Modified))
      && (r.ParseError? ==> r.title == ParseErrorTitle(r.side))
      && (r.ParseError? && o.Failure? ==> r.message == ParseErrorMessage(Original, o.error))
      && (r.ParseError? && o.Success? ==> r.message == ParseErrorMessage(Modified, m.error))
      && (r.Identical? <==> o.Success? && m.Success? && o.value == m.value)
      && (r.Compared? ==> Aligned(r.result))
      && (r.Compared? && lib.Valid() ==>
            && ListsLines(Unpadded(r.result.originalLines, Original), o.value)
            && ListsLines(Unpadded(r.result.modifiedLines, Modified), m.value)
            && CharDiffsSpellLines(r.result))
  {
    var o := Prepared(originalText, settings.jsonMode, parse);
    if o.Failure? then ParseError(Original, ParseErrorTitle(Original), ParseErrorMessage(Original, o.error))
    else
      var m := Prepared(modifiedText, settings.jsonMode, parse);
      if m.Failure? then ParseError(Modified, ParseErrorTitle(Modified), ParseErrorMessage(Modified, m.error))
      else if o.value == m.value then Identical
      else Compared(DiffTexts(o.value, m.value, lib, settings.cleanup, settings.editCost))
  }

  /**
   * In JSON mode, documents that differ only in the order of object
   * properties, at any depth, are reported identical.
   */
  lemma ReorderedJsonIdentical(originalText: string, modifiedText: string, settings: Settings,
                               parse: string -> Result<JsonUtils.Json>, lib: Library,
                               v: JsonUtils.Json, w: JsonUtils.Json)
    requires settings.jsonMode
    requires parse(originalText) == Result.Success(v) && parse(modifiedText) == Result.Success(w)
    requires JsonUtils.WellFormed(v) && JsonUtils.WellFormed(w) && JsonUtils.SameUpToOrder(v, w)
    ensures ComputeDiff(originalText, modifiedText, settings, parse, lib) == Identical
  {
    JsonUtils.KeyOrderIndependent(v, w);
  }

  /**
   * In JSON mode an array and the object that maps each index string to the
   * element there are reported identical, since the copy writes both alike.
   */
  lemma IndexedObjectIdentical(originalText: string, modifiedText: string, settings: Settings,
                               parse: string -> Result<JsonUtils.Json>, lib: Library,
                               es: seq<JsonUtils.Json>)
    requires settings.jsonMode
    requires parse(originalText) == Result.Success(JsonUtils.Arr(es))
    requires parse(modifiedText) == Result.Success(JsonUtils.Obj(JsonUtils.Indexed(es)))
    ensures ComputeDiff(originalText, modifiedText, settings, parse, lib) == Identical
  {
    JsonUtils.ArrayObjectCollision(es);
  }
}
