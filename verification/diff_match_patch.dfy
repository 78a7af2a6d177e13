/**
 * The parts of the diff_match_patch library the application calls.
 *
 * The library's algorithms (longest-common-subsequence search, semantic and
 * efficiency cleanup) are not modelled: a `Library` value carries them as
 * plain function values, and `Library.Valid` states the one promise the
 * application relies on, namely that an edit script reproduces both of the
 * texts it was computed from (`diff_text1` / `diff_text2`). The line-hashing
 * step `diff_linesToChars_` is modelled concretely in its usual case: every
 * line, terminator included, becomes one symbol. The library's line cap and
 * the quirks of its plain-object table (a final `__proto__` line gets a fresh
 * symbol; a final `hasOwnProperty` line makes the next lookup throw) are not
 * modelled.
 */
module DiffMatchPatch {
  import opened Text

  /** DIFF_DELETE (-1), DIFF_INSERT (1) and DIFF_EQUAL (0). */
  datatype Op = Delete | Insert | Equal

  /** One `[op, text]` tuple of an edit script over symbols of type `T`. */
  datatype Edit<T> = Edit(op: Op, text: seq<T>)

  /** A character-level edit, as `diff_main` returns it on two strings. */
  type Diff = Edit<char>

  /** `diff_text1`: the source text of a script, its equal and deleted parts in order. */
  function Text1<T>(ds: seq<Edit<T>>): seq<T>
  {
    if |ds| == 0 then []
    else (if ds[0].op == Insert then [] else ds[0].text) + Text1(ds[1..])
  }

  /** `diff_text2`: the destination text of a script, its equal and inserted parts in order. */
  function Text2<T>(ds: seq<Edit<T>>): seq<T>
  {
    if |ds| == 0 then []
    else (if ds[0].op == Delete then [] else ds[0].text) + Text2(ds[1..])
  }

  /** The script turns `a` into `b`. */
  ghost predicate Reproduces<T>(ds: seq<Edit<T>>, a: seq<T>, b: seq<T>)
  {
    Text1(ds) == a && Text2(ds) == b
  }

  /** The character-diff cleanup the user selects in the settings dialog. */
  datatype CleanupMode = Semantic | Efficiency | NoCleanup

  /**
   * The library's foreign operations:
   * - `diffSymbols`: `diff_main` on the symbol strings `diff_linesToChars_` produces;
   * - `diffChars`: `diff_main` on two plain strings;
   * - `cleanupSemantic`, `cleanupEfficiency`: the in-place cleanups, here returning
   *   the cleaned script; the efficiency cleanup reads the configured edit cost.
   */
  datatype Library = Library(
    diffSymbols: (seq<string>, seq<string>) -> seq<Edit<string>>,
    diffChars: (string, string) -> seq<Diff>,
    cleanupSemantic: seq<Diff> -> seq<Diff>,
    cleanupEfficiency: (seq<Diff>, real) -> seq<Diff>)
  {
    /** Every script the library returns reproduces its inputs, and cleanups keep both texts. */
    ghost predicate Valid()
    {
      && (forall a, b :: Reproduces(diffSymbols(a, b), a, b))
      && (forall a, b :: Reproduces(diffChars(a, b), a, b))
      && (forall ds :: Reproduces(cleanupSemantic(ds), Text1(ds), Text2(ds)))
      && (forall ds, cost :: Reproduces(cleanupEfficiency(ds, cost), Text1(ds), Text2(ds)))
    }
  }

  // ---------------------------------------------------------------------------
  // Line hashing: diff_linesToChars_ / diff_charsToLines_
  // ---------------------------------------------------------------------------

  /** A line symbol: non-empty, with a terminator at most as its last character. */
  predicate IsLine(t: string)
  {
    |t| > 0 && '\n' !in t[..|t| - 1]
  }

  predicate Terminated(t: string)
  {
    |t| > 0 && t[|t| - 1] == '\n'
  }

  /** A sequence of line symbols in which only the last may lack its terminator. */
  predicate WellFormedLines(ts: seq<string>)
  {
    && (forall i :: 0 <= i < |ts| ==> IsLine(ts[i]))
    && (forall i :: 0 <= i < |ts| - 1 ==> Terminated(ts[i]))
  }

  /** Both halves of a well-formed sequence are well formed. */
  lemma WellFormedSplit(a: seq<string>, b: seq<string>)
    requires WellFormedLines(a + b)
    ensures WellFormedLines(a) && WellFormedLines(b)
  {
    forall i | 0 <= i < |a| ensures IsLine(a[i]) {
      assert a[i] == (a + b)[i];
    }
    forall i | 0 <= i < |a| - 1 ensures Terminated(a[i]) {
      assert a[i] == (a + b)[i];
    }
    forall i | 0 <= i < |b| ensures IsLine(b[i]) {
      assert b[i] == (a + b)[|a| + i];
    }
    forall i | 0 <= i < |b| - 1 ensures Terminated(b[i]) {
      assert b[i] == (a + b)[|a| + i];
    }
  }

  lemma ConsWellFormed(t: string, rest: seq<string>)
    requires IsLine(t) && WellFormedLines(rest)
    requires |rest| > 0 ==> Terminated(t)
    ensures WellFormedLines([t] + rest)
  {
    var r := [t] + rest;
    forall i | 0 < i < |r| ensures r[i] == rest[i - 1] { }
  }

  /** Length of the first line of `s`, its terminator included when it has one. */
  function FirstLineLength(s: string): (n: nat)
    requires |s| > 0
    ensures 0 < n <= |s|
    ensures '\n' !in s[..n - 1]
    ensures n < |s| ==> s[n - 1] == '\n'
  {
    if s[0] == '\n' || |s| == 1 then 1
    else
      var n := 1 + FirstLineLength(s[1..]);
      assert s[..n - 1] == [s[0]] + s[1..][..n - 2];
      n
  }

  /**
   * `diff_linesToChars_` on one text: the lines the library hashes to one symbol
   * each, every line keeping its terminator; an empty text has no line.
   */
  function LinesToChars(text: string): (r: seq<string>)
    ensures Concat(r) == text
    ensures WellFormedLines(r)
    decreases |text|
  {
    if |text| == 0 then []
    else
      var n := FirstLineLength(text);
      var line := text[..n];
      var rest := LinesToChars(text[n..]);
      assert text == line + text[n..];
      assert IsLine(line) by {
        assert line[..n - 1] == text[..n - 1];
      }
      assert |rest| > 0 ==> Terminated(line) by {
        if |rest| > 0 {
          assert |text[n..]| > 0;
        }
      }
      ConsWellFormed(line, rest);
      [line] + rest
  }

  /** `diff_charsToLines_`: every symbol of an edit becomes the line it stands for. */
  function CharsToLines(es: seq<Edit<string>>): (r: seq<Diff>)
    ensures |r| == |es|
    ensures forall i :: 0 <= i < |r| ==> r[i].op == es[i].op
    ensures Text1(r) == Concat(Text1(es)) && Text2(r) == Concat(Text2(es))
  {
    if |es| == 0 then []
    else
      var rest := CharsToLines(es[1..]);
      var r := [Edit(es[0].op, Concat(es[0].text))] + rest;
      assert r[1..] == rest;
      ConcatAppend(if es[0].op == Insert then [] else es[0].text, Text1(es[1..]));
      ConcatAppend(if es[0].op == Delete then [] else es[0].text, Text2(es[1..]));
      r
  }

  /**
   * The line-level diff of the application: `diff_linesToChars_` on both texts,
   * `diff_main` on the symbol strings, then `diff_charsToLines_`.
   */
  function DiffLines(lib: Library, text1: string, text2: string): seq<Diff>
  {
    CharsToLines(lib.diffSymbols(LinesToChars(text1), LinesToChars(text2)))
  }

  /** A valid library's line-level diff reproduces both texts. */
  lemma DiffLinesReproduces(lib: Library, text1: string, text2: string)
    requires lib.Valid()
    ensures Reproduces(DiffLines(lib, text1, text2), text1, text2)
  {
    var es := lib.diffSymbols(LinesToChars(text1), LinesToChars(text2));
    assert Reproduces(es, LinesToChars(text1), LinesToChars(text2));
  }

  /** The character diff of one modified line pair: `diff_main`, then the selected cleanup. */
  function DiffChars(lib: Library, mode: CleanupMode, editCost: real, a: string, b: string): seq<Diff>
  {
    var ds := lib.diffChars(a, b);
    match mode
    case Semantic => lib.cleanupSemantic(ds)
    case Efficiency => lib.cleanupEfficiency(ds, editCost)
    case NoCleanup => ds
  }

  /** Whatever the cleanup mode, a valid library's character diff reproduces both strings. */
  lemma DiffCharsReproduces(lib: Library, mode: CleanupMode, editCost: real, a: string, b: string)
    requires lib.Valid()
    ensures Reproduces(DiffChars(lib, mode, editCost, a, b), a, b)
  {
    var ds := lib.diffChars(a, b);
    assert Reproduces(ds, a, b);
  }
}
