/**
 * String helpers the application relies on from the JavaScript runtime:
 * `split('\n')` / `join('\n')`, decimal rendering of a non-negative integer
 * (`Number.prototype.toString`) and the default string order used by
 * `Array.prototype.sort`.
 */
module Text {

  // ---------------------------------------------------------------------------
  // Splitting and joining on the line terminator
  // ---------------------------------------------------------------------------

  /** `s.split('\n')`: k terminators give k + 1 fragments, none holding a terminator. */
  function Split(s: string): (r: seq<string>)
    ensures |r| >= 1
    ensures forall i :: 0 <= i < |r| ==> '\n' !in r[i]
    decreases |s|
  {
    if |s| == 0 then [""]
    else
      var rest := Split(s[1..]);
      if s[0] == '\n' then [""] + rest
      else [[s[0]] + rest[0]] + rest[1..]
  }

  /** `parts.join('\n')`. */
  function Join(parts: seq<string>): string
  {
    if |parts| == 0 then ""
    else if |parts| == 1 then parts[0]
    else parts[0] + "\n" + Join(parts[1..])
  }

  /** Concatenation of a sequence of strings (`parts.join('')`). */
  function Concat(parts: seq<string>): string
  {
    if |parts| == 0 then "" else parts[0] + Concat(parts[1..])
  }

  lemma ConcatAppend(a: seq<string>, b: seq<string>)
    ensures Concat(a + b) == Concat(a) + Concat(b)
  {
    if |a| > 0 {
      assert (a + b)[1..] == a[1..] + b;
      ConcatAppend(a[1..], b);
    } else {
      assert a + b == b;
    }
  }

  /** Joining the fragments of a split gives back the text. */
  lemma {:induction false} JoinSplit(s: string)
    ensures Join(Split(s)) == s
    decreases |s|
  {
    if |s| > 0 {
      var rest := Split(s[1..]);
      JoinSplit(s[1..]);
      if s[0] == '\n' {
        assert Split(s) == [""] + rest;
        assert ([""] + rest)[1..] == rest;
      } else {
        assert Split(s) == [[s[0]] + rest[0]] + rest[1..];
        if |rest| == 1 {
          assert s == [s[0]] + s[1..];
        } else {
          assert ([[s[0]] + rest[0]] + rest[1..])[1..] == rest[1..];
          assert Join(rest) == rest[0] + "\n" + Join(rest[1..]);
          assert s == [s[0]] + s[1..];
        }
      }
    }
  }

  /** Splitting a fragment-free prefix onto a text extends its first fragment. */
  lemma {:induction false} SplitPrefix(c: string, t: string)
    requires '\n' !in c
    ensures Split(c + t) == [c + Split(t)[0]] + Split(t)[1..]
    decreases |c|
  {
    if |c| > 0 {
      assert (c + t)[1..] == c[1..] + t;
      assert (c + t)[0] == c[0];
      SplitPrefix(c[1..], t);
      assert [c[0]] + (c[1..] + Split(t)[0]) == c + Split(t)[0];
    } else {
      assert c + t == t;
      assert Split(t) == [Split(t)[0]] + Split(t)[1..];
      assert c + Split(t)[0] == Split(t)[0];
    }
  }

  /** Splitting a join of terminator-free fragments gives back the fragments. */
  lemma {:induction false} SplitJoin(parts: seq<string>)
    requires |parts| >= 1
    requires forall i :: 0 <= i < |parts| ==> '\n' !in parts[i]
    ensures Split(Join(parts)) == parts
  {
    if |parts| == 1 {
      SplitPrefix(parts[0], "");
      assert parts[0] + "" == parts[0];
    } else {
      var tail := Join(parts[1..]);
      SplitJoin(parts[1..]);
      assert Join(parts) == parts[0] + ("\n" + tail);
      SplitPrefix(parts[0], "\n" + tail);
      assert ("\n" + tail)[1..] == tail;
      assert Split("\n" + tail) == [""] + Split(tail);
      assert parts[0] + "" == parts[0];
      assert parts == [parts[0]] + parts[1..];
    }
  }

  // ---------------------------------------------------------------------------
  // Decimal rendering of non-negative integers
  // ---------------------------------------------------------------------------

  predicate IsDigit(c: char) { '0' <= c <= '9' }

  function DigitChar(d: nat): (c: char)
    requires d < 10
    ensures IsDigit(c) && c as int - '0' as int == d
  {
    ('0' as int + d) as char
  }

  /** `n.toString()` for a non-negative integer: its decimal digits, no leading zero. */
  function Decimal(n: nat): (r: string)
    ensures |r| > 0 && forall i :: 0 <= i < |r| ==> IsDigit(r[i])
    ensures |r| > 1 ==> r[0] != '0'
    decreases n
  {
    if n < 10 then [DigitChar(n)] else Decimal(n / 10) + [DigitChar(n % 10)]
  }

  /** The value a string of decimal digits denotes. */
  function DigitsValue(s: string): nat
    requires forall i :: 0 <= i < |s| ==> IsDigit(s[i])
  {
    if |s| == 0 then 0
    else
      var last := s[|s| - 1];
      assert IsDigit(last);
      DigitsValue(s[..|s| - 1]) * 10 + (last as int - '0' as int)
  }

  /** Reading back a rendered integer gives the integer. */
  lemma {:induction false} DecimalRoundTrip(n: nat)
    ensures DigitsValue(Decimal(n)) == n
    decreases n
  {
    if n >= 10 {
      DecimalRoundTrip(n / 10);
      var r := Decimal(n);
      assert r[..|r| - 1] == Decimal(n / 10);
    }
  }

  /** Distinct integers render to distinct strings, so array indices give distinct keys. */
  lemma DecimalInjective(m: nat, n: nat)
    requires Decimal(m) == Decimal(n)
    ensures m == n
  {
    DecimalRoundTrip(m);
    DecimalRoundTrip(n);
  }

  // ---------------------------------------------------------------------------
  // Default string order of Array.prototype.sort: UTF-16 code-unit lexicographic
  // ---------------------------------------------------------------------------

  /** The UTF-16 code units of one character: itself below U+10000, else a surrogate pair. */
  function Units(c: char): (r: seq<int>)
    ensures 1 <= |r| <= 2
  {
    var n := c as int;
    if n < 0x10000 then [n]
    else [0xD800 + (n - 0x10000) / 0x400, 0xDC00 + (n - 0x10000) % 0x400]
  }

  /** The UTF-16 encoding of a string, the sequence JavaScript compares. */
  function Utf16(s: string): (r: seq<int>)
    ensures |s| > 0 ==> |r| > 0
  {
    if |s| == 0 then [] else Units(s[0]) + Utf16(s[1..])
  }

  /** Lexicographic order on code-unit sequences: a proper prefix, or smaller at the first difference. */
  predicate UnitsLess(x: seq<int>, y: seq<int>)
    decreases |x|
  {
    |y| > 0 && (|x| == 0 || x[0] < y[0] || (x[0] == y[0] && UnitsLess(x[1..], y[1..])))
  }

  /**
   * Where a character falls in code-unit order: characters below U+D800
   * first, then every supplementary character (its lead surrogate is at
   * most U+DBFF), then U+E000 to U+FFFF.
   */
  function Rank(c: char): int
  {
    var n := c as int;
    if n < 0xD800 || n >= 0x10000 then n else n + 0x200000
  }

  /** `a` sorts strictly before `b`: a proper prefix, or of lower rank at the first difference. */
  predicate Less(a: string, b: string)
    decreases |a|
  {
    |b| > 0 && (|a| == 0 || Rank(a[0]) < Rank(b[0]) || (a[0] == b[0] && Less(a[1..], b[1..])))
  }

  /** A common prefix of code units does not change their order. */
  lemma {:induction false} UnitsLessPrefix(u: seq<int>, x: seq<int>, y: seq<int>)
    ensures UnitsLess(u + x, u + y) <==> UnitsLess(x, y)
    decreases |u|
  {
    if |u| > 0 {
      assert (u + x)[1..] == u[1..] + x;
      assert (u + y)[1..] == u[1..] + y;
      UnitsLessPrefix(u[1..], x, y);
    } else {
      assert u + x == x && u + y == y;
    }
  }

  /** Two different characters are ordered by their first differing code unit, which rank reflects. */
  lemma UnitsLessFirst(c: char, d: char, x: seq<int>, y: seq<int>)
    requires c != d
    ensures UnitsLess(Units(c) + x, Units(d) + y) <==> Rank(c) < Rank(d)
  {
    var n, m := c as int, d as int;
    var ux, uy := Units(c) + x, Units(d) + y;
    if n >= 0x10000 && m >= 0x10000 {
      var q1, r1 := (n - 0x10000) / 0x400, (n - 0x10000) % 0x400;
      var q2, r2 := (m - 0x10000) / 0x400, (m - 0x10000) % 0x400;
      assert n == 0x10000 + 0x400 * q1 + r1 && 0 <= r1 < 0x400;
      assert m == 0x10000 + 0x400 * q2 + r2 && 0 <= r2 < 0x400;
      assert ux[0] == 0xD800 + q1 && uy[0] == 0xD800 + q2;
      assert ux[1..][0] == 0xDC00 + r1 && uy[1..][0] == 0xDC00 + r2;
      if q1 == q2 {
        assert r1 != r2;
      }
    } else {
      assert ux[0] != uy[0];
    }
  }

  /** `Less` is exactly the order JavaScript's default sort uses: code-unit order of the UTF-16 encodings. */
  lemma {:induction false} LessIsCodeUnitOrder(a: string, b: string)
    ensures Less(a, b) <==> UnitsLess(Utf16(a), Utf16(b))
    decreases |a|
  {
    if |a| > 0 && |b| > 0 {
      if a[0] == b[0] {
        UnitsLessPrefix(Units(a[0]), Utf16(a[1..]), Utf16(b[1..]));
        LessIsCodeUnitOrder(a[1..], b[1..]);
      } else {
        UnitsLessFirst(a[0], b[0], Utf16(a[1..]), Utf16(b[1..]));
      }
    }
  }

  /** A supplementary character sorts before U+FF61, although its code point is larger. */
  lemma SupplementaryBeforeHalfwidth()
    ensures Less("\U{10000}", "\U{FF61}") && !Less("\U{FF61}", "\U{10000}")
  {
  }

  lemma LessIrreflexive(a: string)
    ensures !Less(a, a)
    decreases |a|
  {
    if |a| > 0 {
      LessIrreflexive(a[1..]);
    }
  }

  lemma LessAsymmetric(a: string, b: string)
    ensures !(Less(a, b) && Less(b, a))
    decreases |a|
  {
    if |a| > 0 && |b| > 0 && a[0] == b[0] {
      LessAsymmetric(a[1..], b[1..]);
    }
  }

  lemma LessTransitive(a: string, b: string, c: string)
    requires Less(a, b) && Less(b, c)
    ensures Less(a, c)
    decreases |a|
  {
    if |a| > 0 && a[0] == b[0] && b[0] == c[0] {
      LessTransitive(a[1..], b[1..], c[1..]);
    }
  }

  lemma LessTotal(a: string, b: string)
    requires a != b
    ensures Less(a, b) || Less(b, a)
    decreases |a|
  {
    if |a| > 0 && |b| > 0 && a[0] == b[0] {
      assert a == [a[0]] + a[1..];
      assert b == [b[0]] + b[1..];
      LessTotal(a[1..], b[1..]);
    }
  }

  predicate StrictlySorted(s: seq<string>)
  {
    forall i, j :: 0 <= i < j < |s| ==> Less(s[i], s[j])
  }

  predicate NoDuplicates(s: seq<string>)
  {
    forall i, j :: 0 <= i < j < |s| ==> s[i] != s[j]
  }

  lemma StrictlySortedNoDuplicates(s: seq<string>)
    requires StrictlySorted(s)
    ensures NoDuplicates(s)
  {
    forall i, j | 0 <= i < j < |s|
      ensures s[i] != s[j]
    {
      LessIrreflexive(s[i]);
    }
  }

  /** Places `x` into a strictly sorted sequence that does not hold it. */
  function InsertSorted(x: string, s: seq<string>): (r: seq<string>)
    requires StrictlySorted(s) && x !in s
    ensures StrictlySorted(r)
    ensures forall k :: k in r <==> k == x || k in s
    ensures |r| == |s| + 1
  {
    if |s| == 0 then [x]
    else if Less(x, s[0]) then
      var r := [x] + s;
      assert forall j :: 0 < j < |s| ==> Less(s[0], s[j]);
      forall j | 0 < j < |r| ensures Less(r[0], r[j]) {
        if j > 1 { LessTransitive(x, s[0], s[j - 1]); }
      }
      r
    else
      var tail := InsertSorted(x, s[1..]);
      var r := [s[0]] + tail;
      LessTotal(x, s[0]);
      forall j | 0 < j < |r| ensures Less(r[0], r[j]) {
        assert r[j] in tail;
        if r[j] != x {
          var k :| 0 <= k < |s[1..]| && s[1..][k] == r[j];
          assert s[k + 1] == r[j];
        }
      }
      r
  }

  /** `Array.from(keys).sort()` for a duplicate-free list of keys. */
  function SortStrings(xs: seq<string>): (r: seq<string>)
    requires NoDuplicates(xs)
    ensures StrictlySorted(r)
    ensures forall k :: k in r <==> k in xs
    ensures |r| == |xs|
  {
    if |xs| == 0 then []
    else
      var init := xs[..|xs| - 1];
      var x := xs[|xs| - 1];
      assert x !in init by {
        forall i | 0 <= i < |init| ensures init[i] != x {
          assert init[i] == xs[i];
        }
      }
      assert xs == init + [x];
      InsertSorted(x, SortStrings(init))
  }

  lemma FirstIsMember<T>(s: seq<T>)
    ensures |s| > 0 ==> s[0] in s
  {
  }

  /** A strictly sorted sequence is determined by its elements. */
  lemma {:induction false} SortedUnique(a: seq<string>, b: seq<string>)
    requires StrictlySorted(a) && StrictlySorted(b)
    requires forall k :: k in a <==> k in b
    ensures a == b
  {
    if |a| == 0 {
      FirstIsMember(b);
    } else {
      assert a[0] in b;
      assert |b| > 0;
      assert b[0] in a;
      var i :| 0 <= i < |a| && a[i] == b[0];
      var j :| 0 <= j < |b| && b[j] == a[0];
      if j > 0 {
        assert Less(b[0], b[j]);
        if i == 0 {
          LessIrreflexive(a[0]);
        } else {
          assert Less(a[0], a[i]);
          LessAsymmetric(a[0], a[i]);
        }
      }
      assert a[0] == b[0];
      forall k ensures k in a[1..] <==> k in b[1..] {
        if k in a[1..] {
          var p :| 1 <= p < |a| && a[p] == k;
          assert Less(a[0], k);
          LessIrreflexive(k);
          assert k in b;
          assert k != b[0];
        }
        if k in b[1..] {
          var p :| 1 <= p < |b| && b[p] == k;
          assert Less(b[0], k);
          LessIrreflexive(k);
          assert k in a;
          assert k != a[0];
        }
      }
      SortedUnique(a[1..], b[1..]);
      assert a == [a[0]] + a[1..];
      assert b == [b[0]] + b[1..];
    }
  }
}
