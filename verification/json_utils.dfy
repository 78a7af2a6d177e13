/**
 * The JSON canonicaliser of the application (`stringifyWithSortedKeys`):
 * collect every object key and array index of a parsed value into one sorted
 * list, copy the value into prototype-free objects (arrays become objects
 * keyed by their indices), and serialise the copy with `JSON.stringify`,
 * the sorted list as property filter and two spaces of indentation.
 */
module JsonUtils {
  import opened Text

  // ---------------------------------------------------------------------------
  // Values
  // ---------------------------------------------------------------------------

  /**
   * A value as `JSON.parse` returns it. A number is kept as the token
   * `JSON.stringify` renders for it; an object lists its own properties in order.
   */
  datatype Json =
    | Null
    | Bool(b: bool)
    | Num(token: string)
    | Str(s: string)
    | Arr(elements: seq<Json>)
    | Obj(members: seq<Member>)

  /** One own property of an object. `"__proto__"` is an ordinary key here. */
  datatype Member = Member(key: string, value: Json)

  predicate IsPrimitive(v: Json)
  {
    v.Null? || v.Bool? || v.Num? || v.Str?
  }

  /** The keys of a member list, in order. */
  function Keys(ms: seq<Member>): (r: seq<string>)
    ensures |r| == |ms|
    ensures forall i :: 0 <= i < |ms| ==> r[i] == ms[i].key
  {
    if |ms| == 0 then [] else [ms[0].key] + Keys(ms[1..])
  }

  /** An object has at most one property per key, at every depth. */
  predicate WellFormed(v: Json)
  {
    match v
    case Arr(es) => forall i :: 0 <= i < |es| ==> WellFormed(es[i])
    case Obj(ms) => NoDuplicates(Keys(ms)) && forall i :: 0 <= i < |ms| ==> WellFormed(ms[i].value)
    case _ => true
  }

  /** Position of `k` in `keys`, or `|keys|` when it does not occur. */
  function Find(keys: seq<string>, k: string): (i: nat)
    ensures i <= |keys|
    ensures i < |keys| ==> keys[i] == k
    ensures i == |keys| <==> k !in keys
  {
    if |keys| == 0 then 0
    else if keys[0] == k then 0
    else 1 + Find(keys[1..], k)
  }

  /** In a duplicate-free list, the position of an element is where it stands. */
  lemma FindDistinct(keys: seq<string>, i: nat)
    requires NoDuplicates(keys) && i < |keys|
    ensures Find(keys, keys[i]) == i
  {
    var j := Find(keys, keys[i]);
    assert keys[j] == keys[i];
  }

  // ---------------------------------------------------------------------------
  // collectSortedKeys
  // ---------------------------------------------------------------------------

  /**
   * `k` is an own key of some object or an index (as a string) of some array
   * anywhere in `v`: the keys the traversal gathers.
   */
  ghost predicate HasKey(v: Json, k: string)
  {
    match v
    case Arr(es) => exists i :: 0 <= i < |es| && (k == Decimal(i) || HasKey(es[i], k))
    case Obj(ms) => exists i :: 0 <= i < |ms| && (k == ms[i].key || HasKey(ms[i].value, k))
    case _ => false
  }

  /** `keys.add(k)` on a set kept as its insertion-ordered list. */
  function AddKey(keys: seq<string>, k: string): (r: seq<string>)
    requires NoDuplicates(keys)
    ensures NoDuplicates(r)
    ensures forall x :: x in r <==> x in keys || x == k
  {
    if k in keys then keys else keys + [k]
  }

  /** `traverse`: adds every key of `v` to the set. Null and primitives add nothing. */
  function Traverse(v: Json, keys: seq<string>): (r: seq<string>)
    requires NoDuplicates(keys)
    ensures NoDuplicates(r)
    ensures forall x :: x in r <==> x in keys || HasKey(v, x)
    decreases v, 1
  {
    match v
    case Arr(es) => TraverseElements(es, 0, keys)
    case Obj(ms) => TraverseMembers(ms, 0, keys)
    case _ => keys
  }

  /** Key `x` is an index of `es` from `i` on, or a key of an element there. */
  ghost predicate ElementKeyFrom(es: seq<Json>, i: nat, x: string)
  {
    exists j :: i <= j < |es| && (x == Decimal(j) || HasKey(es[j], x))
  }

  /** Key `x` is a key of `ms` from `i` on, or a key of a value there. */
  ghost predicate MemberKeyFrom(ms: seq<Member>, i: nat, x: string)
  {
    exists j :: i <= j < |ms| && (x == ms[j].key || HasKey(ms[j].value, x))
  }

  lemma ElementKeyFromStep(es: seq<Json>, i: nat)
    requires i < |es|
    ensures forall x :: ElementKeyFrom(es, i, x) <==> x == Decimal(i) || HasKey(es[i], x) || ElementKeyFrom(es, i + 1, x)
  {
    forall x | ElementKeyFrom(es, i, x) && x != Decimal(i) && !HasKey(es[i], x)
      ensures ElementKeyFrom(es, i + 1, x)
    {
      var j :| i <= j < |es| && (x == Decimal(j) || HasKey(es[j], x));
      assert j != i;
    }
  }

  lemma MemberKeyFromStep(ms: seq<Member>, i: nat)
    requires i < |ms|
    ensures forall x :: MemberKeyFrom(ms, i, x) <==> x == ms[i].key || HasKey(ms[i].value, x) || MemberKeyFrom(ms, i + 1, x)
  {
    forall x | MemberKeyFrom(ms, i, x) && x != ms[i].key && !HasKey(ms[i].value, x)
      ensures MemberKeyFrom(ms, i + 1, x)
    {
      var j :| i <= j < |ms| && (x == ms[j].key || HasKey(ms[j].value, x));
      assert j != i;
    }
  }

  /** The loop over an array: each index, then the keys of the element there. */
  function TraverseElements(es: seq<Json>, i: nat, keys: seq<string>): (r: seq<string>)
    requires i <= |es| && NoDuplicates(keys)
    ensures NoDuplicates(r)
    ensures forall x :: x in r <==> x in keys || ElementKeyFrom(es, i, x)
    decreases Arr(es), 0, |es| - i
  {
    if i == |es| then keys
    else
      ElementKeyFromStep(es, i);
      TraverseElements(es, i + 1, Traverse(es[i], AddKey(keys, Decimal(i))))
  }

  /** The `for ... in` loop over an object's own keys: each key, then the keys of its value. */
  function TraverseMembers(ms: seq<Member>, i: nat, keys: seq<string>): (r: seq<string>)
    requires i <= |ms| && NoDuplicates(keys)
    ensures NoDuplicates(r)
    ensures forall x :: x in r <==> x in keys || MemberKeyFrom(ms, i, x)
    decreases Obj(ms), 0, |ms| - i
  {
    if i == |ms| then keys
    else
      MemberKeyFromStep(ms, i);
      TraverseMembers(ms, i + 1, Traverse(ms[i].value, AddKey(keys, ms[i].key)))
  }

  /** `collectSortedKeys`: every key of the value, once each, in the default sort order. */
  function CollectSortedKeys(v: Json): (r: seq<string>)
    ensures StrictlySorted(r) && NoDuplicates(r)
    ensures forall k :: k in r <==> HasKey(v, k)
    ensures IsPrimitive(v) ==> r == []
  {
    var r := SortStrings(Traverse(v, []));
    FirstIsMember(r);
    StrictlySortedNoDuplicates(r);
    r
  }

  /** An array of length n contributes exactly "0" .. "n-1" and the keys of its elements. */
  lemma ArrayKeys(es: seq<Json>, k: string)
    ensures k in CollectSortedKeys(Arr(es)) <==>
      (exists i :: 0 <= i < |es| && k == Decimal(i)) || (exists i :: 0 <= i < |es| && k in CollectSortedKeys(es[i]))
  {
    if k in CollectSortedKeys(Arr(es)) {
      var i :| 0 <= i < |es| && (k == Decimal(i) || HasKey(es[i], k));
      if k != Decimal(i) {
        assert k in CollectSortedKeys(es[i]);
      } else {
        assert exists i :: 0 <= i < |es| && k == Decimal(i);
      }
    }
    if exists i :: 0 <= i < |es| && k in CollectSortedKeys(es[i]) {
      var i :| 0 <= i < |es| && k in CollectSortedKeys(es[i]);
      assert HasKey(es[i], k);
    }
    if exists i :: 0 <= i < |es| && k == Decimal(i) {
      var i :| 0 <= i < |es| && k == Decimal(i);
      assert HasKey(Arr(es), k);
    }
  }

  // ---------------------------------------------------------------------------
  // safeDeepCopy
  // ---------------------------------------------------------------------------

  /** The keys an array gets in the copy: its indices as strings. */
  function IndexKeys(n: nat): seq<string>
  {
    seq(n, i requires 0 <= i < n => Decimal(i))
  }

  lemma IndexKeysDistinct(n: nat)
    ensures NoDuplicates(IndexKeys(n))
  {
    forall i, j | 0 <= i < j < n ensures Decimal(i) != Decimal(j) {
      if Decimal(i) == Decimal(j) {
        DecimalInjective(i, j);
      }
    }
  }

  /** No array at any depth. */
  predicate NoArrays(v: Json)
  {
    match v
    case Arr(_) => false
    case Obj(ms) => forall i :: 0 <= i < |ms| ==> NoArrays(ms[i].value)
    case _ => true
  }

  /** `k` is an own key of some object anywhere in `v`. */
  ghost predicate ObjectKey(v: Json, k: string)
  {
    match v
    case Arr(es) => exists i :: 0 <= i < |es| && ObjectKey(es[i], k)
    case Obj(ms) => exists i :: 0 <= i < |ms| && (k == ms[i].key || ObjectKey(ms[i].value, k))
    case _ => false
  }

  /**
   * `safeDeepCopy`: null and primitives are returned as they are; an object is
   * copied key by key, `"__proto__"` included; an array becomes an object
   * whose keys are its indices.
   */
  function SafeDeepCopy(v: Json): (r: Json)
    ensures NoArrays(r)
    ensures IsPrimitive(v) ==> r == v
    ensures v.Obj? ==> r.Obj? && Keys(r.members) == Keys(v.members)
    ensures v.Arr? ==> r.Obj? && Keys(r.members) == IndexKeys(|v.elements|)
    ensures WellFormed(v) ==> WellFormed(r)
  {
    match v
    case Arr(es) =>
      var ms := seq(|es|, i requires 0 <= i < |es| => Member(Decimal(i), SafeDeepCopy(es[i])));
      assert Keys(ms) == IndexKeys(|es|);
      IndexKeysDistinct(|es|);
      Obj(ms)
    case Obj(ms) =>
      var cs := seq(|ms|, i requires 0 <= i < |ms| => Member(ms[i].key, SafeDeepCopy(ms[i].value)));
      assert Keys(cs) == Keys(ms);
      Obj(cs)
    case _ => v
  }

  /** The objects of the copy have, between them, exactly the keys the traversal collects. */
  lemma {:induction false} CopyKeys(v: Json, k: string)
    ensures ObjectKey(SafeDeepCopy(v), k) <==> HasKey(v, k)
    decreases v, 1
  {
    match v
    case Arr(es) => CopyKeysElements(es, k);
    case Obj(ms) => CopyKeysMembers(ms, k);
    case _ =>
  }

  lemma {:induction false} CopyKeysElements(es: seq<Json>, k: string)
    ensures ObjectKey(SafeDeepCopy(Arr(es)), k) <==> HasKey(Arr(es), k)
    decreases Arr(es), 0
  {
    var cs := SafeDeepCopy(Arr(es)).members;
    if ObjectKey(Obj(cs), k) {
      var i :| 0 <= i < |cs| && (k == cs[i].key || ObjectKey(cs[i].value, k));
      CopiedElement(es, i);
      CopyKeys(es[i], k);
    }
    if HasKey(Arr(es), k) {
      var i :| 0 <= i < |es| && (k == Decimal(i) || HasKey(es[i], k));
      CopiedElement(es, i);
      CopyKeys(es[i], k);
    }
  }

  /** The copy is deep: member i of an array's copy is the copy of element i, under the key `i.toString()`. */
  lemma CopiedElement(es: seq<Json>, i: nat)
    requires i < |es|
    ensures |SafeDeepCopy(Arr(es)).members| == |es|
    ensures SafeDeepCopy(Arr(es)).members[i] == Member(Decimal(i), SafeDeepCopy(es[i]))
  {
  }

  /** The copy is deep: member i of an object's copy is the copy of member i's value, under its key. */
  lemma CopiedMember(ms: seq<Member>, i: nat)
    requires i < |ms|
    ensures |SafeDeepCopy(Obj(ms)).members| == |ms|
    ensures SafeDeepCopy(Obj(ms)).members[i] == Member(ms[i].key, SafeDeepCopy(ms[i].value))
  {
  }

  lemma {:induction false} CopyKeysMembers(ms: seq<Member>, k: string)
    ensures ObjectKey(SafeDeepCopy(Obj(ms)), k) <==> HasKey(Obj(ms), k)
    decreases Obj(ms), 0
  {
    var cs := SafeDeepCopy(Obj(ms)).members;
    if ObjectKey(Obj(cs), k) {
      var i :| 0 <= i < |cs| && (k == cs[i].key || ObjectKey(cs[i].value, k));
      CopiedMember(ms, i);
      CopyKeys(ms[i].value, k);
    }
    if HasKey(Obj(ms), k) {
      var i :| 0 <= i < |ms| && (k == ms[i].key || HasKey(ms[i].value, k));
      CopiedMember(ms, i);
      CopyKeys(ms[i].value, k);
    }
  }

  // ---------------------------------------------------------------------------
  // JSON.stringify(value, propertyList, 2)
  // ---------------------------------------------------------------------------

  /** The indentation step of `JSON.stringify(..., 2)`. */
  const Gap: string := "  "

  function HexDigit(d: nat): char
    requires d < 16
  {
    if d < 10 then DigitChar(d) else ('a' as int + d - 10) as char
  }

  /** The escape `JSON.stringify` writes for one character of a string. */
  function EscapeChar(c: char): string
  {
    if c == '"' then "\\\""
    else if c == '\\' then "\\\\"
    else if c == 8 as char then "\\b"
    else if c == '\t' then "\\t"
    else if c == '\n' then "\\n"
    else if c == 12 as char then "\\f"
    else if c == '\r' then "\\r"
    else if (c as int) < 0x20 then "\\u00" + [HexDigit(c as int / 16), HexDigit(c as int % 16)]
    else [c]
  }

  function Escape(s: string): string
  {
    if |s| == 0 then "" else EscapeChar(s[0]) + Escape(s[1..])
  }

  /** A character `JSON.stringify` writes as itself. */
  predicate Ordinary(c: char)
  {
    c as int >= 0x20 && c != '"' && c != '\\'
  }

  /** Strings of ordinary characters are written unchanged between the quotes. */
  lemma {:induction false} EscapeOrdinary(s: string)
    requires forall i :: 0 <= i < |s| ==> Ordinary(s[i])
    ensures Escape(s) == s
  {
    if |s| > 0 {
      EscapeOrdinary(s[1..]);
      assert s == [s[0]] + s[1..];
    }
  }

  /** `QuoteJSONString`. */
  function Quote(s: string): string
  {
    "\"" + Escape(s) + "\""
  }

  /** `items.join(sep)`. */
  function JoinWith(items: seq<string>, sep: string): string
  {
    if |items| == 0 then ""
    else if |items| == 1 then items[0]
    else items[0] + sep + JoinWith(items[1..], sep)
  }

  /** The layout of a non-primitive: empty brackets, or one item per line one step deeper. */
  function Block(open: string, close: string, items: seq<string>, indent: string): string
  {
    if |items| == 0 then open + close
    else open + "\n" + indent + Gap + JoinWith(items, ",\n" + indent + Gap) + "\n" + indent + close
  }

  /** The entries of the property list that the object has, in the list's order. */
  function Present(ms: seq<Member>, keys: seq<string>): (r: seq<string>)
    ensures forall k :: k in r <==> k in keys && k in Keys(ms)
    ensures forall i :: 0 <= i < |r| ==> Find(Keys(ms), r[i]) < |ms|
    ensures StrictlySorted(keys) ==> StrictlySorted(r)
  {
    if |keys| == 0 then []
    else
      var rest := Present(ms, keys[1..]);
      if keys[0] in Keys(ms) then
        var r := [keys[0]] + rest;
        assert StrictlySorted(keys) ==> StrictlySorted(r) by {
          if StrictlySorted(keys) {
            forall j | 0 < j < |r| ensures Less(r[0], r[j]) {
              assert r[j] in keys[1..];
            }
          }
        }
        r
      else rest
  }

  /**
   * `JSON.stringify` with a property list and a two-space gap: an object
   * writes, in the list's order, those listed keys it has; an array writes
   * every element.
   */
  function Serialise(v: Json, keys: seq<string>, indent: string): string
    decreases v, 1
  {
    match v
    case Null => "null"
    case Bool(b) => if b then "true" else "false"
    case Num(t) => t
    case Str(s) => Quote(s)
    case Arr(es) => Block("[", "]", SerialiseElements(es, keys, indent + Gap), indent)
    case Obj(ms) => Block("{", "}", SerialiseMembers(ms, keys, indent + Gap), indent)
  }

  /** One property line: the quoted key, a colon and a space, then the value. */
  function Entry(key: string, text: string): string
  {
    Quote(key) + ": " + text
  }

  function SerialiseElements(es: seq<Json>, keys: seq<string>, indent: string): seq<string>
    decreases Arr(es), 0
  {
    seq(|es|, i requires 0 <= i < |es| => Serialise(es[i], keys, indent))
  }

  function SerialiseMembers(ms: seq<Member>, keys: seq<string>, indent: string): seq<string>
    decreases Obj(ms), 0
  {
    var order := Present(ms, keys);
    seq(|order|, i requires 0 <= i < |order| =>
      Entry(order[i], Serialise(ms[Find(Keys(ms), order[i])].value, keys, indent)))
  }

  /** `stringifyWithSortedKeys`. */
  function StringifyWithSortedKeys(v: Json): string
  {
    Serialise(SafeDeepCopy(v), CollectSortedKeys(v), "")
  }

  // ---------------------------------------------------------------------------
  // Reference: each object written with its own keys sorted
  // ---------------------------------------------------------------------------

  /**
   * The intended canonical form: every object writes all of its own keys, in
   * the default sort order, without any global list.
   */
  function Canonical(v: Json, indent: string): string
    requires WellFormed(v)
    decreases v, 1
  {
    match v
    case Null => "null"
    case Bool(b) => if b then "true" else "false"
    case Num(t) => t
    case Str(s) => Quote(s)
    case Arr(es) => Block("[", "]", CanonicalElements(es, indent + Gap), indent)
    case Obj(ms) => Block("{", "}", CanonicalMembers(ms, indent + Gap), indent)
  }

  function CanonicalElements(es: seq<Json>, indent: string): seq<string>
    requires WellFormed(Arr(es))
    decreases Arr(es), 0
  {
    seq(|es|, i requires 0 <= i < |es| => Canonical(es[i], indent))
  }

  function CanonicalMembers(ms: seq<Member>, indent: string): seq<string>
    requires WellFormed(Obj(ms))
    decreases Obj(ms), 0
  {
    var order := SortStrings(Keys(ms));
    seq(|order|, i requires 0 <= i < |order| =>
      Entry(order[i], Canonical(ms[Find(Keys(ms), order[i])].value, indent)))
  }

  /**
   * When every object key of a value is in a sorted property list, the filter
   * drops nothing: the output is the canonical form.
   */
  lemma {:induction false} SerialiseCanonical(v: Json, keys: seq<string>, indent: string)
    requires WellFormed(v) && StrictlySorted(keys)
    requires forall k :: ObjectKey(v, k) ==> k in keys
    ensures Serialise(v, keys, indent) == Canonical(v, indent)
    decreases v
  {
    match v
    case Arr(es) =>
      forall i | 0 <= i < |es| ensures Serialise(es[i], keys, indent + Gap) == Canonical(es[i], indent + Gap) {
        forall k | ObjectKey(es[i], k) ensures k in keys {
          assert ObjectKey(v, k);
        }
        SerialiseCanonical(es[i], keys, indent + Gap);
      }
      assert SerialiseElements(es, keys, indent + Gap) == CanonicalElements(es, indent + Gap);
    case Obj(ms) =>
      var order := Present(ms, keys);
      var sorted := SortStrings(Keys(ms));
      forall k ensures k in order <==> k in sorted {
        if k in Keys(ms) {
          var i := Find(Keys(ms), k);
          assert ObjectKey(v, k) by {
            assert k == ms[i].key;
          }
        }
      }
      SortedUnique(order, sorted);
      forall i | 0 <= i < |order|
        ensures Serialise(ms[Find(Keys(ms), order[i])].value, keys, indent + Gap)
             == Canonical(ms[Find(Keys(ms), order[i])].value, indent + Gap)
      {
        var j := Find(Keys(ms), order[i]);
        forall k | ObjectKey(ms[j].value, k) ensures k in keys {
          assert ObjectKey(v, k);
        }
        SerialiseCanonical(ms[j].value, keys, indent + Gap);
      }
      assert SerialiseMembers(ms, keys, indent + Gap) == CanonicalMembers(ms, indent + Gap);
    case _ =>
  }

  /**
   * The global key list never drops a key: the canonicaliser writes the copy
   * with every object's own keys, each object sorted on its own.
   */
  lemma StringifyIsCanonical(v: Json)
    requires WellFormed(v)
    ensures StringifyWithSortedKeys(v) == Canonical(SafeDeepCopy(v), "")
  {
    forall k | ObjectKey(SafeDeepCopy(v), k) ensures k in CollectSortedKeys(v) {
      CopyKeys(v, k);
    }
    SerialiseCanonical(SafeDeepCopy(v), CollectSortedKeys(v), "");
  }

  // ---------------------------------------------------------------------------
  // Key-order independence
  // ---------------------------------------------------------------------------

  /** The same value, except that objects may list their properties in another order. */
  ghost predicate SameUpToOrder(v: Json, w: Json)
  {
    match v
    case Arr(es) =>
      && w.Arr? && |w.elements| == |es|
      && forall i :: 0 <= i < |es| ==> SameUpToOrder(es[i], w.elements[i])
    case Obj(ms) =>
      && w.Obj?
      && (forall k :: k in Keys(ms) <==> k in Keys(w.members))
      && forall i :: 0 <= i < |ms| ==>
        && Find(Keys(w.members), ms[i].key) < |w.members|
        && SameUpToOrder(ms[i].value, w.members[Find(Keys(w.members), ms[i].key)].value)
    case _ => v == w
  }

  /** The canonical form does not depend on the order of properties. */
  lemma {:induction false} CanonicalUpToOrder(v: Json, w: Json, indent: string)
    requires WellFormed(v) && WellFormed(w) && SameUpToOrder(v, w)
    ensures Canonical(v, indent) == Canonical(w, indent)
    decreases v
  {
    match v
    case Arr(es) =>
      var fs := w.elements;
      forall i | 0 <= i < |es| ensures Canonical(es[i], indent + Gap) == Canonical(fs[i], indent + Gap) {
        CanonicalUpToOrder(es[i], fs[i], indent + Gap);
      }
      assert CanonicalElements(es, indent + Gap) == CanonicalElements(fs, indent + Gap);
    case Obj(ms) =>
      var ns := w.members;
      var order := SortStrings(Keys(ms));
      SortedUnique(order, SortStrings(Keys(ns)));
      forall i | 0 <= i < |order|
        ensures Canonical(ms[Find(Keys(ms), order[i])].value, indent + Gap)
             == Canonical(ns[Find(Keys(ns), order[i])].value, indent + Gap)
      {
        var a := Find(Keys(ms), order[i]);
        assert ms[a].key == order[i];
        CanonicalUpToOrder(ms[a].value, ns[Find(Keys(ns), order[i])].value, indent + Gap);
      }
      assert CanonicalMembers(ms, indent + Gap) == CanonicalMembers(ns, indent + Gap);
    case _ =>
  }

  /** Copying keeps two values that differ only in property order so. */
  lemma {:induction false} CopyUpToOrder(v: Json, w: Json)
    requires SameUpToOrder(v, w)
    ensures SameUpToOrder(SafeDeepCopy(v), SafeDeepCopy(w))
  {
    match v
    case Arr(es) =>
      var fs := w.elements;
      var cv := SafeDeepCopy(v).members;
      var cw := SafeDeepCopy(w).members;
      IndexKeysDistinct(|es|);
      forall i | 0 <= i < |cv|
        ensures Find(Keys(cw), cv[i].key) == i
        ensures SameUpToOrder(cv[i].value, cw[i].value)
      {
        FindDistinct(Keys(cw), i);
        CopyUpToOrder(es[i], fs[i]);
      }
    case Obj(ms) =>
      var ns := w.members;
      var cv := SafeDeepCopy(v).members;
      var cw := SafeDeepCopy(w).members;
      forall i | 0 <= i < |cv|
        ensures Find(Keys(cw), cv[i].key) < |cw|
        ensures SameUpToOrder(cv[i].value, cw[Find(Keys(cw), cv[i].key)].value)
      {
        var j := Find(Keys(ns), ms[i].key);
        assert cw[j] == Member(ns[j].key, SafeDeepCopy(ns[j].value));
        CopyUpToOrder(ms[i].value, ns[j].value);
      }
    case _ =>
  }

  /**
   * Two values that differ only in the order of object properties, at any
   * depth, canonicalise to the same text.
   */
  lemma KeyOrderIndependent(v: Json, w: Json)
    requires WellFormed(v) && WellFormed(w) && SameUpToOrder(v, w)
    ensures StringifyWithSortedKeys(v) == StringifyWithSortedKeys(w)
  {
    StringifyIsCanonical(v);
    StringifyIsCanonical(w);
    CopyUpToOrder(v, w);
    CanonicalUpToOrder(SafeDeepCopy(v), SafeDeepCopy(w), "");
  }

  // ---------------------------------------------------------------------------
  // Consequences on particular values
  // ---------------------------------------------------------------------------

  /** Numeric-looking keys sort as strings: "1" before "10" before "2". */
  lemma NumericKeysSortAsStrings()
    ensures CollectSortedKeys(Obj([Member("2", Str("two")), Member("1", Str("one")), Member("10", Str("ten"))]))
      == ["1", "10", "2"]
  {
    var v := Obj([Member("2", Str("two")), Member("1", Str("one")), Member("10", Str("ten"))]);
    var expected := ["1", "10", "2"];
    assert Less("1", "10") && Less("10", "2") && Less("1", "2");
    forall k ensures k in CollectSortedKeys(v) <==> k in expected {
      if HasKey(v, k) {
        var i :| 0 <= i < 3 && (k == v.members[i].key || HasKey(v.members[i].value, k));
      }
      if k in expected {
        assert k == v.members[0].key || k == v.members[1].key || k == v.members[2].key;
      }
    }
    SortedUnique(CollectSortedKeys(v), expected);
  }

  /** An array-free value is its own copy, so copying twice is copying once. */
  lemma {:induction false} CopyArrayFree(v: Json)
    requires NoArrays(v)
    ensures SafeDeepCopy(v) == v
  {
    match v
    case Obj(ms) =>
      var cs := SafeDeepCopy(v).members;
      forall i | 0 <= i < |ms| ensures cs[i] == ms[i] {
        CopyArrayFree(ms[i].value);
      }
      assert cs == ms;
    case _ =>
  }

  lemma SortTwo(k1: string, k2: string)
    requires k1 != k2 && Less(k1, k2)
    ensures SortStrings([k1, k2]) == [k1, k2]
  {
    SortedUnique(SortStrings([k1, k2]), [k1, k2]);
  }

  lemma CanonicalTwo(k1: string, v1: Json, k2: string, v2: Json)
    requires k1 != k2 && Less(k1, k2) && IsPrimitive(v1) && IsPrimitive(v2)
    ensures Canonical(Obj([Member(k1, v1), Member(k2, v2)]), "")
      == Block("{", "}", [Entry(k1, Canonical(v1, "")), Entry(k2, Canonical(v2, ""))], "")
  {
    var ms := [Member(k1, v1), Member(k2, v2)];
    assert Keys(ms) == [k1, k2];
    SortTwo(k1, k2);
    assert Find([k1, k2], k1) == 0 && Find([k1, k2], k2) == 1;
    assert Canonical(v1, "" + Gap) == Canonical(v1, "");
    assert Canonical(v2, "" + Gap) == Canonical(v2, "");
    assert CanonicalMembers(ms, "" + Gap) == [Entry(k1, Canonical(v1, "")), Entry(k2, Canonical(v2, ""))];
  }

  /**
   * An object of two properties with primitive values, keys in sort order:
   * one line per property, indented by two spaces.
   */
  lemma TwoProperties(k1: string, v1: Json, k2: string, v2: Json)
    requires Less(k1, k2) && IsPrimitive(v1) && IsPrimitive(v2)
    ensures StringifyWithSortedKeys(Obj([Member(k1, v1), Member(k2, v2)]))
      == Block("{", "}", [Entry(k1, Canonical(v1, "")), Entry(k2, Canonical(v2, ""))], "")
  {
    var v := Obj([Member(k1, v1), Member(k2, v2)]);
    LessIrreflexive(k1);
    CopyArrayFree(v);
    StringifyIsCanonical(v);
    CanonicalTwo(k1, v1, k2, v2);
  }

  /** A `"__proto__"` key is kept and written like any other, in sort order. */
  lemma ProtoKeyKept(value1: string, value2: string)
    ensures StringifyWithSortedKeys(Obj([Member("__proto__", Str(value1)), Member("normal", Str(value2))]))
      == Block("{", "}", [Entry("__proto__", Quote(value1)), Entry("normal", Quote(value2))], "")
  {
    assert Less("__proto__", "normal");
    TwoProperties("__proto__", Str(value1), "normal", Str(value2));
  }

  /** Two layouts of two items with the same first item are equal only if their last items are. */
  lemma BlockLastItem(first: string, last1: string, last2: string, indent: string)
    requires Block("{", "}", [first, last1], indent) == Block("{", "}", [first, last2], indent)
    ensures last1 == last2
  {
    var sep := ",\n" + indent + Gap;
    var head := "{" + "\n" + indent + Gap + first + sep;
    var tail := "\n" + indent + "}";
    assert [first, last1][1..] == [last1];
    assert [first, last2][1..] == [last2];
    assert JoinWith([first, last1], sep) == first + sep + last1;
    assert JoinWith([first, last2], sep) == first + sep + last2;
    assert Block("{", "}", [first, last1], indent) == head + last1 + tail;
    assert Block("{", "}", [first, last2], indent) == head + last2 + tail;
    assert (head + last1 + tail)[|head|..|head| + |last1|] == last1;
    assert (head + last2 + tail)[|head|..|head| + |last2|] == last2;
  }

  /** The same key with different value texts gives different property lines. */
  lemma EntryInjective(key: string, text1: string, text2: string)
    requires Entry(key, text1) == Entry(key, text2)
    ensures text1 == text2
  {
    var p := Quote(key) + ": ";
    assert Entry(key, text1)[|p|..] == text1;
    assert Entry(key, text2)[|p|..] == text2;
  }

  /** Objects that differ only in one number canonicalise to different texts. */
  lemma DifferentValuesDiffer(k1: string, v1: Json, k2: string, t1: string, t2: string)
    requires Less(k1, k2) && IsPrimitive(v1) && t1 != t2
    ensures StringifyWithSortedKeys(Obj([Member(k1, v1), Member(k2, Num(t1))]))
         != StringifyWithSortedKeys(Obj([Member(k1, v1), Member(k2, Num(t2))]))
  {
    TwoProperties(k1, v1, k2, Num(t1));
    TwoProperties(k1, v1, k2, Num(t2));
    var e1 := Entry(k2, t1);
    var e2 := Entry(k2, t2);
    if Block("{", "}", [Entry(k1, Canonical(v1, "")), e1], "") == Block("{", "}", [Entry(k1, Canonical(v1, "")), e2], "") {
      BlockLastItem(Entry(k1, Canonical(v1, "")), e1, e2, "");
      EntryInjective(k2, t1, t2);
    }
  }

  /**
   * Because the copy turns every array into an index-keyed object, an array
   * is written with braces, never with brackets.
   */
  lemma ArraysWrittenAsObjects(es: seq<Json>)
    ensures StringifyWithSortedKeys(Arr(es))[0] == '{'
  {
    var c := SafeDeepCopy(Arr(es));
    assert c.Obj?;
    var keys := CollectSortedKeys(Arr(es));
    var items := SerialiseMembers(c.members, keys, "" + Gap);
    assert c == Obj(c.members);
    assert Serialise(c, keys, "") == Block("{", "}", items, "");
    assert Block("{", "}", items, "")[0] == '{';
  }

  /** The object an array becomes: element i under the key `i.toString()`. */
  function Indexed(es: seq<Json>): seq<Member>
  {
    seq(|es|, i requires 0 <= i < |es| => Member(Decimal(i), es[i]))
  }

  /** An array and its index-keyed object have the same copy. */
  lemma CopyOfIndexed(es: seq<Json>)
    ensures SafeDeepCopy(Arr(es)) == SafeDeepCopy(Obj(Indexed(es)))
  {
    var ca, co := SafeDeepCopy(Arr(es)).members, SafeDeepCopy(Obj(Indexed(es))).members;
    assert Keys(co) == Keys(Indexed(es)) == IndexKeys(|es|) == Keys(ca);
    forall i | 0 <= i < |es| ensures ca[i] == co[i] {
      assert ca[i].key == Keys(ca)[i];
      assert co[i].key == Keys(co)[i];
    }
    assert ca == co;
  }

  /** An array and its index-keyed object have the same keys. */
  lemma KeysOfIndexed(es: seq<Json>, k: string)
    ensures HasKey(Arr(es), k) <==> HasKey(Obj(Indexed(es)), k)
  {
    var ms := Indexed(es);
    if HasKey(Arr(es), k) {
      var i :| 0 <= i < |es| && (k == Decimal(i) || HasKey(es[i], k));
      assert k == ms[i].key || HasKey(ms[i].value, k);
    }
    if HasKey(Obj(ms), k) {
      var i :| 0 <= i < |ms| && (k == ms[i].key || HasKey(ms[i].value, k));
      assert k == Decimal(i) || HasKey(es[i], k);
    }
  }

  /**
   * What the array conversion costs: an array and the object that maps each
   * index string to the element there canonicalise to the same text.
   */
  lemma ArrayObjectCollision(es: seq<Json>)
    ensures StringifyWithSortedKeys(Arr(es)) == StringifyWithSortedKeys(Obj(Indexed(es)))
  {
    CopyOfIndexed(es);
    forall k ensures k in CollectSortedKeys(Arr(es)) <==> k in CollectSortedKeys(Obj(Indexed(es))) {
      KeysOfIndexed(es, k);
    }
    SortedUnique(CollectSortedKeys(Arr(es)), CollectSortedKeys(Obj(Indexed(es))));
  }

  /** In JSON mode `[null]` and `{"0": null}` are therefore reported identical. */
  lemma NullArrayMatchesObject()
    ensures StringifyWithSortedKeys(Arr([Null])) == StringifyWithSortedKeys(Obj([Member("0", Null)]))
  {
    ArrayObjectCollision([Null]);
    assert Decimal(0) == "0";
    assert Indexed([Null]) == [Member("0", Null)];
  }

  /** In particular the empty array is written as `{}`. */
  lemma EmptyArrayWrittenAsObject()
    ensures StringifyWithSortedKeys(Arr([])) == "{}"
  {
    var c := SafeDeepCopy(Arr([]));
    assert Keys(c.members) == [];
    assert c == Obj([]);
    var keys := CollectSortedKeys(Arr([]));
    var order := Present([], keys);
    FirstIsMember(order);
    assert |order| == 0;
    assert |SerialiseMembers([], keys, "" + Gap)| == 0;
  }
}
