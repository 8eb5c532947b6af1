/** Shared vocabulary: optional values, results, row ids, clock values, the
    JSON values that request bodies carry, JavaScript truthiness, and small
    sequence and string helpers used by every service module. */
module Common {

  datatype Option<+T> = None | Some(value: T)

  /** The outcome of an operation that the source either completes or ends
      with an error message (a thrown Error or a `{ success: false, error }`
      object). */
  datatype Result<+T> = Ok(value: T) | Err(error: string)

  /** Row ids come from AUTO_INCREMENT columns, which start at 1, so a present
      id is always truthy in JavaScript. */
  type Id = x: int | x >= 1 witness 1

  /** A clock reading, in seconds. */
  type Time = int

  const SecondsPerHour: int := 3600
  const SecondsPerDay: int := 86400

  /** A JSON value of a parsed request body. Every JSON number is a `Num`;
      arrays and objects parsed from JSON are distinct references. */
  datatype Value =
    | Undefined
    | Null
    | Bool(b: bool)
    | Num(x: real)
    | Str(s: string)
    | Arr(items: seq<Value>)
    | Object

  /** JavaScript truthiness of a JSON value. */
  predicate Truthy(v: Value)
  {
    match v
    case Undefined => false
    case Null => false
    case Bool(b) => b
    case Num(x) => x != 0.0
    case Str(s) => s != ""
    case Arr(_) => true
    case Object => true
  }

  /** `Number.isInteger(v)` */
  predicate IsIntegerNumber(v: Value)
  {
    v.Num? && v.x.Floor as real == v.x
  }

  /** JavaScript `===` on values parsed from the same request body: arrays and
      objects are never identical to one another. */
  predicate StrictEquals(a: Value, b: Value)
  {
    match (a, b)
    case (Undefined, Undefined) => true
    case (Null, Null) => true
    case (Bool(x), Bool(y)) => x == y
    case (Num(x), Num(y)) => x == y
    case (Str(x), Str(y)) => x == y
    case _ => false
  }

  /** `s || fallback` for a string that may be missing: the empty string is
      falsy too. */
  function OrDefault(s: Option<string>, fallback: string): (r: string)
    ensures s.Some? && s.value != "" ==> r == s.value
    ensures (s.None? || s.value == "") ==> r == fallback
  {
    if s.Some? && s.value != "" then s.value else fallback
  }

  /** `s || null` for a string column. */
  function OrNull(s: Option<string>): (r: Option<string>)
    ensures r.Some? <==> s.Some? && s.value != ""
    ensures r.Some? ==> r == s
  {
    if s.Some? && s.value != "" then s else None
  }

  // ---------------------------------------------------------------------
  // Sequences

  /** The elements of `s` that satisfy `f`, in their original order: what a
      SQL `WHERE` or a JavaScript `filter` returns. */
  function Filter<T(!new)>(s: seq<T>, f: T -> bool): (r: seq<T>)
    ensures |r| <= |s|
    ensures forall x :: x in r <==> x in s && f(x)
    decreases |s|
  {
    if s == [] then []
    else (if f(s[0]) then [s[0]] else []) + Filter(s[1..], f)
  }

  /** A filter that every element passes keeps the whole sequence. */
  lemma {:induction false} FilterAll<T(!new)>(s: seq<T>, f: T -> bool)
    requires forall x :: x in s ==> f(x)
    ensures Filter(s, f) == s
    decreases |s|
  {
    if s != [] {
      assert forall x :: x in s[1..] ==> x in s;
      FilterAll(s[1..], f);
    }
  }

  function Not<T>(f: T -> bool): T -> bool
  {
    x => !f(x)
  }

  lemma {:induction false} FilterConcat<T(!new)>(a: seq<T>, b: seq<T>, f: T -> bool)
    ensures Filter(a + b, f) == Filter(a, f) + Filter(b, f)
    decreases |a|
  {
    if a == [] {
      assert a + b == b;
    } else {
      assert (a + b)[0] == a[0];
      assert (a + b)[1..] == a[1..] + b;
      FilterConcat(a[1..], b, f);
    }
  }

  /** Filtering one more element onto a prefix, the step a loop over `s` takes. */
  lemma FilterPrefixStep<T(!new)>(s: seq<T>, k: nat, f: T -> bool)
    requires k < |s|
    ensures Filter(s[..k + 1], f) == Filter(s[..k], f) + (if f(s[k]) then [s[k]] else [])
  {
    assert s[..k + 1] == s[..k] + [s[k]];
    FilterConcat(s[..k], [s[k]], f);
    assert [s[k]][1..] == [];
  }

  /** Every element satisfies `f` or fails it: the two filters split `s`. */
  lemma {:induction false} FilterPartition<T(!new)>(s: seq<T>, f: T -> bool)
    ensures |Filter(s, f)| + |Filter(s, Not(f))| == |s|
    decreases |s|
  {
    if s != [] {
      FilterPartition(s[1..], f);
    }
  }

  /** Two filters that agree position by position keep the same number of
      elements. */
  lemma {:induction false} FilterSameLength<T(!new), U(!new)>(s: seq<T>, t: seq<U>, f: T -> bool, g: U -> bool)
    requires |s| == |t|
    requires forall k :: 0 <= k < |s| ==> f(s[k]) == g(t[k])
    ensures |Filter(s, f)| == |Filter(t, g)|
    decreases |s|
  {
    if s != [] {
      FilterSameLength(s[1..], t[1..], f, g);
    }
  }

  /** The first index whose element satisfies `f`. */
  function IndexWhere<T>(s: seq<T>, f: T -> bool): (r: Option<nat>)
    ensures r.Some? ==> r.value < |s| && f(s[r.value])
    ensures r.Some? ==> forall j :: 0 <= j < r.value ==> !f(s[j])
    ensures r.None? ==> forall j :: 0 <= j < |s| ==> !f(s[j])
    decreases |s|
  {
    if s == [] then None
    else if f(s[0]) then Some(0)
    else match IndexWhere(s[1..], f)
      case None => None
      case Some(k) => Some(k + 1)
  }

  /** `ORDER BY a ASC, b ASC` on a pair of sort columns. */
  predicate LexLe(a: (int, int), b: (int, int))
  {
    a.0 < b.0 || (a.0 == b.0 && a.1 <= b.1)
  }

  predicate SortedBy<T>(s: seq<T>, key: T -> (int, int))
  {
    forall i, j :: 0 <= i < j < |s| ==> LexLe(key(s[i]), key(s[j]))
  }

  /** Inserts `x` before the first element it does not sort after. */
  function InsertBy<T>(x: T, s: seq<T>, key: T -> (int, int)): (r: seq<T>)
    ensures multiset(r) == multiset(s) + multiset{x}
    ensures |r| == |s| + 1
    decreases |s|
  {
    if s == [] then [x]
    else if LexLe(key(x), key(s[0])) then [x] + s
    else
      MultisetCons(s);
      [s[0]] + InsertBy(x, s[1..], key)
  }

  lemma {:induction false} InsertBySorted<T>(x: T, s: seq<T>, key: T -> (int, int))
    requires SortedBy(s, key)
    ensures SortedBy(InsertBy(x, s, key), key)
    decreases |s|
  {
    if s != [] && !LexLe(key(x), key(s[0])) {
      var tail := s[1..];
      InsertBySorted(x, tail, key);
      var r' := InsertBy(x, tail, key);
      HeadBelowInsert(x, s, key);
      var r := InsertBy(x, s, key);
      assert r == [s[0]] + r';
      forall i, j | 0 <= i < j < |r| ensures LexLe(key(r[i]), key(r[j])) {
        if i == 0 {
          assert r[j] == r'[j - 1];
        } else {
          assert r[i] == r'[i - 1] && r[j] == r'[j - 1];
        }
      }
    }
  }

  /** The head of a sorted sequence sorts before everything the insertion of
      a larger element into its tail produces. */
  lemma HeadBelowInsert<T>(x: T, s: seq<T>, key: T -> (int, int))
    requires SortedBy(s, key) && s != [] && !LexLe(key(x), key(s[0]))
    ensures forall k :: 0 <= k < |s| ==> LexLe(key(s[0]), key(InsertBy(x, s[1..], key)[k]))
  {
    var tail := s[1..];
    var r' := InsertBy(x, tail, key);
    forall k | 0 <= k < |r'| ensures LexLe(key(s[0]), key(r'[k])) {
      var y := r'[k];
      assert y in multiset(r');
      if y != x {
        assert y in multiset(tail);
        var j :| 0 <= j < |tail| && tail[j] == y;
        assert s[j + 1] == y;
      }
    }
  }

  /** An insertion sort: what `ORDER BY a, b` returns, with rows that tie
      left in their table order. */
  function SortBy<T>(s: seq<T>, key: T -> (int, int)): (r: seq<T>)
    ensures multiset(r) == multiset(s)
    ensures |r| == |s|
    ensures SortedBy(r, key)
    decreases |s|
  {
    if s == [] then []
    else
      var rest := SortBy(s[1..], key);
      InsertBySorted(s[0], rest, key);
      MultisetCons(s);
      InsertBy(s[0], rest, key)
  }

  lemma MultisetCons<T>(s: seq<T>)
    requires s != []
    ensures multiset(s) == multiset(s[1..]) + multiset{s[0]}
  {
    assert s == [s[0]] + s[1..];
  }

  /** In a sorted sequence everything before a cut sorts before everything
      after it. */
  lemma SortedSplit<T>(s: seq<T>, key: T -> (int, int), k: nat)
    requires SortedBy(s, key) && k <= |s|
    ensures forall x, y :: x in s[..k] && y in s[k..] ==> LexLe(key(x), key(y))
  {
    forall x, y | x in s[..k] && y in s[k..] ensures LexLe(key(x), key(y)) {
      var i :| 0 <= i < k && s[..k][i] == x;
      var j :| 0 <= j < |s| - k && s[k..][j] == y;
      assert s[i] == x && s[k + j] == y;
    }
  }

  function Min(a: int, b: int): int
  {
    if a <= b then a else b
  }

  /** `LIMIT n` */
  function Take<T>(s: seq<T>, n: nat): (r: seq<T>)
    ensures |r| == Min(n, |s|)
    ensures r == s[..|r|]
  {
    s[..Min(n, |s|)]
  }

  // ---------------------------------------------------------------------
  // Strings

  /** `s.includes(t)` */
  predicate Contains(s: string, t: string)
  {
    exists k :: 0 <= k <= |s| - |t| && OccursAt(s, t, k)
  }

  predicate OccursAt(s: string, t: string, k: int)
    requires 0 <= k <= |s| - |t|
  {
    s[k..k + |t|] == t
  }

  lemma ContainsMiddle(a: string, t: string, b: string)
    ensures Contains(a + t + b, t)
  {
    var s := a + t + b;
    assert OccursAt(s, t, |a|);
  }

  lemma ContainsSuffix(a: string, t: string)
    ensures Contains(a + t, t)
  {
    assert (a + t)[|a|..|a| + |t|] == t;
    assert OccursAt(a + t, t, |a|);
  }

  /** The text pieces of a string built as `a + b + c + d + e + f`:
      it contains `b`, `d` and `f`. */
  lemma ContainsParts(a: string, b: string, c: string, d: string, e: string, f: string)
    ensures Contains(a + b + c + d + e + f, b)
    ensures Contains(a + b + c + d + e + f, d)
    ensures Contains(a + b + c + d + e + f, f)
  {
    var s := a + b + c + d + e + f;
    assert s[|a|..|a| + |b|] == b;
    assert OccursAt(s, b, |a|);
    var k := |a + b + c|;
    assert s[k..k + |d|] == d;
    assert OccursAt(s, d, k);
    assert s[|s| - |f|..] == f;
    assert OccursAt(s, f, |s| - |f|);
  }

  /** Containing `a + t + b` means containing `t`. */
  lemma ContainsWithin(m: string, a: string, t: string, b: string)
    requires Contains(m, a + t + b)
    ensures Contains(m, t)
  {
    var w := a + t + b;
    var k :| 0 <= k <= |m| - |w| && OccursAt(m, w, k);
    assert m[k..k + |w|] == w;
    forall i | 0 <= i < |t| ensures m[k + |a| + i] == t[i] {
      assert m[k..k + |w|][|a| + i] == w[|a| + i];
    }
    assert m[k + |a|..k + |a| + |t|] == t;
    assert OccursAt(m, t, k + |a|);
  }

  predicate IsDigit(c: char)
  {
    '0' <= c <= '9'
  }

  function DigitChar(d: nat): (c: char)
    requires d < 10
    ensures IsDigit(c)
  {
    "0123456789"[d]
  }

  /** The decimal digits of `n`, as `String(n)` writes them. */
  function NatToString(n: nat): (r: string)
    ensures |r| >= 1
    ensures forall i :: 0 <= i < |r| ==> IsDigit(r[i])
    decreases n
  {
    if n < 10 then [DigitChar(n)] else NatToString(n / 10) + [DigitChar(n % 10)]
  }

  /** `String(i)` for an integer. */
  function IntToString(i: int): string
  {
    if i < 0 then "-" + NatToString(-i) else NatToString(i)
  }

  function DigitValue(c: char): (d: nat)
    requires IsDigit(c)
    ensures d < 10
  {
    (c as int) - ('0' as int)
  }

  /** The value of a run of decimal digits. */
  function DigitsValue(s: string): nat
    requires forall i :: 0 <= i < |s| ==> IsDigit(s[i])
    decreases |s|
  {
    if s == [] then 0
    else DigitsValue(s[..|s| - 1]) * 10 + DigitValue(s[|s| - 1])
  }

  /** Reading back what `NatToString` writes gives the same number. */
  lemma {:induction false} DigitsValueOfNatToString(n: nat)
    ensures DigitsValue(NatToString(n)) == n
    decreases n
  {
    var s := NatToString(n);
    if n < 10 {
      assert s == [DigitChar(n)];
      assert s[..0] == [];
      assert DigitValue("0123456789"[n]) == n;
    } else {
      DigitsValueOfNatToString(n / 10);
      assert s[..|s| - 1] == NatToString(n / 10);
      assert DigitValue("0123456789"[n % 10]) == n % 10;
    }
  }

  lemma {:induction false} IndexWhereAgrees<T, U>(s: seq<T>, t: seq<U>, f: T -> bool, g: U -> bool)
    requires |s| == |t|
    requires forall k :: 0 <= k < |s| ==> f(s[k]) == g(t[k])
    ensures IndexWhere(s, f) == IndexWhere(t, g)
    decreases |s|
  {
    if s != [] && !f(s[0]) {
      IndexWhereAgrees(s[1..], t[1..], f, g);
    }
  }

  // ---------------------------------------------------------------------
  // Arithmetic

  /** `Math.round(part / whole * 100)` on exact rationals: rounding half up. */
  function RoundedPercent(part: nat, whole: nat): (r: nat)
    requires whole > 0
    ensures 2 * whole * r <= 200 * part + whole < 2 * whole * (r + 1)
  {
    (200 * part + whole) / (2 * whole)
  }

  lemma MulLe(x: int, y: int, z: nat)
    requires x <= y
    ensures z * x <= z * y
  {
  }

  /** A share of a whole rounds to a percentage between 0 and 100; nothing
      is 0 and everything is 100. */
  lemma RoundedPercentBounds(part: nat, whole: nat)
    requires 0 < whole && part <= whole
    ensures RoundedPercent(part, whole) <= 100
    ensures part == 0 ==> RoundedPercent(part, whole) == 0
    ensures part == whole ==> RoundedPercent(part, whole) == 100
  {
    var r := RoundedPercent(part, whole);
    if r > 100 {
      MulLe(101, r, 2 * whole);
    }
    if part == 0 && r > 0 {
      MulLe(1, r, 2 * whole);
    }
    if part == whole {
      if r < 100 {
        MulLe(r + 1, 100, 2 * whole);
      }
    }
  }

  /** More than half of a whole rounds to at least 50. */
  lemma RoundedPercentRange(part: nat, whole: nat)
    requires 0 < whole && whole < 2 * part && part <= whole
    ensures 50 <= RoundedPercent(part, whole) <= 100
  {
    RoundedPercentBounds(part, whole);
    var r := RoundedPercent(part, whole);
    if r < 50 {
      MulLe(r + 1, 50, 2 * whole);
    }
  }
}
