/**
 * The behaviour of the Go string and number routines that main.go relies on:
 * `unicode.IsSpace`/`strings.TrimSpace`, `strings.Split` and `strings.SplitN`
 * with a one-character separator, byte-wise string comparison (`sort.Strings`),
 * `strconv.ParseInt(s, 10, 64)`, the `uint64(...)` conversion and `%d` formatting.
 * Strings are sequences of Unicode code points; comparing code points gives the
 * same order as comparing their UTF-8 bytes.
 */
module Text {
  import opened Wrappers

  // ---------------------------------------------------------------- whitespace

  /** Go's `unicode.IsSpace`: the Unicode White_Space characters. */
  predicate IsSpace(c: char) {
    var n := c as int;
    (9 <= n <= 13) || n == 32 || n == 0x85 || n == 0xA0 || n == 0x1680 ||
    (0x2000 <= n <= 0x200A) || n == 0x2028 || n == 0x2029 || n == 0x202F ||
    n == 0x205F || n == 0x3000
  }

  function TrimLeft(s: string): (r: string)
    ensures |r| <= |s| && r == s[|s| - |r|..]
    ensures r == [] || !IsSpace(r[0])
    ensures forall i :: 0 <= i < |s| - |r| ==> IsSpace(s[i])
  {
    if |s| > 0 && IsSpace(s[0]) then TrimLeft(s[1..]) else s
  }

  function TrimRight(s: string): (r: string)
    ensures |r| <= |s| && r == s[..|r|]
    ensures r == [] || !IsSpace(r[|r| - 1])
    ensures forall i :: |r| <= i < |s| ==> IsSpace(s[i])
  {
    if |s| > 0 && IsSpace(s[|s| - 1]) then TrimRight(s[..|s| - 1]) else s
  }

  /** The length of the leading white-space run. */
  function Lead(s: string): (n: nat)
    ensures n <= |s| && (n == |s| || !IsSpace(s[n]))
    ensures forall k :: 0 <= k < n ==> IsSpace(s[k])
  {
    if |s| > 0 && IsSpace(s[0]) then 1 + Lead(s[1..]) else 0
  }

  /**
   * `strings.TrimSpace`: drops the leading white-space run and every
   * trailing white space, keeping what lies between.
   */
  function TrimSpace(s: string): (r: string)
    ensures r == [] || (!IsSpace(r[0]) && !IsSpace(r[|r| - 1]))
    ensures Lead(s) + |r| <= |s| && r == s[Lead(s)..Lead(s) + |r|]
    ensures forall k :: Lead(s) + |r| <= k < |s| ==> IsSpace(s[k])
  {
    var left := TrimLeft(s);
    assert |s| - |left| == Lead(s) by { TrimLeftLead(s); }
    TrimRight(left)
  }

  lemma {:induction false} TrimLeftLead(s: string)
    ensures |s| - |TrimLeft(s)| == Lead(s)
  {
    if |s| > 0 && IsSpace(s[0]) {
      TrimLeftLead(s[1..]);
    }
  }

  /** A string that neither starts nor ends with white space is left as it is. */
  lemma TrimSpaceKeeps(s: string)
    requires s == [] || (!IsSpace(s[0]) && !IsSpace(s[|s| - 1]))
    ensures TrimSpace(s) == s
  {
  }

  // ------------------------------------------------------------------ splitting

  /** The index of the first occurrence of `c` in `s`. */
  function IndexOf(s: string, c: char): (i: nat)
    requires c in s
    ensures i < |s| && s[i] == c && c !in s[..i]
  {
    if s[0] == c then 0 else 1 + IndexOf(s[1..], c)
  }

  /** Glues `parts` back together with `sep` between neighbours. */
  function Join(parts: seq<string>, sep: char): string {
    if |parts| == 0 then ""
    else if |parts| == 1 then parts[0]
    else parts[0] + [sep] + Join(parts[1..], sep)
  }

  /**
   * `strings.Split(s, sep)` for a one-character separator: cuts at every
   * occurrence, so there is always at least one part, no part contains the
   * separator, and joining the parts gives `s` back.
   */
  function Split(s: string, sep: char): (parts: seq<string>)
    ensures |parts| >= 1
    ensures forall i :: 0 <= i < |parts| ==> sep !in parts[i]
    ensures Join(parts, sep) == s
    decreases |s|
  {
    if sep !in s then [s]
    else
      var i := IndexOf(s, sep);
      var rest := Split(s[i + 1..], sep);
      assert s == s[..i] + [sep] + s[i + 1..];
      [s[..i]] + rest
  }

  lemma {:induction false} IndexOfJoin(a: string, sep: char, b: string)
    requires sep !in a
    ensures sep in a + [sep] + b && IndexOf(a + [sep] + b, sep) == |a|
    decreases |a|
  {
    var s := a + [sep] + b;
    assert s[|a|] == sep;
    if a != [] {
      assert s[1..] == a[1..] + [sep] + b;
      IndexOfJoin(a[1..], sep, b);
    }
  }

  /** Splitting after a first field without the separator peels that field off. */
  lemma SplitCons(a: string, sep: char, rest: string)
    requires sep !in a
    ensures Split(a + [sep] + rest, sep) == [a] + Split(rest, sep)
  {
    var s := a + [sep] + rest;
    IndexOfJoin(a, sep, rest);
    assert s[..|a|] == a && s[|a| + 1..] == rest;
  }

  /** Splitting undoes joining, as long as no part holds the separator. */
  lemma {:induction false} SplitJoin(parts: seq<string>, sep: char)
    requires |parts| >= 1
    requires forall i :: 0 <= i < |parts| ==> sep !in parts[i]
    ensures Split(Join(parts, sep), sep) == parts
    decreases |parts|
  {
    if |parts| > 1 {
      assert Join(parts, sep) == parts[0] + [sep] + Join(parts[1..], sep);
      SplitCons(parts[0], sep, Join(parts[1..], sep));
      SplitJoin(parts[1..], sep);
      assert parts == [parts[0]] + parts[1..];
    }
  }

  /**
   * `strings.SplitN(s, sep, 2)`: cuts at the first occurrence only, giving
   * one part when there is none and two parts otherwise.
   */
  function SplitFirst(s: string, sep: char): (parts: seq<string>)
    ensures 1 <= |parts| <= 2
    ensures sep !in parts[0]
    ensures |parts| == 1 <==> sep !in s
    ensures Join(parts, sep) == s
  {
    if sep !in s then [s]
    else
      var i := IndexOf(s, sep);
      assert s == s[..i] + [sep] + s[i + 1..];
      [s[..i], s[i + 1..]]
  }

  // ------------------------------------------------------- lexicographic order

  /** Byte-wise (code point) comparison, as Go compares strings: `a <= b`. */
  predicate LessEq(a: string, b: string) {
    |a| == 0 || (|b| > 0 && (a[0] < b[0] || (a[0] == b[0] && LessEq(a[1..], b[1..]))))
  }

  lemma {:induction false} LessEqReflexive(a: string)
    ensures LessEq(a, a)
    decreases |a|
  {
    if |a| > 0 {
      LessEqReflexive(a[1..]);
    }
  }

  lemma {:induction false} LessEqTotal(a: string, b: string)
    ensures LessEq(a, b) || LessEq(b, a)
    decreases |a|
  {
    if |a| > 0 && |b| > 0 && a[0] == b[0] {
      LessEqTotal(a[1..], b[1..]);
    }
  }

  lemma {:induction false} LessEqTransitive(a: string, b: string, c: string)
    requires LessEq(a, b) && LessEq(b, c)
    ensures LessEq(a, c)
    decreases |a|
  {
    if |a| > 0 && a[0] == b[0] && b[0] == c[0] {
      LessEqTransitive(a[1..], b[1..], c[1..]);
    }
  }

  lemma {:induction false} LessEqAntisymmetric(a: string, b: string)
    requires LessEq(a, b) && LessEq(b, a)
    ensures a == b
    decreases |a|
  {
    if |a| > 0 {
      LessEqAntisymmetric(a[1..], b[1..]);
      assert a == [a[0]] + a[1..] && b == [b[0]] + b[1..];
    }
  }

  /** The order `sort.Strings` establishes. */
  ghost predicate Sorted(s: seq<string>) {
    forall i, j :: 0 <= i < j < |s| ==> LessEq(s[i], s[j])
  }

  /** Neighbours in order: what an insertion sort establishes directly. */
  ghost predicate AdjacentSorted(s: seq<string>) {
    forall k :: 0 < k < |s| ==> LessEq(s[k - 1], s[k])
  }

  lemma {:induction false} AdjacentSortedIsSorted(s: seq<string>)
    requires AdjacentSorted(s)
    ensures Sorted(s)
    decreases |s|
  {
    if |s| > 1 {
      var t := s[..|s| - 1];
      assert AdjacentSorted(t) by {
        forall k | 0 < k < |t| ensures LessEq(t[k - 1], t[k]) {
          assert t[k - 1] == s[k - 1] && t[k] == s[k];
        }
      }
      AdjacentSortedIsSorted(t);
      forall i, j | 0 <= i < j < |s| ensures LessEq(s[i], s[j]) {
        if j < |s| - 1 {
          assert s[i] == t[i] && s[j] == t[j];
        } else if i < |s| - 2 {
          assert LessEq(t[i], t[|s| - 2]);
          LessEqTransitive(s[i], s[|s| - 2], s[j]);
        }
      }
    }
  }

  lemma SortedTail(s: seq<string>)
    requires Sorted(s) && |s| > 0
    ensures Sorted(s[1..])
  {
    forall i, j | 0 <= i < j < |s| - 1 ensures LessEq(s[1..][i], s[1..][j]) {
      assert s[1..][i] == s[i + 1] && s[1..][j] == s[j + 1];
    }
  }

  /** The first element of a sorted sequence is at most every element. */
  lemma SortedHead(s: seq<string>, k: nat)
    requires Sorted(s) && k < |s|
    ensures LessEq(s[0], s[k])
  {
    if k == 0 { LessEqReflexive(s[0]); }
  }

  /**
   * There is only one sorted arrangement of a multiset of strings, so a
   * sorted result does not depend on the order its elements were gathered in.
   */
  lemma {:induction false} SortedUnique(x: seq<string>, y: seq<string>)
    requires Sorted(x) && Sorted(y) && multiset(x) == multiset(y)
    ensures x == y
    decreases |x|
  {
    if |x| == 0 {
      assert |y| == |multiset(y)| == 0;
    } else {
      SortedStep(x, y);
      SortedUnique(x[1..], y[1..]);
      assert x == [x[0]] + x[1..] && y == [y[0]] + y[1..];
    }
  }

  /** Two sorted arrangements of one non-empty multiset share their head, and their tails are again such a pair. */
  lemma SortedStep(x: seq<string>, y: seq<string>)
    requires Sorted(x) && Sorted(y) && multiset(x) == multiset(y) && |x| > 0
    ensures |y| == |x| && y[0] == x[0]
    ensures Sorted(x[1..]) && Sorted(y[1..]) && multiset(x[1..]) == multiset(y[1..])
  {
    SortedSameHead(x, y);
    DropHead(x);
    DropHead(y);
    SortedTail(x);
    SortedTail(y);
  }

  /** Two sorted arrangements of one non-empty multiset start alike. */
  lemma SortedSameHead(x: seq<string>, y: seq<string>)
    requires Sorted(x) && Sorted(y) && multiset(x) == multiset(y) && |x| > 0
    ensures |y| == |x| && y[0] == x[0]
  {
    assert |y| == |multiset(y)| == |multiset(x)| == |x|;
    assert x[0] in multiset(y) && y[0] in multiset(x);
    var k :| 0 <= k < |y| && y[k] == x[0];
    var m :| 0 <= m < |x| && x[m] == y[0];
    SortedHead(y, k);
    SortedHead(x, m);
    LessEqAntisymmetric(x[0], y[0]);
  }

  lemma DropHead(x: seq<string>)
    requires |x| > 0
    ensures multiset(x[1..]) == multiset(x) - multiset{x[0]}
  {
    assert x == [x[0]] + x[1..];
  }

  // ----------------------------------------------------------------- numbers

  const MinInt64: int := -0x8000_0000_0000_0000
  const MaxInt64: int := 0x7FFF_FFFF_FFFF_FFFF
  const TwoTo64: int := 0x1_0000_0000_0000_0000

  /** Go's `uint64`. */
  newtype u64 = x: int | 0 <= x < 0x1_0000_0000_0000_0000

  predicate IsDigit(c: char) {
    '0' <= c <= '9'
  }

  predicate AllDigits(s: string) {
    forall i :: 0 <= i < |s| ==> IsDigit(s[i])
  }

  function DigitChar(d: nat): (c: char)
    requires d < 10
    ensures IsDigit(c) && c as int - '0' as int == d
  {
    ('0' as int + d) as char
  }

  /** `fmt`'s `%d` for an unsigned number: decimal digits without a leading zero. */
  function Decimal(n: nat): (s: string)
    ensures |s| >= 1 && AllDigits(s)
    ensures |s| > 1 ==> s[0] != '0'
  {
    if n < 10 then [DigitChar(n)] else Decimal(n / 10) + [DigitChar(n % 10)]
  }

  /** The number a string of decimal digits denotes. */
  function DigitsValue(s: string): nat
    requires AllDigits(s)
  {
    if s == [] then 0
    else DigitsValue(s[..|s| - 1]) * 10 + (s[|s| - 1] as int - '0' as int)
  }

  /** Reading back what `%d` wrote gives the number. */
  lemma {:induction false} DigitsValueDecimal(n: nat)
    ensures DigitsValue(Decimal(n)) == n
  {
    if n >= 10 {
      var s := Decimal(n);
      assert s[..|s| - 1] == Decimal(n / 10);
      DigitsValueDecimal(n / 10);
    }
  }

  datatype NumError = ErrSyntax | ErrRange

  /** The digits after an optional leading sign. */
  function Unsigned(s: string): string
    requires |s| > 0
  {
    if s[0] == '+' || s[0] == '-' then s[1..] else s
  }

  /** An optional sign followed by at least one decimal digit. */
  predicate IsNumeral(s: string) {
    |s| > 0 && |Unsigned(s)| > 0 && AllDigits(Unsigned(s))
  }

  /** The signed value a numeral denotes, unbounded. */
  function NumeralValue(s: string): int
    requires IsNumeral(s)
  {
    var d: int := DigitsValue(Unsigned(s));
    if s[0] == '-' then -d else d
  }

  /**
   * `strconv.ParseInt(s, 10, 64)`: an optional sign followed by at least one
   * decimal digit; a value outside the signed 64-bit range is a range error.
   */
  function ParseInt(s: string): (r: Result<int, NumError>)
    ensures r.Ok? ==> MinInt64 <= r.value <= MaxInt64
    ensures r.Ok? ==> |s| > 0 && AllDigits(if s[0] == '+' || s[0] == '-' then s[1..] else s)
    ensures r.Ok? && r.value < 0 ==> s[0] == '-'
    ensures !IsNumeral(s) ==> r == Err(ErrSyntax)
    ensures IsNumeral(s) ==>
      var v := NumeralValue(s);
      && (r.Ok? <==> MinInt64 <= v <= MaxInt64)
      && (r.Ok? ==> r.value == v)
      && (r.Err? ==> r.error == ErrRange)
  {
    if s == [] then Err(ErrSyntax)
    else
      var neg := s[0] == '-';
      var body := if s[0] == '+' || s[0] == '-' then s[1..] else s;
      if body == [] || !AllDigits(body) then Err(ErrSyntax)
      else
        var v: int := DigitsValue(body);
        if neg then (if v > -MinInt64 then Err(ErrRange) else Ok(-v))
        else if v > MaxInt64 then Err(ErrRange) else Ok(v)
  }

  /** What `%d` writes, `ParseInt` reads back, for every value it accepts. */
  lemma ParseIntDecimal(n: nat)
    requires n <= MaxInt64
    ensures ParseInt(Decimal(n)) == Ok(n)
  {
    DigitsValueDecimal(n);
  }

  /** Go's `uint64(x)` on an `int64`: the two's-complement reinterpretation. */
  function ToU64(x: int): (r: u64)
    requires MinInt64 <= x <= MaxInt64
    ensures x >= 0 ==> r as int == x
    ensures x < 0 ==> r as int == x + TwoTo64
  {
    if x >= 0 then x as u64 else (x + TwoTo64) as u64
  }

  /** Go's `+= 1` on a `uint64`: one more, wrapping to zero at the top. */
  function Inc(c: u64): (r: u64)
    ensures c as int < TwoTo64 - 1 ==> r as int == c as int + 1
    ensures c as int == TwoTo64 - 1 ==> r == 0
  {
    if c as int == TwoTo64 - 1 then 0 else (c as int + 1) as u64
  }

  /** The conversion is reduction modulo 2^64. */
  lemma ToU64Modular(x: int)
    requires MinInt64 <= x <= MaxInt64
    ensures ToU64(x) as int == x % TwoTo64
  {
    if x < 0 {
      assert (x + TwoTo64) % TwoTo64 == x % TwoTo64;
    }
  }

  /** The increment is addition modulo 2^64. */
  lemma IncModular(c: u64)
    ensures Inc(c) as int == (c as int + 1) % TwoTo64
  {
  }
}
