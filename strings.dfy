/**
 * String helpers shared by the amount codec and the key store: JavaScript's
 * `String.prototype.split` and `Array.prototype.join` on a one-character
 * separator, and decimal digit strings read as arbitrary-precision naturals
 * (the `BN` constructor with radix 10 and `BN.prototype.toString`).
 */
module Strings {

  // ---------------------------------------------------------------------
  // Splitting and joining on one separator character
  // ---------------------------------------------------------------------

  /** Index of the first occurrence of `c` in `s`. */
  function IndexOf(s: string, c: char): (i: nat)
    requires c in s
    ensures i < |s| && s[i] == c && c !in s[..i]
  {
    if s[0] == c then 0 else 1 + IndexOf(s[1..], c)
  }

  /** A position holding `c` with no earlier `c` is the first index of `c`. */
  lemma {:induction false} IndexOfAt(s: string, c: char, k: nat)
    requires k < |s| && s[k] == c && c !in s[..k]
    ensures IndexOf(s, c) == k
  {
    var i := IndexOf(s, c);
    assert forall m | 0 <= m < k :: s[m] != c by {
      forall m | 0 <= m < k ensures s[m] != c {
        assert s[..k][m] == s[m];
      }
    }
    assert forall m | 0 <= m < i :: s[m] != c by {
      forall m | 0 <= m < i ensures s[m] != c {
        assert s[..i][m] == s[m];
      }
    }
  }

  /** Number of occurrences of `c` in `s`. */
  function Count(s: string, c: char): nat
  {
    if s == [] then 0 else (if s[0] == c then 1 else 0) + Count(s[1..], c)
  }

  /** `s.split(sep)`: the maximal `sep`-free segments of `s`, in order (always at least one). */
  function Split(s: string, sep: char): (parts: seq<string>)
    ensures |parts| >= 1
    decreases |s|
  {
    if sep !in s then [s]
    else
      var i := IndexOf(s, sep);
      [s[..i]] + Split(s[i + 1..], sep)
  }

  /** `parts.join(sep)`. */
  function Join(parts: seq<string>, sep: char): string
  {
    if parts == [] then ""
    else if |parts| == 1 then parts[0]
    else parts[0] + [sep] + Join(parts[1..], sep)
  }

  /** A string holding the separator splits into the text before its first separator and the split of the rest. */
  lemma {:induction false} SplitCons(s: string, sep: char)
    requires sep in s
    ensures Split(s, sep) == [s[..IndexOf(s, sep)]] + Split(s[IndexOf(s, sep) + 1..], sep)
  {
  }

  /** Split yields one more segment than there are separators, none containing a separator. */
  lemma {:induction false} SplitShape(s: string, sep: char)
    ensures |Split(s, sep)| == Count(s, sep) + 1
    ensures forall k | 0 <= k < |Split(s, sep)| :: sep !in Split(s, sep)[k]
    decreases |s|
  {
    if sep !in s {
      CountAbsent(s, sep);
    } else {
      var i := IndexOf(s, sep);
      var head, rest := s[..i], s[i + 1..];
      var tail := Split(rest, sep);
      SplitCons(s, sep);
      SplitShape(rest, sep);
      CountAround(s, i, sep);
      CountAbsent(head, sep);
      SegmentsCons(Split(s, sep), head, tail, sep);
    }
  }

  /** Putting a separator-free segment in front keeps every segment separator-free. */
  lemma {:induction false} SegmentsCons(parts: seq<string>, head: string, tail: seq<string>, sep: char)
    requires parts == [head] + tail && sep !in head
    requires forall k | 0 <= k < |tail| :: sep !in tail[k]
    ensures |parts| == |tail| + 1
    ensures forall k | 0 <= k < |parts| :: sep !in parts[k]
  {
    assert forall k | 1 <= k < |parts| :: parts[k] == tail[k - 1];
  }

  /** The occurrences of `c` in `s` are those before position `i`, the one at `i`, and those after it. */
  lemma {:induction false} CountAround(s: string, i: nat, c: char)
    requires i < |s| && s[i] == c
    ensures Count(s, c) == Count(s[..i], c) + 1 + Count(s[i + 1..], c)
  {
    Around(s, i);
    CountSplit(s[..i], s[i + 1..], c);
  }

  lemma {:induction false} CountAbsent(s: string, c: char)
    requires c !in s
    ensures Count(s, c) == 0
  {
    if s != [] {
      CountAbsent(s[1..], c);
    }
  }

  /** Occurrences in `a + [c] + b` are those of `a`, the separator itself, and those of `b`. */
  lemma {:induction false} CountSplit(a: string, b: string, c: char)
    ensures Count(a + [c] + b, c) == Count(a, c) + 1 + Count(b, c)
  {
    if a == [] {
      assert a + [c] + b == [c] + b;
      assert ([c] + b)[1..] == b;
    } else {
      assert (a + [c] + b)[1..] == a[1..] + [c] + b;
      CountSplit(a[1..], b, c);
    }
  }

  /** The first segment of a split is everything before the first separator. */
  lemma {:induction false} FirstSegment(s: string, sep: char)
    ensures sep in s ==> Split(s, sep)[0] == s[..IndexOf(s, sep)]
    ensures sep !in s ==> Split(s, sep) == [s]
  {
  }

  /** Splitting at a separator splits each side independently. */
  lemma {:induction false} SplitConcat(a: string, b: string, sep: char)
    ensures Split(a + [sep] + b, sep) == Split(a, sep) + Split(b, sep)
    decreases |a|
  {
    if sep !in a {
      SplitHead(a + [sep] + b, a, b, sep);
    } else {
      var j := IndexOf(a, sep);
      var x, y := a[..j], a[j + 1..];
      assert a == x + [sep] + y;
      var s, t := a + [sep] + b, y + [sep] + b;
      assert s == x + [sep] + t;
      SplitConcat(y, b, sep);
      SplitConcatStep(s, t, a, b, x, y, sep);
    }
  }

  /** One step of `SplitConcat`: `s` and `a` share their first segment `x`. */
  lemma {:induction false} SplitConcatStep(s: string, t: string, a: string, b: string, x: string, y: string, sep: char)
    requires s == x + [sep] + t && a == x + [sep] + y && sep !in x
    requires Split(t, sep) == Split(y, sep) + Split(b, sep)
    ensures Split(s, sep) == Split(a, sep) + Split(b, sep)
  {
    SplitHead(s, x, t, sep);
    SplitHead(a, x, y, sep);
    AppendAssoc([x], Split(y, sep), Split(b, sep));
  }

  lemma {:induction false} AppendAssoc<T>(x: seq<T>, l: seq<T>, r: seq<T>)
    ensures x + (l + r) == (x + l) + r
  {
  }

  /** A string that starts with a separator-free `a` and a separator splits into `a` and the split of the rest. */
  lemma {:induction false} SplitHead(s: string, a: string, rest: string, sep: char)
    requires s == a + [sep] + rest && sep !in a
    ensures Split(s, sep) == [a] + Split(rest, sep)
  {
    assert s[|a|] == sep;
    assert s[..|a|] == a;
    IndexOfAt(s, sep, |a|);
    assert s[|a| + 1..] == rest;
  }

  /** Joining what `Split` produced gives back the original string. */
  lemma {:induction false} JoinSplit(s: string, sep: char)
    ensures Join(Split(s, sep), sep) == s
    decreases |s|
  {
    if sep in s {
      var i := IndexOf(s, sep);
      var head, rest := s[..i], s[i + 1..];
      var tail := Split(rest, sep);
      SplitCons(s, sep);
      JoinSplit(rest, sep);
      JoinCons(head, tail, sep);
      Around(s, i);
    }
  }

  /** A string is what comes before position `i`, the character at `i`, and what follows. */
  lemma {:induction false} Around(s: string, i: nat)
    requires i < |s|
    ensures s == s[..i] + [s[i]] + s[i + 1..]
  {
  }

  /** Joining a segment in front of at least one more puts a separator between them. */
  lemma {:induction false} JoinCons(head: string, tail: seq<string>, sep: char)
    requires |tail| >= 1
    ensures Join([head] + tail, sep) == head + [sep] + Join(tail, sep)
  {
    var parts := [head] + tail;
    assert parts[0] == head && parts[1..] == tail;
  }

  /** A string holding the separator splits into at least two segments. */
  lemma {:induction false} SplitPresent(s: string, sep: char)
    requires sep in s
    ensures |Split(s, sep)| >= 2
  {
    CountPresent(s, sep);
    SplitShape(s, sep);
  }

  /** A character that occurs is counted at least once. */
  lemma {:induction false} CountPresent(s: string, c: char)
    requires c in s
    ensures Count(s, c) >= 1
    decreases |s|
  {
    if s[0] != c {
      assert c in s[1..] by {
        var i :| 0 <= i < |s| && s[i] == c;
        assert s[1..][i - 1] == c;
      }
      CountPresent(s[1..], c);
    }
  }

  /** A string with one separator splits into the text before it and the text after it. */
  lemma {:induction false} SplitOnce(s: string, sep: char)
    requires sep in s && Count(s, sep) == 1
    ensures Split(s, sep) == [s[..IndexOf(s, sep)], s[IndexOf(s, sep) + 1..]]
  {
    var i := IndexOf(s, sep);
    var t := s[i + 1..];
    SplitShape(s, sep);
    assert Split(s, sep) == [s[..i]] + Split(t, sep);
    assert |Split(t, sep)| == 1;
  }

  /** Splitting before a separator-free tail ends in that tail. */
  lemma {:induction false} SplitAppend(a: string, b: string, sep: char)
    requires sep !in b
    ensures Split(a + [sep] + b, sep) == Split(a, sep) + [b]
  {
    SplitConcat(a, b, sep);
    FirstSegment(b, sep);
  }

  /** Joining two or more parts puts a separator before the last one. */
  lemma {:induction false} JoinLast(parts: seq<string>, sep: char)
    requires |parts| >= 2
    ensures Join(parts, sep) == Join(parts[..|parts| - 1], sep) + [sep] + parts[|parts| - 1]
    decreases |parts|
  {
    if |parts| > 2 {
      var tail := parts[1..];
      JoinLast(tail, sep);
      assert tail[..|tail| - 1] == parts[..|parts| - 1][1..];
      assert tail[|tail| - 1] == parts[|parts| - 1];
    } else {
      assert parts[..1] == [parts[0]];
    }
  }

  // ---------------------------------------------------------------------
  // Decimal digit strings as naturals
  // ---------------------------------------------------------------------

  predicate IsDigit(c: char)
  {
    '0' <= c <= '9'
  }

  predicate IsDigits(s: string)
  {
    forall i | 0 <= i < |s| :: IsDigit(s[i])
  }

  /** Only zeros (vacuously true of the empty string). */
  predicate AllZeros(s: string)
  {
    forall i | 0 <= i < |s| :: s[i] == '0'
  }

  /** A non-empty digit string without a leading zero, or the single digit "0": what `BN.toString()` prints. */
  predicate IsCanonical(s: string)
  {
    IsDigits(s) && s != [] && (s[0] == '0' ==> s == "0")
  }

  function DigitValue(c: char): (d: nat)
    requires IsDigit(c)
    ensures d < 10
  {
    c as int - '0' as int
  }

  function DigitChar(d: nat): (c: char)
    requires d < 10
    ensures IsDigit(c) && DigitValue(c) == d
  {
    ('0' as int + d) as char
  }

  function Pow10(n: nat): (r: nat)
    ensures r >= 1
  {
    if n == 0 then 1 else 10 * Pow10(n - 1)
  }

  /** The value of a decimal digit string (`new BN(s, 10)`); the empty string reads as 0. */
  function ValueOf(s: string): nat
    requires IsDigits(s)
  {
    if s == [] then 0 else 10 * ValueOf(s[..|s| - 1]) + DigitValue(s[|s| - 1])
  }

  /** The canonical decimal spelling of `n` (`BN.prototype.toString()`). */
  function DecimalOf(n: nat): string
  {
    if n < 10 then [DigitChar(n)] else DecimalOf(n / 10) + [DigitChar(n % 10)]
  }

  /** `n` copies of the character `c`. */
  function Repeat(c: char, n: nat): (r: string)
    ensures |r| == n && forall i | 0 <= i < n :: r[i] == c
  {
    if n == 0 then [] else Repeat(c, n - 1) + [c]
  }

  /** DecimalOf spells `n` canonically, and reading it back gives `n`. */
  lemma {:induction false} DecimalOfValue(n: nat)
    ensures IsCanonical(DecimalOf(n)) && ValueOf(DecimalOf(n)) == n
    decreases n
  {
    if n >= 10 {
      DecimalOfValue(n / 10);
      var p := DecimalOf(n / 10);
      var s := p + [DigitChar(n % 10)];
      assert s[..|s| - 1] == p;
      assert s[0] == p[0];
    }
  }

  /** Reading a canonical string and printing the value back gives the same string. */
  lemma {:induction false} ValueOfDecimal(s: string)
    requires IsCanonical(s)
    ensures DecimalOf(ValueOf(s)) == s
    decreases |s|
  {
    if |s| > 1 {
      var p := s[..|s| - 1];
      assert p[0] == s[0];
      LeadingDigitBound(p);
      ValueOfDecimal(p);
      var n := ValueOf(s);
      assert n / 10 == ValueOf(p) && n % 10 == DigitValue(s[|s| - 1]);
      assert [DigitChar(n % 10)] == [s[|s| - 1]];
    }
  }

  /** A digit string with a non-zero first digit is worth at least 10^(length - 1). */
  lemma {:induction false} LeadingDigitBound(s: string)
    requires IsDigits(s) && s != [] && s[0] != '0'
    ensures ValueOf(s) >= Pow10(|s| - 1)
    decreases |s|
  {
    if |s| > 1 {
      var p := s[..|s| - 1];
      assert p[0] == s[0];
      LeadingDigitBound(p);
    }
  }

  /** Every digit string of length `k` is worth less than 10^k. */
  lemma {:induction false} ValueBound(s: string)
    requires IsDigits(s)
    ensures ValueOf(s) < Pow10(|s|)
    decreases |s|
  {
    if s != [] {
      ValueBound(s[..|s| - 1]);
    }
  }

  /** Concatenation shifts the left part by the length of the right part. */
  lemma {:induction false} ValueOfConcat(a: string, b: string)
    requires IsDigits(a) && IsDigits(b)
    ensures IsDigits(a + b)
    ensures ValueOf(a + b) == ValueOf(a) * Pow10(|b|) + ValueOf(b)
    decreases |b|
  {
    if b == [] {
      assert a + b == a;
    } else {
      var b' := b[..|b| - 1];
      var d := DigitValue(b[|b| - 1]);
      assert (a + b)[..|a + b| - 1] == a + b';
      assert (a + b)[|a + b| - 1] == b[|b| - 1];
      ValueOfConcat(a, b');
      assert ValueOf(a + b) == 10 * ValueOf(a + b') + d;
      assert ValueOf(b) == 10 * ValueOf(b') + d;
      ShiftDigit(ValueOf(a), ValueOf(b'), Pow10(|b'|), d);
    }
  }

  /** Appending a digit `d` to the right part of `x * p + y` multiplies the shift by 10. */
  lemma {:induction false} ShiftDigit(x: int, y: int, p: int, d: int)
    ensures 10 * (x * p + y) + d == x * (10 * p) + (10 * y + d)
  {
    assert 10 * (x * p) == x * (10 * p);
  }

  /** Any slice of a digit string is a digit string. */
  lemma {:induction false} DigitsSlice(s: string, i: nat, j: nat)
    requires IsDigits(s) && i <= j <= |s|
    ensures IsDigits(s[i..j])
  {
    assert forall k | 0 <= k < j - i :: s[i..j][k] == s[i + k];
  }

  lemma {:induction false} DigitsPrefix(s: string, k: nat)
    requires IsDigits(s) && k <= |s|
    ensures IsDigits(s[..k])
  {
    assert forall i | 0 <= i < k :: s[..k][i] == s[i];
  }

  lemma {:induction false} DigitsSuffix(s: string, k: nat)
    requires IsDigits(s) && k <= |s|
    ensures IsDigits(s[k..])
  {
    assert forall i | 0 <= i < |s| - k :: s[k..][i] == s[k + i];
  }

  /** Cutting a digit string at `k` splits its value into a scaled prefix and a bounded suffix. */
  lemma {:induction false} DigitsSplit(s: string, k: nat)
    requires IsDigits(s) && k <= |s|
    ensures IsDigits(s[..k]) && IsDigits(s[k..])
    ensures ValueOf(s) == ValueOf(s[..k]) * Pow10(|s| - k) + ValueOf(s[k..])
    ensures ValueOf(s[k..]) < Pow10(|s| - k)
  {
    DigitsPrefix(s, k);
    DigitsSuffix(s, k);
    SliceJoin(s, k);
    ValueOfConcat(s[..k], s[k..]);
    ValueBound(s[k..]);
  }

  lemma {:induction false} ValueOfZeros(s: string)
    requires AllZeros(s)
    ensures IsDigits(s) && ValueOf(s) == 0
    decreases |s|
  {
    if s != [] {
      ValueOfZeros(s[..|s| - 1]);
    }
  }

  lemma {:induction false} Pow10Add(a: nat, b: nat)
    ensures Pow10(a + b) == Pow10(a) * Pow10(b)
    decreases b
  {
    if b > 0 {
      Pow10Add(a, b - 1);
      assert Pow10(a + b) == 10 * Pow10(a + b - 1);
    }
  }

  lemma {:induction false} Pow10Monotone(a: nat, b: nat)
    requires a <= b
    ensures Pow10(a) <= Pow10(b)
  {
    Pow10Add(a, b - a);
  }

  /** Euclidean division is determined by a quotient and a remainder below the divisor. */
  lemma {:induction false} DivModUnique(x: nat, p: nat, q: nat, r: nat)
    requires 0 < p && r < p && x == q * p + r
    ensures x / p == q && x % p == r
  {
    var q', r' := x / p, x % p;
    assert q' * p + r' == q * p + r;
    MulStrict(q', q + 1, p);
    MulStrict(q, q' + 1, p);
  }

  /** Multiplying by a positive factor keeps a strict order: if a * p < b * p then a < b. */
  lemma {:induction false} MulStrict(a: int, b: int, p: nat)
    requires 0 < p && a * p < b * p
    ensures a < b
  {
    assert (b - a) * p == b * p - a * p;
  }

  /** A digit string holds no non-digit character. */
  lemma {:induction false} DigitsExclude(s: string, c: char)
    requires IsDigits(s) && !IsDigit(c)
    ensures c !in s
  {
  }

  lemma {:induction false} SliceJoin(s: string, j: nat)
    requires j <= |s|
    ensures s[..j] + s[j..] == s
  {
  }

  lemma {:induction false} DivMod(n: nat, p: nat)
    requires 0 < p
    ensures n == n / p * p + n % p
  {
  }
}
