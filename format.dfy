/**
 * The fixed-point amount codec of `utils/format.ts`: conversion between
 * decimal STREAM strings ("1,234.5") and integer indivisible units
 * ("1234500000000000000000000"), with 10^24 units per STREAM.
 *
 * `BN` values are naturals; JavaScript strings are `string`. Each regular
 * expression of the source is modelled by the match it computes.
 */
module Format {
  import opened Wrappers
  import opened Strings

  /** Decimal exponent of the indivisible unit: 1 STREAM = 10^24 units. */
  const STREAM_NOMINATION_EXP: nat := 24

  /** Number of indivisible units in one STREAM, written out. */
  const STREAM_NOMINATION: nat := 1_000_000_000_000_000_000_000_000

  /** `STREAM_NOMINATION` is 10 raised to `STREAM_NOMINATION_EXP`, as `new BN('10', 10).pow(new BN(STREAM_NOMINATION_EXP, 10))` computes it. */
  lemma NominationIsPower()
    ensures STREAM_NOMINATION == Pow10(STREAM_NOMINATION_EXP)
  {
    Pow10Add(3, 3);
    assert Pow10(6) == 1_000_000;
    Pow10Add(6, 6);
    Pow10Add(12, 12);
  }

  // ---------------------------------------------------------------------
  // The rounding-offset table
  // ---------------------------------------------------------------------

  /** Entry `i` of the table is 5 * 10^i: half of one unit in the `i + 1`-th place. */
  predicate IsOffsetPrefix(offsets: seq<nat>)
  {
    forall i | 0 <= i < |offsets| :: offsets[i] == 5 * Pow10(i)
  }

  /** The table is 5, 50, 500, ...: one entry for each of the 24 digit positions. */
  predicate IsRoundingTable(offsets: seq<nat>)
  {
    |offsets| == STREAM_NOMINATION_EXP && IsOffsetPrefix(offsets)
  }

  /** The module-level loop that fills `ROUNDING_OFFSETS`. */
  method BuildRoundingOffsets() returns (offsets: seq<nat>)
    ensures IsRoundingTable(offsets)
  {
    offsets := FillOffsets(STREAM_NOMINATION_EXP);
  }

  /** The loop itself, run `count` times: append the running offset, then multiply it by ten. */
  method FillOffsets(count: nat) returns (offsets: seq<nat>)
    ensures |offsets| == count && IsOffsetPrefix(offsets)
  {
    offsets := [];
    var i, offset := 0, 5;
    while i < count
      invariant i <= count && |offsets| == i
      invariant offset == 5 * Pow10(i)
      invariant IsOffsetPrefix(offsets)
    {
      offsets := offsets + [offset];
      i, offset := i + 1, offset * 10;
    }
  }

  // ---------------------------------------------------------------------
  // formatWithCommas
  // ---------------------------------------------------------------------

  /** First index at or after `i` that does not hold a digit. */
  function RunEnd(s: string, i: nat): (e: nat)
    requires i <= |s|
    ensures i <= e <= |s|
    ensures i < |s| && IsDigit(s[i]) ==> i < e
    decreases |s| - i
  {
    if i < |s| && IsDigit(s[i]) then RunEnd(s, i + 1) else i
  }

  /**
   * Where one replacement of `/(-?\d+)(\d{3})/` by `'$1,$2'` puts its comma,
   * scanning from `i`: the leftmost match starts on the leftmost run of at
   * least four digits, and the greedy `\d+` leaves exactly the run's last three
   * digits to `(\d{3})`. An optional `-` only widens `$1`, so it is not looked at.
   */
  function CommaPosition(s: string, i: nat): (p: Option<nat>)
    requires i <= |s|
    decreases |s| - i
  {
    if i == |s| then None
    else if !IsDigit(s[i]) then CommaPosition(s, i + 1)
    else
      var e := RunEnd(s, i);
      if e - i >= 4 then Some(e - 3) else CommaPosition(s, e)
  }

  /** Length of the leading group of a grouped number of `n` digits: 1 to 3 digits (0 if there are none). */
  function FirstGroupLength(n: nat): nat
  {
    if n == 0 then 0 else (n - 1) % 3 + 1
  }

  lemma {:induction false} FirstGroupLengthFits(n: nat)
    ensures FirstGroupLength(n) <= n && (n - FirstGroupLength(n)) % 3 == 0
    ensures n > 0 ==> 1 <= FirstGroupLength(n) <= 3
  {
  }

  /** A `,` in front of every block of three digits of `t`. */
  function Groups(t: string): string
    requires |t| % 3 == 0
    decreases |t|
  {
    if t == [] then [] else [','] + t[..3] + Groups(t[3..])
  }

  /** Digits with a thousands separator every three digits from the right. */
  function Grouped(d: string): string
  {
    var k := FirstGroupLength(|d|);
    d[..k] + Groups(d[k..])
  }

  /** `s` with every `c` deleted. */
  function RemoveAll(s: string, c: char): (r: string)
    ensures c !in r
  {
    if s == [] then [] else (if s[0] == c then [] else [s[0]]) + RemoveAll(s[1..], c)
  }

  lemma {:induction false} RemoveAllConcat(a: string, b: string, c: char)
    ensures RemoveAll(a + b, c) == RemoveAll(a, c) + RemoveAll(b, c)
    decreases |a|
  {
    if a == [] {
      assert a + b == b;
    } else {
      assert (a + b)[0] == a[0];
      assert (a + b)[1..] == a[1..] + b;
      RemoveAllConcat(a[1..], b, c);
    }
  }

  lemma {:induction false} RemoveAllAbsent(s: string, c: char)
    requires c !in s
    ensures RemoveAll(s, c) == s
    decreases |s|
  {
    if s != [] {
      RemoveAllAbsent(s[1..], c);
      assert s == [s[0]] + s[1..];
    }
  }

  lemma {:induction false} RunEndAt(s: string, i: nat, j: nat)
    requires i <= j <= |s|
    requires forall m | i <= m < j :: IsDigit(s[m])
    requires j == |s| || !IsDigit(s[j])
    ensures RunEnd(s, i) == j
    decreases j - i
  {
    if i < j {
      RunEndAt(s, i + 1, j);
    }
  }

  /** No run in a tail of comma-led triples is long enough for the pattern. */
  lemma {:induction false} NoCommaInGroups(s: string, i: nat, t: string)
    requires i <= |s| && IsDigits(t) && |t| % 3 == 0
    requires s[i..] == Groups(t)
    ensures CommaPosition(s, i) == None
    decreases |t|
  {
    if t != [] {
      GroupsStep(s, i, t);
      RunEndAt(s, i + 1, i + 4);
      NoCommaInGroups(s, i + 4, t[3..]);
    }
  }

  /** A tail of comma-led triples starts with a comma and three digits, then more of the same. */
  lemma {:induction false} GroupsStep(s: string, i: nat, t: string)
    requires i <= |s| && IsDigits(t) && |t| % 3 == 0 && t != []
    requires s[i..] == Groups(t)
    ensures i + 4 <= |s| && s[i] == ',' && forall m | i + 1 <= m < i + 4 :: IsDigit(s[m])
    ensures IsDigits(t[3..]) && |t[3..]| % 3 == 0 && s[i + 4..] == Groups(t[3..])
    ensures i + 4 == |s| || s[i + 4] == ','
  {
    assert s[i] == s[i..][0];
    assert forall m | i + 1 <= m < i + 4 :: s[m] == s[i..][m - i] == t[m - i - 1];
    DigitsSlice(t, 3, |t|);
    assert s[i + 4..] == s[i..][4..];
    if t[3..] != [] {
      assert s[i + 4] == s[i + 4..][0];
    }
  }

  /** On a partly grouped number the pattern matches exactly when the leading block still has four or more digits. */
  lemma {:induction false} CommaPositionOfPartial(value: string, k: nat)
    requires IsDigits(value) && k <= |value| && (|value| - k) % 3 == 0
    requires value != [] ==> k > 0
    ensures CommaPosition(value[..k] + Groups(value[k..]), 0) == if k >= 4 then Some(k - 3) else None
  {
    var s := value[..k] + Groups(value[k..]);
    var tail := value[k..];
    assert s[k..] == Groups(tail);
    if k == 0 {
      assert s == [];
    } else {
      if k < |s| {
        assert s[k] == s[k..][0];
      }
      RunEndAt(s, 0, k);
      if k < 4 {
        NoCommaInGroups(s, k, tail);
      }
    }
  }

  /**
   * `formatWithCommas`: while the pattern still matches, insert one more comma.
   * The result is the digit string grouped in threes from the right.
   */
  method FormatWithCommas(value: string) returns (r: string)
    requires IsDigits(value)
    ensures r == Grouped(value)
  {
    ghost var k: nat := |value|;
    r := value;
    assert value[k..] == [];
    var m := CommaPosition(r, 0);
    CommaPositionOfPartial(value, k);
    while m.Some?
      invariant k <= |value| && (|value| - k) % 3 == 0 && (value != [] ==> k > 0)
      invariant r == value[..k] + Groups(value[k..])
      invariant m == CommaPosition(r, 0)
      decreases k
    {
      CommaPositionOfPartial(value, k);
      var p := m.value;
      InsertComma(value, k);
      ThreeMore(|value|, k);
      r := r[..p] + [','] + r[p..];
      k := k - 3;
      m := CommaPosition(r, 0);
    }
    CommaPositionOfPartial(value, k);
    FirstGroupLengthUnique(|value|, k);
  }

  /** Inserting the comma the pattern asks for moves one more block of three into the grouped tail. */
  lemma {:induction false} InsertComma(value: string, k: nat)
    requires IsDigits(value) && 4 <= k <= |value| && (|value| - k) % 3 == 0
    ensures var r := value[..k] + Groups(value[k..]);
      r[..k - 3] + [','] + r[k - 3..] == value[..k - 3] + Groups(value[k - 3..])
  {
    var r := value[..k] + Groups(value[k..]);
    assert r[..k - 3] == value[..k - 3];
    assert r[k - 3..] == value[k - 3..k] + Groups(value[k..]);
    assert value[k - 3..][..3] == value[k - 3..k];
    assert value[k - 3..][3..] == value[k..];
  }

  /** Three digits more keep a count of whole groups of three. */
  lemma {:induction false} ThreeMore(n: nat, k: nat)
    requires 3 <= k <= n && (n - k) % 3 == 0
    ensures (n - (k - 3)) % 3 == 0
  {
  }

  /** The leading block left when the loop stops has the length `Grouped` gives it. */
  lemma {:induction false} FirstGroupLengthUnique(n: nat, k: nat)
    requires k <= n && (n - k) % 3 == 0 && (n > 0 ==> 0 < k) && k < 4
    ensures k == FirstGroupLength(n)
  {
  }

  /** Splitting a block tail at its commas gives the blocks of three. */
  lemma {:induction false} SplitGroups(p: string, t: string)
    requires ',' !in p && IsDigits(t) && |t| % 3 == 0
    ensures |Split(p + Groups(t), ',')| == 1 + |t| / 3
    ensures Split(p + Groups(t), ',')[0] == p
    ensures forall j | 1 <= j < |Split(p + Groups(t), ',')| :: |Split(p + Groups(t), ',')[j]| == 3
    decreases |t|
  {
    if t == [] {
      assert p + Groups(t) == p;
    } else {
      var q, rest := GroupsFirst(t);
      SplitGroups(q, rest);
      var x := q + Groups(rest);
      assert p + Groups(t) == p + [','] + x;
      SplitConcat(p, x, ',');
      assert Split(p, ',') == [p];
      BlocksStep(Split(p + Groups(t), ','), Split(x, ','), p, q, |rest|);
    }
  }

  /** Putting a head segment in front of a block list with head block `q` keeps the later blocks at three. */
  lemma {:induction false} BlocksStep(parts: seq<string>, blocks: seq<string>, p: string, q: string, n: nat)
    requires parts == [p] + blocks && |q| == 3 && |blocks| == 1 + n / 3 && blocks[0] == q
    requires forall j | 1 <= j < |blocks| :: |blocks[j]| == 3
    ensures |parts| == 1 + (n + 3) / 3 && parts[0] == p
    ensures forall j | 1 <= j < |parts| :: |parts[j]| == 3
  {
    assert forall j | 1 <= j < |parts| :: parts[j] == blocks[j - 1];
  }

  /** A non-empty block tail is a comma, a separator-free block `q` of three, and the tail of the rest. */
  lemma {:induction false} GroupsFirst(t: string) returns (q: string, rest: string)
    requires IsDigits(t) && |t| % 3 == 0 && t != []
    ensures q == t[..3] && rest == t[3..] && |q| == 3 && ',' !in q
    ensures IsDigits(rest) && |rest| % 3 == 0 && |rest| == |t| - 3
    ensures forall p :: p + Groups(t) == p + [','] + (q + Groups(rest))
  {
    q, rest := t[..3], t[3..];
    assert ',' !in q by { assert forall m | 0 <= m < 3 :: IsDigit(q[m]); }
    DigitsSlice(t, 3, |t|);
    assert t[3..|t|] == rest;
    forall p: string ensures p + Groups(t) == p + [','] + (q + Groups(rest)) {
      AppendAssoc(p, [','] + q, Groups(rest));
      AppendAssoc(p, [','], q + Groups(rest));
      AppendAssoc([','], q, Groups(rest));
    }
  }

  /** Deleting the commas of a block tail gives back its digits. */
  lemma {:induction false} RemoveCommasFromGroups(t: string)
    requires |t| % 3 == 0 && IsDigits(t)
    ensures RemoveAll(Groups(t), ',') == t
    decreases |t|
  {
    if t != [] {
      var q, rest := GroupsFirst(t);
      RemoveCommasFromGroups(rest);
      var c := [','] + q;
      assert Groups(t) == c + Groups(rest);
      RemoveAllConcat(c, Groups(rest), ',');
      RemoveAllConcat([','], q, ',');
      RemoveAllAbsent(q, ',');
      assert RemoveAll([','], ',') == [];
      assert RemoveAll(c, ',') == q;
      SliceJoin(t, 3);
    }
  }

  /** A grouped number is its leading group followed by the comma-led blocks of the rest. */
  lemma {:induction false} GroupedParts(d: string) returns (head: string, tail: string)
    requires IsDigits(d)
    ensures head == d[..FirstGroupLength(|d|)] && tail == d[FirstGroupLength(|d|)..]
    ensures Grouped(d) == head + Groups(tail) && head + tail == d
    ensures IsDigits(head) && ',' !in head && IsDigits(tail) && |tail| % 3 == 0
    ensures d != [] ==> 1 <= |head| <= 3
  {
    var k := FirstGroupLength(|d|);
    FirstGroupLengthFits(|d|);
    head, tail := d[..k], d[k..];
    DigitsPrefix(d, k);
    DigitsSuffix(d, k);
    DigitsExclude(head, ',');
    SliceJoin(d, k);
  }

  /** Deleting the commas of a grouped number gives back its digits. */
  lemma {:induction false} GroupedDigits(d: string)
    requires IsDigits(d)
    ensures RemoveAll(Grouped(d), ',') == d
  {
    var head, tail := GroupedParts(d);
    RemoveCommasFromGroups(tail);
    RemoveAllAbsent(head, ',');
    RemoveAllConcat(head, Groups(tail), ',');
  }

  /** The leading group of a grouped number holds one to three digits and every later group exactly three. */
  lemma {:induction false} GroupedBlocks(d: string)
    requires IsDigits(d) && d != []
    ensures 1 <= |Split(Grouped(d), ',')[0]| <= 3
    ensures forall j | 1 <= j < |Split(Grouped(d), ',')| :: |Split(Grouped(d), ',')[j]| == 3
  {
    var head, tail := GroupedParts(d);
    SplitGroups(head, tail);
  }

  /** Every character of a grouped number is a digit or a comma. */
  lemma {:induction false} GroupsChars(t: string)
    requires |t| % 3 == 0 && IsDigits(t)
    ensures forall i | 0 <= i < |Groups(t)| :: IsDigit(Groups(t)[i]) || Groups(t)[i] == ','
    decreases |t|
  {
    if t != [] {
      GroupsChars(t[3..]);
      var g := Groups(t);
      assert g == [','] + t[..3] + Groups(t[3..]);
      forall i | 0 <= i < |g| ensures IsDigit(g[i]) || g[i] == ',' {
        if 1 <= i < 4 {
          assert g[i] == t[i - 1];
        } else if 4 <= i {
          assert g[i] == Groups(t[3..])[i - 4];
        }
      }
    }
  }

  /** A grouped number starts and ends with a digit, and holds only digits and commas. */
  lemma {:induction false} GroupedChars(d: string)
    requires IsDigits(d) && d != []
    ensures Grouped(d) != [] && IsDigit(Grouped(d)[0]) && IsDigit(Grouped(d)[|Grouped(d)| - 1])
    ensures forall i | 0 <= i < |Grouped(d)| :: IsDigit(Grouped(d)[i]) || Grouped(d)[i] == ','
  {
    var head, tail := GroupedParts(d);
    var k := |head|;
    var g := Grouped(d);
    GroupsChars(tail);
    assert g[0] == head[0];
    forall i | 0 <= i < |g| ensures IsDigit(g[i]) || g[i] == ',' {
      if i >= k {
        assert g[i] == Groups(tail)[i - k];
      }
    }
    if tail == [] {
      assert g[|g| - 1] == head[k - 1];
    } else {
      var t := Groups(tail);
      assert t == [','] + tail[..3] + Groups(tail[3..]);
      LastOfGroups(tail);
      assert g[|g| - 1] == t[|t| - 1];
    }
  }

  lemma {:induction false} LastOfGroups(t: string)
    requires |t| % 3 == 0 && IsDigits(t) && t != []
    ensures IsDigit(Groups(t)[|Groups(t)| - 1])
    decreases |t|
  {
    var g := Groups(t);
    assert g == [','] + t[..3] + Groups(t[3..]);
    if t[3..] == [] {
      assert g[|g| - 1] == t[2];
    } else {
      LastOfGroups(t[3..]);
    }
  }

  // ---------------------------------------------------------------------
  // trimTrailingZeroes, trimLeadingZeroes, cleanupAmount, padding
  // ---------------------------------------------------------------------

  /** Whether `/\.?0*$/` matches all of `t`: only zeros, possibly after one leading dot. */
  predicate TrailingZeroesMatch(t: string)
  {
    AllZeros(t) || (t != [] && t[0] == '.' && AllZeros(t[1..]))
  }

  /** Start of the leftmost match of `/\.?0*$/` at or after `p` (the empty match at the end always exists). */
  function TrailingMatchStart(s: string, p: nat): (q: nat)
    requires p <= |s|
    ensures p <= q <= |s| && TrailingZeroesMatch(s[q..])
    ensures forall x | p <= x < q :: !TrailingZeroesMatch(s[x..])
    decreases |s| - p
  {
    if TrailingZeroesMatch(s[p..]) then p else TrailingMatchStart(s, p + 1)
  }

  /**
   * `trimTrailingZeroes`: `value.replace(/\.?0*$/, '')`. The result is a
   * prefix of `value`; what is removed matches `/\.?0*$/`, and no longer
   * suffix does (the regular expression takes the leftmost match).
   */
  function TrimTrailingZeroes(value: string): (r: string)
    ensures |r| <= |value| && r == value[..|r|]
    ensures TrailingZeroesMatch(value[|r|..])
    ensures forall x | 0 <= x < |r| :: !TrailingZeroesMatch(value[x..])
  {
    value[..TrailingMatchStart(value, 0)]
  }

  /** On `w.f` with a dot-free `w`, the match of `/\.?0*$/` cannot start inside `w`. */
  lemma {:induction false} TrimStartsAfterWhole(w: string, f: string)
    requires '.' !in w
    ensures TrailingMatchStart(w + "." + f, 0) >= |w|
  {
    var s := w + "." + f;
    var q := TrailingMatchStart(s, 0);
    forall x | 0 <= x < |w| ensures !TrailingZeroesMatch(s[x..]) {
      assert s[x..][|w| - x] == '.';
      assert s[x..][0] == w[x];
    }
    assert TrailingZeroesMatch(s[q..]);
  }

  /** An all-zero fraction is trimmed together with its dot. */
  lemma {:induction false} TrimZeroFraction(w: string, f: string)
    requires '.' !in w && AllZeros(f)
    ensures TrimTrailingZeroes(w + "." + f) == w
  {
    var s := w + "." + f;
    TrimStartsAfterWhole(w, f);
    assert s[|w|..] == "." + f;
    assert s[|w|..][1..] == f;
    assert TrailingZeroesMatch(s[|w|..]);
    assert s[..|w|] == w;
  }

  /**
   * Otherwise only the zeros after the last non-zero fraction digit are
   * trimmed: `j` fraction digits stay, the last of them not `0`.
   */
  lemma {:induction false} TrimNonZeroFraction(w: string, f: string) returns (j: nat)
    requires '.' !in w && IsDigits(f) && !AllZeros(f)
    ensures 0 < j <= |f| && f[j - 1] != '0' && AllZeros(f[j..])
    ensures TrimTrailingZeroes(w + "." + f) == w + "." + f[..j]
  {
    var s := w + "." + f;
    var q := TrailingMatchStart(s, 0);
    TrimStartsAfterWhole(w, f);
    if q > |w| {
      assert !TrailingZeroesMatch(s[q - 1..]);
    }
    j := FractionCut(w, f, q);
    FractionPrefix(w, f, j);
  }

  /** A leftmost match at `q` in `w.f` keeps the fraction digits up to its last non-zero one. */
  lemma {:induction false} FractionCut(w: string, f: string, q: nat) returns (j: nat)
    requires '.' !in w && IsDigits(f) && !AllZeros(f)
    requires |w| <= q <= |w| + 1 + |f| && TrailingZeroesMatch((w + "." + f)[q..])
    requires q > |w| ==> !TrailingZeroesMatch((w + "." + f)[q - 1..])
    ensures q == |w| + 1 + j && 0 < j <= |f| && f[j - 1] != '0' && AllZeros(f[j..])
  {
    DotSuffix(w, f);
    DotNoMatch(f);
    j := q - |w| - 1;
    MatchAt(w, f, j);
    MatchAt(w, f, j - 1);
    if f[j - 1] == '0' {
      ZerosPrepend(f, j);
    }
  }

  /** A dot followed by a fraction that is not all zeros is no match of `/\.?0*$/`. */
  lemma {:induction false} DotNoMatch(f: string)
    requires !AllZeros(f)
    ensures !TrailingZeroesMatch("." + f)
  {
    assert ("." + f)[0] == '.' && ("." + f)[1..] == f;
  }

  /** The pattern matches `w.f` from the `k`-th fraction digit on exactly when the rest of `f` is zeros. */
  lemma {:induction false} MatchAt(w: string, f: string, k: nat)
    requires IsDigits(f) && k <= |f|
    ensures TrailingZeroesMatch((w + "." + f)[|w| + 1 + k..]) <==> AllZeros(f[k..])
    ensures k == 0 ==> f[k..] == f
  {
    FractionSuffix(w, f, k);
    DigitsSlice(f, k, |f|);
    assert f[k..|f|] == f[k..];
    DigitsMatch(f[k..]);
  }

  /** `w.f` cut after `j > 0` fraction digits ends in the `j`-th digit. */
  lemma {:induction false} LastAfterDot(w: string, f: string, j: nat)
    requires 0 < j <= |f|
    ensures var r := w + "." + f[..j]; r != [] && r[|r| - 1] == f[j - 1]
  {
  }

  /** From the dot on, `w.f` reads `.f`. */
  lemma {:induction false} DotSuffix(w: string, f: string)
    ensures (w + "." + f)[|w|..] == "." + f && ("." + f)[1..] == f
  {
  }

  /** After the dot and `k` fraction digits, `w.f` reads the rest of `f`. */
  lemma {:induction false} FractionSuffix(w: string, f: string, k: nat)
    requires k <= |f|
    ensures (w + "." + f)[|w| + 1 + k..] == f[k..]
  {
  }

  /** Up to the dot and `k` fraction digits, `w.f` reads `w.` and the first `k` digits of `f`. */
  lemma {:induction false} FractionPrefix(w: string, f: string, k: nat)
    requires k <= |f|
    ensures (w + "." + f)[..|w| + 1 + k] == w + "." + f[..k]
  {
  }

  /** On digits the pattern `/\.?0*$/` matches exactly the strings of zeros. */
  lemma {:induction false} DigitsMatch(t: string)
    requires IsDigits(t)
    ensures TrailingZeroesMatch(t) <==> AllZeros(t)
  {
    if t != [] {
      assert IsDigit(t[0]);
    }
  }

  /** A `0` in front of zeros leaves only zeros. */
  lemma {:induction false} ZerosPrepend(f: string, j: nat)
    requires 0 < j <= |f| && f[j - 1] == '0' && AllZeros(f[j..])
    ensures AllZeros(f[j - 1..])
  {
    var g, h := f[j - 1..], f[j..];
    forall k | 0 <= k < |g| ensures g[k] == '0' {
      if k > 0 {
        assert g[k] == h[k - 1];
      }
    }
  }

  /** A grouped number holds no dot. */
  lemma {:induction false} GroupedNoDot(d: string)
    requires IsDigits(d) && d != []
    ensures '.' !in Grouped(d)
  {
    GroupedChars(d);
  }

  /** The leading run of `0` characters removed (`/^0+/`). */
  function DropLeadingZeros(s: string): (r: string)
    ensures |r| <= |s| && r == s[|s| - |r|..]
    ensures forall i | 0 <= i < |s| - |r| :: s[i] == '0'
    ensures r == [] || r[0] != '0'
  {
    if s != [] && s[0] == '0' then
      var r := DropLeadingZeros(s[1..]);
      assert s[1..][|s| - 1 - |r|..] == s[|s| - |r|..];
      assert forall i | 1 <= i < |s| - |r| :: s[i] == s[1..][i - 1];
      r
    else s
  }

  /**
   * `trimLeadingZeroes`: strip the leading zeros, and answer "0" when nothing
   * is left. The result is never empty and starts with `0` only when it is "0";
   * on digits it keeps the value.
   */
  function TrimLeadingZeroes(value: string): (r: string)
    ensures r != [] && (r[0] == '0' ==> r == "0")
    ensures IsDigits(value) ==> IsCanonical(r) && ValueOf(r) == ValueOf(value)
  {
    DropLeadingZerosValue(value);
    ZeroDigitValue();
    var t := DropLeadingZeros(value);
    if t == [] then "0" else t
  }

  /** The string "0" is a canonical spelling of zero. */
  lemma {:induction false} ZeroDigitValue()
    ensures IsDigits("0") && ValueOf("0") == 0 && IsCanonical("0")
  {
    assert "0"[..0] == "";
  }

  lemma {:induction false} DropLeadingZerosValue(s: string)
    ensures IsDigits(s) ==> IsDigits(DropLeadingZeros(s)) && ValueOf(DropLeadingZeros(s)) == ValueOf(s)
  {
    var t := DropLeadingZeros(s);
    var k := |s| - |t|;
    assert s == s[..k] + t;
    assert AllZeros(s[..k]) by {
      assert forall i | 0 <= i < k :: s[..k][i] == s[i];
    }
    if IsDigits(s) {
      ValueOfZeros(s[..k]);
      ValueOfConcat(s[..k], t);
    }
  }

  /** On digits, trimming leading zeros prints the value canonically. */
  lemma {:induction false} TrimLeadingZeroesIsDecimal(value: string)
    requires IsDigits(value)
    ensures TrimLeadingZeroes(value) == DecimalOf(ValueOf(value))
  {
    ValueOfDecimal(TrimLeadingZeroes(value));
  }

  /** The characters JavaScript's `String.prototype.trim` removes: WhiteSpace and LineTerminator. */
  predicate IsJsWhitespace(c: char)
  {
    c == '\t' || c == '\n' || c == '\U{000B}' || c == '\U{000C}' || c == '\r' || c == ' ' ||
    c == '\U{00A0}' || c == '\U{1680}' || ('\U{2000}' <= c <= '\U{200A}') ||
    c == '\U{2028}' || c == '\U{2029}' || c == '\U{202F}' || c == '\U{205F}' ||
    c == '\U{3000}' || c == '\U{FEFF}'
  }

  /** `s` without its leading whitespace: only whitespace is dropped, and all of it. */
  function TrimStart(s: string): (r: string)
    ensures r == [] || !IsJsWhitespace(r[0])
    ensures |r| <= |s| && r == s[|s| - |r|..]
    ensures forall k | 0 <= k < |s| - |r| :: IsJsWhitespace(s[k])
  {
    if s != [] && IsJsWhitespace(s[0]) then TrimStart(s[1..]) else s
  }

  /** `s` without its trailing whitespace: only whitespace is dropped, and all of it. */
  function TrimEnd(s: string): (r: string)
    ensures r == [] || !IsJsWhitespace(r[|r| - 1])
    ensures |r| <= |s| && r == s[..|r|]
    ensures forall k | |r| <= k < |s| :: IsJsWhitespace(s[k])
  {
    if s != [] && IsJsWhitespace(s[|s| - 1]) then TrimEnd(s[..|s| - 1]) else s
  }

  /** `String.prototype.trim`. */
  function Trim(s: string): string
  {
    TrimEnd(TrimStart(s))
  }

  /**
   * `cleanupAmount`: delete every comma, then trim surrounding whitespace.
   * The result holds no comma and neither starts nor ends with whitespace,
   * and it is a contiguous piece of the comma-free input.
   */
  function CleanupAmount(amount: string): (r: string)
    ensures ',' !in r
    ensures r == [] || (!IsJsWhitespace(r[0]) && !IsJsWhitespace(r[|r| - 1]))
  {
    Trim(RemoveAll(amount, ','))
  }

  /**
   * What cleanup keeps: the comma-free text between positions `i` and `j`,
   * with only whitespace before `i` and after `j`.
   */
  lemma {:induction false} CleanupPiece(amount: string) returns (i: nat, j: nat)
    ensures var c := RemoveAll(amount, ',');
      i <= j <= |c| && CleanupAmount(amount) == c[i..j] &&
      (forall k | 0 <= k < i :: IsJsWhitespace(c[k])) &&
      (forall k | j <= k < |c| :: IsJsWhitespace(c[k]))
  {
    var c := RemoveAll(amount, ',');
    var t := TrimStart(c);
    var r := TrimEnd(t);
    assert CleanupAmount(amount) == r;
    i := |c| - |t|;
    j := i + |r|;
    assert t == c[i..];
    assert r == t[..|r|];
    assert r == c[i..j];
    ShiftedWhitespace(c, t, i, |r|);
  }

  /** Whitespace at the end of a suffix `t == c[i..]` is whitespace at the end of `c`. */
  lemma {:induction false} ShiftedWhitespace(c: string, t: string, i: nat, m: nat)
    requires i <= |c| && t == c[i..] && m <= |t|
    requires forall k | m <= k < |t| :: IsJsWhitespace(t[k])
    ensures forall k | i + m <= k < |c| :: IsJsWhitespace(c[k])
  {
    forall k | i + m <= k < |c| ensures IsJsWhitespace(c[k]) {
      assert c[k] == t[k - i];
    }
  }

  /** Deleting `c` keeps every other character, in order, between what is kept before and after it. */
  lemma {:induction false} RemoveAllKeeps(s: string, c: char, i: nat)
    requires i < |s| && s[i] != c
    ensures RemoveAll(s, c) == RemoveAll(s[..i], c) + [s[i]] + RemoveAll(s[i + 1..], c)
  {
    assert s == s[..i] + ([s[i]] + s[i + 1..]);
    RemoveAllConcat(s[..i], [s[i]] + s[i + 1..], c);
    assert ([s[i]] + s[i + 1..])[1..] == s[i + 1..];
  }

  /** Deleting `c` drops exactly the occurrences of `c`. */
  lemma {:induction false} RemoveAllLength(s: string, c: char)
    ensures |RemoveAll(s, c)| == |s| - Count(s, c)
    decreases |s|
  {
    if s != [] {
      RemoveAllLength(s[1..], c);
    }
  }

  /** Trimming leaves a string alone when its ends are not whitespace. */
  lemma {:induction false} TrimUnchanged(s: string)
    requires s != [] && !IsJsWhitespace(s[0]) && !IsJsWhitespace(s[|s| - 1])
    ensures Trim(s) == s
  {
  }

  /** `s.padStart(n, c)`. */
  function PadStart(s: string, n: nat, c: char): string
  {
    if |s| < n then Repeat(c, n - |s|) + s else s
  }

  /** `s.padEnd(n, c)`. */
  function PadEnd(s: string, n: nat, c: char): string
  {
    if |s| < n then s + Repeat(c, n - |s|) else s
  }

  /** Zeros already at the end of a string make no difference once it is padded with zeros. */
  lemma {:induction false} PadEndAbsorbsZeros(a: string, z: string, n: nat)
    requires AllZeros(z) && |a| + |z| <= n
    ensures PadEnd(a, n, '0') == PadEnd(a + z, n, '0')
  {
    var l, r := PadEnd(a, n, '0'), PadEnd(a + z, n, '0');
    assert |l| == |r| == n;
    forall i | 0 <= i < n ensures l[i] == r[i] {
      if i < |a| {
        assert l[i] == a[i] && r[i] == (a + z)[i];
      } else if i < |a| + |z| {
        assert r[i] == z[i - |a|];
      }
    }
  }

  // ---------------------------------------------------------------------
  // parseStreamAmount
  // ---------------------------------------------------------------------

  /** What `parseStreamAmount` does with its argument: `null`, an amount in units, or the thrown error. */
  datatype ParseResult = NoAmount | Units(units: string) | CannotParse(amount: string)

  /**
   * `parseStreamAmount`: `None` is JavaScript's `undefined`. An absent or empty
   * argument gives `null`; a non-empty one is cleaned up and split at `.`.
   * Non-digit characters are not rejected. `null` comes back exactly for an
   * absent or empty argument, an error carries the cleaned-up argument, and
   * an amount in units is never empty and has no leading zero unless it is "0".
   */
  function ParseStreamAmount(amt: Option<string>): (r: ParseResult)
    ensures r.NoAmount? <==> amt == None || amt == Some("")
    ensures r.CannotParse? ==> amt.Some? && r.amount == CleanupAmount(amt.value)
    ensures r.Units? ==> r.units != [] && (r.units[0] == '0' ==> r.units == "0")
  {
    if amt.None? || amt.value == "" then NoAmount
    else ParseCleaned(CleanupAmount(amt.value))
  }

  /**
   * The rest of `parseStreamAmount`, on the cleaned-up argument: split at
   * `.`, reject more than one dot or more than 24 fraction digits, pad the
   * fraction to 24 digits and drop leading zeros.
   */
  function ParseCleaned(a: string): (r: ParseResult)
    ensures !r.NoAmount? && (r.CannotParse? ==> r.amount == a)
  {
    var split := Split(a, '.');
    var wholePart := split[0];
    var fracPart := if |split| > 1 then split[1] else "";
    if |split| > 2 || |fracPart| > STREAM_NOMINATION_EXP then CannotParse(a)
    else Units(TrimLeadingZeroes(wholePart + PadEnd(fracPart, STREAM_NOMINATION_EXP, '0')))
  }

  /** The number of units `w.f` STREAM stands for: w * 10^24 + f * 10^(24 - |f|). */
  function AmountValue(w: string, f: string): nat
    requires IsDigits(w) && IsDigits(f) && |f| <= STREAM_NOMINATION_EXP
  {
    ValueOf(w) * STREAM_NOMINATION + Scaled(ValueOf(f), STREAM_NOMINATION_EXP - |f|)
  }

  /** `x` followed by `e` zeros. */
  function Scaled(x: nat, e: nat): nat
  {
    ScaledNat(x, Pow10(e));
    x * Pow10(e)
  }

  lemma {:induction false} ScaledNat(x: nat, p: nat)
    ensures x * p >= 0
  {
  }

  /**
   * Parsing scales by 10^24: an argument that cleans up to digits `w`, a dot
   * and at most 24 digits `f` gives the decimal of w * 10^24 + f * 10^(24 - |f|).
   */
  lemma {:induction false} ParseScales(amt: string, w: string, f: string)
    requires amt != "" && IsDigits(w) && IsDigits(f) && |f| <= STREAM_NOMINATION_EXP
    requires CleanupAmount(amt) == w + "." + f
    ensures ParseStreamAmount(Some(amt)) == Units(DecimalOf(AmountValue(w, f)))
  {
    var x := w + PadEnd(f, STREAM_NOMINATION_EXP, '0');
    PaddedValue(w, f);
    TrimLeadingZeroesIsDecimal(x);
    ParseCleanedDotted(amt, w, f);
  }

  /**
   * Parsing scales a whole amount by 10^24: an argument that cleans up to
   * digits `w` alone gives the decimal of w * 10^24.
   */
  lemma {:induction false} ParseScalesWhole(amt: string, w: string)
    requires amt != "" && IsDigits(w) && CleanupAmount(amt) == w
    ensures ParseStreamAmount(Some(amt)) == Units(DecimalOf(ValueOf(w) * STREAM_NOMINATION))
  {
    ParseNonEmpty(amt);
    ParseWhole(w);
    PaddedValue(w, "");
    TrimLeadingZeroesIsDecimal(w + PadEnd("", STREAM_NOMINATION_EXP, '0'));
  }

  /**
   * Digits that only one value could print: a string of digits worth zero is all zeros.
   */
  lemma {:induction false} ZeroValueIsZeros(s: string)
    requires IsDigits(s) && ValueOf(s) == 0
    ensures AllZeros(s)
    decreases |s|
  {
    if s != [] {
      ZeroValueIsZeros(s[..|s| - 1]);
      assert forall i | 0 <= i < |s| - 1 :: s[i] == s[..|s| - 1][i];
    }
  }

  /**
   * The error cases: a non-empty argument fails exactly when its cleaned-up
   * form has more than one dot, or one dot followed by more than 24
   * characters; the error carries the cleaned-up form.
   */
  lemma {:induction false} ParseErrors(amt: string)
    requires amt != ""
    ensures var a := CleanupAmount(amt);
      var r := ParseStreamAmount(Some(amt));
      (r.CannotParse? <==>
        Count(a, '.') > 1 || ('.' in a && Count(a, '.') == 1 && |a| - IndexOf(a, '.') - 1 > STREAM_NOMINATION_EXP)) &&
      (r.CannotParse? ==> r.amount == a)
  {
    ParseNonEmpty(amt);
    ParseCleanedErrors(CleanupAmount(amt));
  }

  /** The error cases of the split, on the cleaned-up argument. */
  lemma {:induction false} ParseCleanedErrors(a: string)
    ensures var r := ParseCleaned(a);
      (r.CannotParse? <==>
        Count(a, '.') > 1 || ('.' in a && Count(a, '.') == 1 && |a| - IndexOf(a, '.') - 1 > STREAM_NOMINATION_EXP)) &&
      (r.CannotParse? ==> r.amount == a)
  {
    SplitShape(a, '.');
    if '.' in a && Count(a, '.') == 1 {
      SplitOnce(a, '.');
    }
  }

  /** Cleanup leaves a comma-free string alone when its ends are not whitespace. */
  lemma {:induction false} CleanupUnchanged(a: string)
    requires a != [] && ',' !in a && !IsJsWhitespace(a[0]) && !IsJsWhitespace(a[|a| - 1])
    ensures CleanupAmount(a) == a
  {
    RemoveAllAbsent(a, ',');
    TrimUnchanged(a);
  }

  /** Digits, one dot, digits: split into exactly those two parts. */
  lemma {:induction false} SplitDotted(w: string, f: string)
    requires IsDigits(w) && IsDigits(f)
    ensures Split(w + "." + f, '.') == [w, f]
  {
    DigitsExclude(w, '.');
    DigitsExclude(f, '.');
    SplitConcat(w, f, '.');
    FirstSegment(w, '.');
    FirstSegment(f, '.');
  }

  /** A non-empty argument is cleaned up and handed to the split. */
  lemma {:induction false} ParseNonEmpty(amt: string)
    requires amt != ""
    ensures ParseStreamAmount(Some(amt)) == ParseCleaned(CleanupAmount(amt))
  {
  }

  /** `w.f` splits into `w` and `f`, which parse to `w` followed by `f` padded to 24 digits. */
  lemma {:induction false} ParseDotted(w: string, f: string)
    requires IsDigits(w) && IsDigits(f) && |f| <= STREAM_NOMINATION_EXP
    ensures ParseCleaned(w + "." + f) == Units(TrimLeadingZeroes(w + PadEnd(f, STREAM_NOMINATION_EXP, '0')))
  {
    SplitDotted(w, f);
  }

  /** The digits `w` alone parse to `w` followed by 24 zeros. */
  lemma {:induction false} ParseWhole(w: string)
    requires IsDigits(w)
    ensures ParseCleaned(w) == Units(TrimLeadingZeroes(w + PadEnd("", STREAM_NOMINATION_EXP, '0')))
  {
    DigitsExclude(w, '.');
    FirstSegment(w, '.');
  }

  /** An argument that cleans up to `w.f` parses to `w` followed by `f` padded to 24 digits. */
  lemma {:induction false} ParseCleanedDotted(amt: string, w: string, f: string)
    requires amt != "" && IsDigits(w) && IsDigits(f) && |f| <= STREAM_NOMINATION_EXP
    requires CleanupAmount(amt) == w + "." + f
    ensures ParseStreamAmount(Some(amt)) == Units(TrimLeadingZeroes(w + PadEnd(f, STREAM_NOMINATION_EXP, '0')))
  {
    ParseNonEmpty(amt);
    ParseDotted(w, f);
  }

  // ---------------------------------------------------------------------
  // formatStreamAmount
  // ---------------------------------------------------------------------

  /** The whole part `balance.substring(0, balance.length - 24) || '0'`: all digits but the last 24, or "0" when there are no more than 24. */
  function WholeDigits(digits: string): string
  {
    if |digits| > STREAM_NOMINATION_EXP then digits[..|digits| - STREAM_NOMINATION_EXP] else "0"
  }

  /** The fraction part `balance.substring(balance.length - 24).padStart(24, '0')`, before the cut to `fracDigits`: the last 24 digits, left-padded with zeros to 24. */
  function FractionDigits(digits: string): string
  {
    var tail := if |digits| > STREAM_NOMINATION_EXP then digits[|digits| - STREAM_NOMINATION_EXP..] else digits;
    PadStart(tail, STREAM_NOMINATION_EXP, '0')
  }

  /**
   * The rounding step of `formatStreamAmount` as written: no adjustment at full precision; otherwise the
   * offset at `roundingExp = 24 - fracDigits - 1`, but only when that is
   * positive, so `fracDigits == 23` is not rounded either.
   */
  function RoundingAdjustment(fracDigits: nat): nat
    requires fracDigits <= STREAM_NOMINATION_EXP
  {
    if fracDigits != STREAM_NOMINATION_EXP && STREAM_NOMINATION_EXP - fracDigits - 1 > 0
    then 5 * Pow10(STREAM_NOMINATION_EXP - fracDigits - 1)
    else 0
  }

  /**
   * The printing step of `formatStreamAmount`: print an adjusted balance of `n` units with `fracDigits`
   * fraction digits. The display ends in a digit, never in `.`, and not in
   * `0` when a dot is left.
   */
  function Render(n: nat, fracDigits: nat): (r: string)
    requires fracDigits <= STREAM_NOMINATION_EXP
    ensures r != [] && IsDigit(r[|r| - 1]) && ('.' in r ==> r[|r| - 1] != '0')
  {
    var digits := DecimalOf(n);
    var w, ff := WholeDigits(digits), FractionDigits(digits)[..fracDigits];
    NominationShape(n);
    DigitsSlice(FractionDigits(digits), 0, fracDigits);
    assert ff == FractionDigits(digits)[0..fracDigits];
    DisplayShape(w, ff);
    TrimTrailingZeroes(Grouped(w) + "." + ff)
  }

  /** What `formatStreamAmount(balance, fracDigits)` returns. */
  function FormatSpec(balance: string, fracDigits: nat): string
    requires IsDigits(balance) && fracDigits <= STREAM_NOMINATION_EXP
  {
    Render(Adjusted(balance, fracDigits), fracDigits)
  }

  /** The balance after `balanceBN.iadd(ROUNDING_OFFSETS[roundingExp])`, when that runs. */
  function Adjusted(balance: string, fracDigits: nat): nat
    requires IsDigits(balance) && fracDigits <= STREAM_NOMINATION_EXP
  {
    ValueOf(balance) + RoundingAdjustment(fracDigits)
  }

  /**
   * `formatStreamAmount`, reading its offset from the precomputed table. The
   * `BN` is parsed from `balance`, adjusted in place, printed, split at 24
   * digits, grouped, joined with `.` and trimmed.
   */
  method FormatStreamAmount(offsets: seq<nat>, balance: string, fracDigits: nat := STREAM_NOMINATION_EXP)
    returns (r: string)
    requires IsRoundingTable(offsets)
    requires IsDigits(balance) && fracDigits <= STREAM_NOMINATION_EXP
    ensures r == FormatSpec(balance, fracDigits)
  {
    AdjustmentFromTable(offsets, fracDigits);
    var balanceBN := ValueOf(balance);
    if fracDigits != STREAM_NOMINATION_EXP {
      var roundingExp := STREAM_NOMINATION_EXP - fracDigits - 1;
      if roundingExp > 0 {
        balanceBN := balanceBN + offsets[roundingExp];
      }
    }
    var printed := DecimalOf(balanceBN);
    NominationShape(balanceBN);
    var wholeStr := WholeDigits(printed);
    var fractionStr := FractionDigits(printed)[..fracDigits];
    var grouped := FormatWithCommas(wholeStr);
    r := TrimTrailingZeroes(grouped + "." + fractionStr);
    assert balanceBN == Adjusted(balance, fracDigits);
  }

  /** The adjustment is the table entry at `roundingExp` whenever the rounding branch is taken. */
  lemma {:induction false} AdjustmentFromTable(offsets: seq<nat>, fracDigits: nat)
    requires IsRoundingTable(offsets) && fracDigits <= STREAM_NOMINATION_EXP
    ensures RoundingAdjustment(fracDigits) ==
      if fracDigits != STREAM_NOMINATION_EXP && STREAM_NOMINATION_EXP - fracDigits - 1 > 0
      then offsets[STREAM_NOMINATION_EXP - fracDigits - 1] else 0
  {
  }

  /** Splitting the printed balance at 24 digits gives a canonical whole part and 24 fraction digits. */
  lemma {:induction false} NominationShape(n: nat)
    ensures var digits := DecimalOf(n);
      IsCanonical(WholeDigits(digits)) && IsDigits(FractionDigits(digits)) &&
      |FractionDigits(digits)| == STREAM_NOMINATION_EXP
  {
    var d := DecimalOf(n);
    DecimalOfValue(n);
    if |d| > STREAM_NOMINATION_EXP {
      DigitsSlice(d, 0, |d| - STREAM_NOMINATION_EXP);
      DigitsSlice(d, |d| - STREAM_NOMINATION_EXP, |d|);
      assert d[|d| - STREAM_NOMINATION_EXP..] == d[|d| - STREAM_NOMINATION_EXP..|d|];
    } else {
      var z := Repeat('0', STREAM_NOMINATION_EXP - |d|);
      ValueOfZeros(z);
    }
  }

  /**
   * Splitting the printed balance at 24 digits divides it by 10^24: the whole
   * part is the quotient, the padded fraction the 24-digit remainder.
   */
  lemma {:induction false} NominationSplit(n: nat)
    ensures var digits := DecimalOf(n);
      IsDigits(WholeDigits(digits)) && IsDigits(FractionDigits(digits)) &&
      ValueOf(WholeDigits(digits)) == n / STREAM_NOMINATION &&
      ValueOf(FractionDigits(digits)) == n % STREAM_NOMINATION
  {
    var d := DecimalOf(n);
    NominationShape(n);
    DecimalOfValue(n);
    if |d| > STREAM_NOMINATION_EXP {
      LongSplit(d, n);
    } else {
      ShortSplit(d, n);
    }
  }

  /** More than 24 digits: the whole part is the leading digits, the fraction the last 24. */
  lemma {:induction false} LongSplit(d: string, n: nat)
    requires IsDigits(d) && ValueOf(d) == n && |d| > STREAM_NOMINATION_EXP
    ensures IsDigits(WholeDigits(d)) && IsDigits(FractionDigits(d))
    ensures ValueOf(WholeDigits(d)) == n / STREAM_NOMINATION && ValueOf(FractionDigits(d)) == n % STREAM_NOMINATION
  {
    var k := |d| - STREAM_NOMINATION_EXP;
    var P := STREAM_NOMINATION;
    NominationIsPower();
    DigitsSplit(d, k);
    ValueBound(d[k..]);
    assert WholeDigits(d) == d[..k];
    assert FractionDigits(d) == d[k..];
    DivModUnique(n, P, ValueOf(d[..k]), ValueOf(d[k..]));
  }

  /** At most 24 digits: the whole part is `0`, the fraction the digits padded with zeros. */
  lemma {:induction false} ShortSplit(d: string, n: nat)
    requires IsDigits(d) && ValueOf(d) == n && |d| <= STREAM_NOMINATION_EXP
    ensures IsDigits(WholeDigits(d)) && IsDigits(FractionDigits(d))
    ensures ValueOf(WholeDigits(d)) == n / STREAM_NOMINATION && ValueOf(FractionDigits(d)) == n % STREAM_NOMINATION
  {
    var z := Repeat('0', STREAM_NOMINATION_EXP - |d|);
    var f := FractionDigits(d);
    assert f == z + d;
    ValueOfZeros(z);
    ValueOfConcat(z, d);
    ValueBound(d);
    BelowNomination(n, |d|);
    DivModUnique(n, STREAM_NOMINATION, 0, n);
    assert WholeDigits(d) == "0";
    assert ValueOf("0") == 10 * ValueOf("") + DigitValue('0');
  }

  /** A value of at most 24 digits is below 10^24. */
  lemma {:induction false} BelowNomination(x: nat, k: nat)
    requires x < Pow10(k) && k <= STREAM_NOMINATION_EXP
    ensures x < STREAM_NOMINATION
  {
    Pow10Monotone(k, STREAM_NOMINATION_EXP);
    NominationIsPower();
  }

  /** The display of `n` is the grouped whole digits, a dot and the first `fracDigits` fraction digits, trimmed. */
  lemma {:induction false} RenderParts(n: nat, fracDigits: nat) returns (w: string, ff: string)
    requires fracDigits <= STREAM_NOMINATION_EXP
    ensures w == WholeDigits(DecimalOf(n)) && ff == FractionDigits(DecimalOf(n))[..fracDigits]
    ensures IsCanonical(w) && IsDigits(ff) && |ff| == fracDigits
    ensures Render(n, fracDigits) == TrimTrailingZeroes(Grouped(w) + "." + ff)
  {
    var d := DecimalOf(n);
    w, ff := WholeDigits(d), FractionDigits(d)[..fracDigits];
    NominationShape(n);
    DigitsSlice(FractionDigits(d), 0, fracDigits);
    assert FractionDigits(d)[..fracDigits] == FractionDigits(d)[0..fracDigits];
  }

  /** Parsing a rendered amount gives the digits shown: whole part and the `fracDigits` fraction digits, then zeros. */
  lemma {:induction false} ParseRendered(n: nat, fracDigits: nat)
    requires fracDigits <= STREAM_NOMINATION_EXP
    ensures var digits := DecimalOf(n);
      ParseStreamAmount(Some(Render(n, fracDigits))) ==
      Units(TrimLeadingZeroes(WholeDigits(digits) + PadEnd(FractionDigits(digits)[..fracDigits], STREAM_NOMINATION_EXP, '0')))
  {
    var w, ff := RenderParts(n, fracDigits);
    ParseDisplay(w, ff);
  }

  /** A display `g.ff`, `g` the grouping of `w`, parses to `w` followed by `ff` padded to 24 digits. */
  lemma {:induction false} ParseDisplay(w: string, ff: string)
    requires IsDigits(w) && w != [] && IsDigits(ff) && |ff| <= STREAM_NOMINATION_EXP
    ensures ParseStreamAmount(Some(TrimTrailingZeroes(Grouped(w) + "." + ff))) ==
      Units(TrimLeadingZeroes(w + PadEnd(ff, STREAM_NOMINATION_EXP, '0')))
  {
    if AllZeros(ff) {
      ParseZeroFraction(w, ff);
    } else {
      ParseNonZeroFraction(w, ff);
    }
  }

  /** A display whose fraction was all zeros parses to the whole digits followed by 24 zeros. */
  lemma {:induction false} ParseZeroFraction(w: string, ff: string)
    requires IsDigits(w) && w != [] && IsDigits(ff) && |ff| <= STREAM_NOMINATION_EXP && AllZeros(ff)
    ensures ParseStreamAmount(Some(TrimTrailingZeroes(Grouped(w) + "." + ff))) ==
      Units(TrimLeadingZeroes(w + PadEnd(ff, STREAM_NOMINATION_EXP, '0')))
  {
    GroupedChars(w);
    TrimZeroFraction(Grouped(w), ff);
    PadZeros(ff);
    ParseGrouped(w);
  }

  /** A fraction of zeros pads to the same 24 digits as no fraction. */
  lemma {:induction false} PadZeros(ff: string)
    requires AllZeros(ff) && |ff| <= STREAM_NOMINATION_EXP
    ensures PadEnd(ff, STREAM_NOMINATION_EXP, '0') == PadEnd("", STREAM_NOMINATION_EXP, '0')
  {
    PadEndAbsorbsZeros("", ff, STREAM_NOMINATION_EXP);
    assert "" + ff == ff;
  }

  /** The grouped whole digits alone parse to the digits followed by 24 zeros. */
  lemma {:induction false} ParseGrouped(w: string)
    requires IsDigits(w) && w != []
    ensures ParseStreamAmount(Some(Grouped(w))) == Units(TrimLeadingZeroes(w + PadEnd("", STREAM_NOMINATION_EXP, '0')))
  {
    var g := Grouped(w);
    GroupedDigits(w);
    DigitsExclude(w, ',');
    CleanupUnchanged(w);
    assert CleanupAmount(g) == w;
    ParseNonEmpty(g);
    ParseWhole(w);
  }

  /** A display with a non-zero fraction parses to the whole digits, the fraction digits, then zeros. */
  lemma {:induction false} ParseNonZeroFraction(w: string, ff: string)
    requires IsDigits(w) && w != [] && IsDigits(ff) && |ff| <= STREAM_NOMINATION_EXP && !AllZeros(ff)
    ensures ParseStreamAmount(Some(TrimTrailingZeroes(Grouped(w) + "." + ff))) ==
      Units(TrimLeadingZeroes(w + PadEnd(ff, STREAM_NOMINATION_EXP, '0')))
  {
    var g := Grouped(w);
    GroupedNoDot(w);
    var j := TrimNonZeroFraction(g, ff);
    var shown := ff[..j];
    var r := g + "." + shown;
    assert IsDigits(shown) by { assert forall i | 0 <= i < j :: shown[i] == ff[i]; }
    GroupedDigits(w);
    CleanupRendered(g, w, shown, r);
    ParseCleanedDotted(r, w, shown);
    PadEndAbsorbsZeros(shown, ff[j..], STREAM_NOMINATION_EXP);
    SliceJoin(ff, j);
  }

  /** Cleaning up `g.shown`, with `g` the grouping of `w`, gives `w.shown`. */
  lemma {:induction false} CleanupRendered(g: string, w: string, shown: string, r: string)
    requires IsDigits(w) && w != [] && IsDigits(shown) && shown != []
    requires RemoveAll(g, ',') == w && r == g + "." + shown
    ensures CleanupAmount(r) == w + "." + shown
  {
    var tail := "." + shown;
    assert r == g + tail;
    DigitsExclude(shown, ',');
    assert ',' !in tail;
    RemoveAllAbsent(tail, ',');
    RemoveAllConcat(g, tail, ',');
    var cleaned := RemoveAll(r, ',');
    assert cleaned == w + tail;
    assert w + tail == w + "." + shown;
    TrimDotted(w, shown);
  }

  lemma {:induction false} TrimDotted(w: string, shown: string)
    requires IsDigits(w) && w != [] && IsDigits(shown) && shown != []
    ensures Trim(w + "." + shown) == w + "." + shown
  {
    var c := w + "." + shown;
    assert c[0] == w[0] && c[|c| - 1] == shown[|shown| - 1];
    TrimUnchanged(c);
  }

  /**
   * The arithmetic behind truncation: if `n = a * t + b` with `t = q * p` and
   * `b = c * p + e`, `e < p`, then truncating `n` to a multiple of `p` keeps
   * `a * t + c * p`.
   */
  lemma {:induction false} TruncationArithmetic(n: nat, a: nat, b: nat, c: nat, e: nat, q: nat, p: nat, t: nat)
    requires 0 < p && e < p && t == q * p
    requires n == a * t + b && b == c * p + e
    ensures n / p * p == a * t + c * p
  {
    assert a * t == (a * q) * p;
    assert a * t + c * p == (a * q + c) * p;
    DivModUnique(n, p, a * q + c, e);
  }

  /** `n` rounded down to a multiple of 10^`exp`. */
  function Truncated(n: nat, exp: nat): (r: nat)
    ensures r <= n && n - r < Pow10(exp)
  {
    TruncatedBound(n, Pow10(exp));
    n / Pow10(exp) * Pow10(exp)
  }

  lemma {:induction false} TruncatedBound(n: nat, p: nat)
    requires 0 < p
    ensures 0 <= n / p * p <= n && n - n / p * p < p
  {
    DivMod(n, p);
  }

  /** A whole part followed by a fraction padded to 24 digits is worth whole * 10^24 plus the scaled fraction. */
  lemma {:induction false} PaddedValue(w: string, ff: string)
    requires IsDigits(w) && IsDigits(ff) && |ff| <= STREAM_NOMINATION_EXP
    ensures var x := w + PadEnd(ff, STREAM_NOMINATION_EXP, '0');
      IsDigits(x) && ValueOf(x) == AmountValue(w, ff)
  {
    var z := Repeat('0', STREAM_NOMINATION_EXP - |ff|);
    NominationIsPower();
    assert PadEnd(ff, STREAM_NOMINATION_EXP, '0') == ff + z;
    ValueOfZeros(z);
    ValueOfConcat(ff, z);
    ValueOfConcat(w, ff + z);
  }

  /**
   * The digits a display of `n` keeps, padded back to 24 fraction digits, are
   * worth `n` truncated to a multiple of 10^(24 - fracDigits).
   */
  lemma {:induction false} RenderedValue(n: nat, fracDigits: nat)
    requires fracDigits <= STREAM_NOMINATION_EXP
    ensures var digits := DecimalOf(n);
      var x := WholeDigits(digits) + PadEnd(FractionDigits(digits)[..fracDigits], STREAM_NOMINATION_EXP, '0');
      IsDigits(x) && ValueOf(x) == Truncated(n, STREAM_NOMINATION_EXP - fracDigits)
  {
    var w, ff := RenderParts(n, fracDigits);
    var fd := FractionDigits(DecimalOf(n));
    NominationShape(n);
    NominationSplit(n);
    DigitsSplit(fd, fracDigits);
    PaddedValue(w, ff);
    TruncatedSplit(n, ValueOf(w), ValueOf(ff), ValueOf(fd[fracDigits..]), fracDigits);
  }

  /** `n` split as whole * 10^24 + shown * 10^D + hidden, with hidden < 10^D, truncates to its first two terms. */
  lemma {:induction false} TruncatedSplit(n: nat, whole: nat, shown: nat, hidden: nat, fracDigits: nat)
    requires fracDigits <= STREAM_NOMINATION_EXP
    requires whole == n / STREAM_NOMINATION
    requires n % STREAM_NOMINATION == shown * Pow10(STREAM_NOMINATION_EXP - fracDigits) + hidden
    requires hidden < Pow10(STREAM_NOMINATION_EXP - fracDigits)
    ensures Truncated(n, STREAM_NOMINATION_EXP - fracDigits) ==
      whole * STREAM_NOMINATION + shown * Pow10(STREAM_NOMINATION_EXP - fracDigits)
  {
    var D := STREAM_NOMINATION_EXP - fracDigits;
    var T, Q, P := STREAM_NOMINATION, Pow10(fracDigits), Pow10(D);
    NominationIsPower();
    Pow10Add(fracDigits, D);
    DivMod(n, T);
    TruncationArithmetic(n, whole, n % T, shown, hidden, Q, P, T);
  }

  /**
   * What a formatted amount means: parsing the display of an adjusted balance
   * `n` with `fracDigits` digits gives `n` truncated to a multiple of
   * 10^(24 - fracDigits) units.
   */
  lemma {:induction false} ParseOfRender(n: nat, fracDigits: nat)
    requires fracDigits <= STREAM_NOMINATION_EXP
    ensures ParseStreamAmount(Some(Render(n, fracDigits))) ==
      Units(DecimalOf(Truncated(n, STREAM_NOMINATION_EXP - fracDigits)))
  {
    var digits := DecimalOf(n);
    var x := WholeDigits(digits) + PadEnd(FractionDigits(digits)[..fracDigits], STREAM_NOMINATION_EXP, '0');
    ParseRendered(n, fracDigits);
    RenderedValue(n, fracDigits);
    TrimLeadingZeroesIsDecimal(x);
  }

  /** At full precision no rounding offset is added. */
  lemma {:induction false} FullPrecisionUnrounded(balance: string)
    requires IsDigits(balance)
    ensures FormatSpec(balance, STREAM_NOMINATION_EXP) == Render(ValueOf(balance), STREAM_NOMINATION_EXP)
  {
    assert Adjusted(balance, STREAM_NOMINATION_EXP) == ValueOf(balance);
  }

  /** Truncating to a multiple of 10^0 changes nothing. */
  lemma {:induction false} TruncatedZero(n: nat)
    ensures Truncated(n, 0) == n
  {
    assert Pow10(0) == 1;
  }

  /**
   * Round trip at full precision: formatting a canonical amount of units with
   * all 24 fraction digits and parsing the display gives back the same string.
   */
  lemma {:induction false} RoundTrip(x: string)
    requires IsCanonical(x)
    ensures ParseStreamAmount(Some(FormatSpec(x, STREAM_NOMINATION_EXP))) == Units(x)
  {
    var v := ValueOf(x);
    FullPrecisionUnrounded(x);
    ParseOfRender(v, STREAM_NOMINATION_EXP);
    TruncatedZero(v);
    ValueOfDecimal(x);
  }

  /** A trimmed display `g.ff`, `g` the grouping of `w`, ends in a digit, and not in `0` when a dot is left. */
  lemma {:induction false} DisplayShape(w: string, ff: string)
    requires IsDigits(w) && w != [] && IsDigits(ff)
    ensures var r := TrimTrailingZeroes(Grouped(w) + "." + ff);
      r != [] && IsDigit(r[|r| - 1]) && ('.' in r ==> r[|r| - 1] != '0')
  {
    var g := Grouped(w);
    GroupedChars(w);
    GroupedNoDot(w);
    if AllZeros(ff) {
      TrimZeroFraction(g, ff);
    } else {
      var j := TrimNonZeroFraction(g, ff);
      LastAfterDot(g, ff, j);
    }
  }

  /**
   * An exact number of STREAM at full precision prints as the grouped whole
   * number alone, with no dot.
   */
  lemma {:induction false} FormatWholeAmount(balance: string)
    requires IsDigits(balance) && ValueOf(balance) % STREAM_NOMINATION == 0
    ensures FormatSpec(balance, STREAM_NOMINATION_EXP) == Grouped(DecimalOf(ValueOf(balance) / STREAM_NOMINATION))
  {
    var n := Adjusted(balance, STREAM_NOMINATION_EXP);
    assert n == ValueOf(balance);
    RenderWhole(n);
  }

  /** A multiple of 10^24 units renders at full precision as its grouped number of STREAM. */
  lemma {:induction false} RenderWhole(n: nat)
    requires n % STREAM_NOMINATION == 0
    ensures Render(n, STREAM_NOMINATION_EXP) == Grouped(DecimalOf(n / STREAM_NOMINATION))
  {
    var w, ff := RenderParts(n, STREAM_NOMINATION_EXP);
    NominationShape(n);
    NominationSplit(n);
    assert ff == FractionDigits(DecimalOf(n));
    ZeroValueIsZeros(ff);
    ValueOfDecimal(w);
    assert w == DecimalOf(n / STREAM_NOMINATION);
    GroupedNoDot(w);
    TrimZeroFraction(Grouped(w), ff);
  }

  /**
   * The adjustment the rounding evidently intends: half of the last place
   * shown, 5 * 10^(24 - fracDigits - 1), whenever some digits are cut off.
   */
  function IntendedAdjustment(fracDigits: nat): nat
    requires fracDigits <= STREAM_NOMINATION_EXP
  {
    if fracDigits < STREAM_NOMINATION_EXP then 5 * Pow10(STREAM_NOMINATION_EXP - fracDigits - 1) else 0
  }

  /** `formatStreamAmount` with the intended rounding. */
  function FormatIntendedSpec(balance: string, fracDigits: nat): string
    requires IsDigits(balance) && fracDigits <= STREAM_NOMINATION_EXP
  {
    Render(IntendedAdjusted(balance, fracDigits), fracDigits)
  }

  /** The balance after the intended addition. */
  function IntendedAdjusted(balance: string, fracDigits: nat): nat
    requires IsDigits(balance) && fracDigits <= STREAM_NOMINATION_EXP
  {
    ValueOf(balance) + IntendedAdjustment(fracDigits)
  }

  /** The written guard and the intended one differ only at `fracDigits == 23`. */
  lemma {:induction false} AdjustmentAgrees(fracDigits: nat)
    requires fracDigits <= STREAM_NOMINATION_EXP
    ensures RoundingAdjustment(fracDigits) == IntendedAdjustment(fracDigits) <==> fracDigits != STREAM_NOMINATION_EXP - 1
  {
    if fracDigits == STREAM_NOMINATION_EXP - 1 {
      assert RoundingAdjustment(fracDigits) == 0;
      assert IntendedAdjustment(fracDigits) == 5 * Pow10(0);
    }
  }

  /**
   * Below 23 fraction digits the code as written already rounds half-up: the
   * display parses back to the balance rounded to the last digit shown.
   */
  lemma {:induction false} RoundsHalfUpAsWritten(balance: string, fracDigits: nat) returns (u: nat)
    requires IsDigits(balance) && fracDigits < STREAM_NOMINATION_EXP - 1
    ensures ParseStreamAmount(Some(FormatSpec(balance, fracDigits))) == Units(DecimalOf(u))
    ensures RoundedHalfUp(ValueOf(balance), Pow10(STREAM_NOMINATION_EXP - fracDigits), u)
  {
    AdjustmentAgrees(fracDigits);
    assert Adjusted(balance, fracDigits) == IntendedAdjusted(balance, fracDigits);
    u := RoundsHalfUp(balance, fracDigits);
  }

  /** `r` is the multiple of `p` nearest to `v`, halves rounded up. */
  predicate RoundedHalfUp(v: nat, p: nat, r: nat)
  {
    0 < p && r % p == 0 && 2 * v - p < 2 * r <= 2 * v + p
  }

  /** `n` rounded down to a multiple of 10^`exp` is a multiple of 10^`exp`. */
  lemma {:induction false} TruncatedMultiple(n: nat, exp: nat)
    ensures Truncated(n, exp) % Pow10(exp) == 0
  {
    var p := Pow10(exp);
    var q := n / p;
    TruncatedBound(n, p);
    DivModUnique(q * p, p, q, 0);
  }

  /** Half of the last place shown is the intended adjustment. */
  lemma {:induction false} HalfPlace(fracDigits: nat)
    requires fracDigits < STREAM_NOMINATION_EXP
    ensures Pow10(STREAM_NOMINATION_EXP - fracDigits) == 2 * IntendedAdjustment(fracDigits)
  {
  }

  /** Rounding `v + p/2` down to a multiple of `p` lands within half a place of `v`. */
  lemma {:induction false} HalfUpBounds(v: nat, h: nat, p: nat, r: nat, n: nat)
    requires 0 < p && p == 2 * h && n == v + h && r % p == 0 && r <= n && n - r < p
    ensures RoundedHalfUp(v, p, r)
  {
  }

  /** Adding half a place and truncating rounds half-up to the last place. */
  lemma {:induction false} HalfUpTruncated(v: nat, n: nat, fracDigits: nat)
    requires fracDigits < STREAM_NOMINATION_EXP && n == v + IntendedAdjustment(fracDigits)
    ensures var D := STREAM_NOMINATION_EXP - fracDigits;
      RoundedHalfUp(v, Pow10(D), Truncated(n, D))
  {
    var D := STREAM_NOMINATION_EXP - fracDigits;
    var h, p, r := IntendedAdjustment(fracDigits), Pow10(D), Truncated(n, D);
    HalfPlace(fracDigits);
    TruncatedMultiple(n, D);
    HalfUpBounds(v, h, p, r, n);
  }

  /**
   * With the intended rounding, a display with `fracDigits < 24` digits parses
   * back to the balance rounded half-up to the last digit shown.
   */
  lemma {:induction false} RoundsHalfUp(balance: string, fracDigits: nat) returns (u: nat)
    requires IsDigits(balance) && fracDigits < STREAM_NOMINATION_EXP
    ensures ParseStreamAmount(Some(FormatIntendedSpec(balance, fracDigits))) == Units(DecimalOf(u))
    ensures RoundedHalfUp(ValueOf(balance), Pow10(STREAM_NOMINATION_EXP - fracDigits), u)
  {
    var n := IntendedAdjusted(balance, fracDigits);
    u := Truncated(n, STREAM_NOMINATION_EXP - fracDigits);
    ParseOfRender(n, fracDigits);
    HalfUpTruncated(ValueOf(balance), n, fracDigits);
  }

  /** As written, a display with 23 fraction digits parses back to the balance rounded down to a multiple of 10. */
  lemma {:induction false} TruncatesAt23(balance: string)
    requires IsDigits(balance)
    ensures ParseStreamAmount(Some(FormatSpec(balance, STREAM_NOMINATION_EXP - 1))) ==
      Units(DecimalOf(Truncated(ValueOf(balance), 1)))
  {
    assert Adjusted(balance, STREAM_NOMINATION_EXP - 1) == ValueOf(balance);
    ParseOfRender(ValueOf(balance), STREAM_NOMINATION_EXP - 1);
  }

  /** 19 rounded down to a multiple of 10 is 10. */
  lemma {:induction false} NineteenDown(v: nat)
    requires v == 19
    ensures Truncated(v, 1) == 10
  {
    var down := Truncated(v, 1);
    assert Pow10(1) == 10;
    TruncatedMultiple(v, 1);
    DivMod(down, 10);
  }

  /** The multiple of 10 nearest to 19 is 20. */
  lemma {:induction false} NineteenHalfUp(v: nat, p: nat, u: nat)
    requires v == 19 && p == 10 && RoundedHalfUp(v, p, u)
    ensures u == 20
  {
    DivMod(u, 10);
    var q := u / 10;
    assert u == q * 10;
    assert 28 < 20 * q <= 48;
    assert q == 2;
  }

  /**
   * The input that shows the truncation: a balance of 19 units with 23
   * fraction digits shows 1 in the last place and parses back to 10 units,
   * which is not 19 rounded half-up; the intended rounding shows 2 and parses
   * back to 20.
   */
  lemma {:induction false} RoundingCounterexample(balance: string)
    requires balance == "19"
    ensures ParseStreamAmount(Some(FormatSpec(balance, STREAM_NOMINATION_EXP - 1))) == Units("10")
    ensures ParseStreamAmount(Some(FormatIntendedSpec(balance, STREAM_NOMINATION_EXP - 1))) == Units("20")
    ensures !RoundedHalfUp(ValueOf(balance), Pow10(1), 10)
  {
    NineteenValue(balance);
    NineteenAsWritten(balance);
    NineteenIntended(balance);
  }

  lemma {:induction false} NineteenValue(balance: string)
    requires balance == "19"
    ensures IsDigits(balance) && ValueOf(balance) == 19
  {
    assert ValueOf(balance[..1]) == 1;
  }

  /** As written, 19 units shown with 23 digits parse back to 10. */
  lemma {:induction false} NineteenAsWritten(balance: string)
    requires balance == "19"
    ensures ParseStreamAmount(Some(FormatSpec(balance, STREAM_NOMINATION_EXP - 1))) == Units("10")
  {
    NineteenValue(balance);
    TruncatesAt23(balance);
    NineteenDown(ValueOf(balance));
    DecimalTen(Truncated(ValueOf(balance), 1));
  }

  /** With the intended rounding, 19 units shown with 23 digits parse back to 20. */
  lemma {:induction false} NineteenIntended(balance: string)
    requires balance == "19"
    ensures ParseStreamAmount(Some(FormatIntendedSpec(balance, STREAM_NOMINATION_EXP - 1))) == Units("20")
  {
    NineteenValue(balance);
    var u := RoundsHalfUp(balance, STREAM_NOMINATION_EXP - 1);
    LastPlace();
    NineteenHalfUp(ValueOf(balance), Pow10(STREAM_NOMINATION_EXP - (STREAM_NOMINATION_EXP - 1)), u);
    DecimalTwenty(u);
  }

  lemma {:induction false} LastPlace()
    ensures Pow10(STREAM_NOMINATION_EXP - (STREAM_NOMINATION_EXP - 1)) == 10
  {
    assert Pow10(1) == 10 * Pow10(0);
  }

  lemma {:induction false} DecimalTen(u: nat)
    requires u == 10
    ensures DecimalOf(u) == "10"
  {
    assert DecimalOf(1) == "1";
  }

  lemma {:induction false} DecimalTwenty(u: nat)
    requires u == 20
    ensures DecimalOf(u) == "20"
  {
    assert DecimalOf(2) == "2";
  }
}
