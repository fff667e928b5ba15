/** The Python string operations the scripts rely on: `in`, `startswith`,
    `endswith`, `find`/`rfind`, `split(sep)[k]`, `replace`, `strip`,
    `' '.join`, `%d` formatting and the ordering `sorted` uses. */
module Strings {
  import opened Wrappers

  predicate IsPrefix(p: string, s: string) {
    |p| <= |s| && s[..|p|] == p
  }

  predicate IsSuffix(p: string, s: string) {
    |p| <= |s| && s[|s| - |p|..] == p
  }

  /** `t` occurs in `s` starting at index `i`. */
  predicate OccursAt(s: string, t: string, i: int) {
    0 <= i && i + |t| <= |s| && s[i..i + |t|] == t
  }

  /** Python's `t in s`. */
  predicate Contains(s: string, t: string) {
    exists i :: 0 <= i <= |s| - |t| && OccursAt(s, t, i)
  }

  function IndexOfFrom(s: string, t: string, k: nat): (r: Option<nat>)
    decreases |s| - k
    ensures r.Some? ==> k <= r.value && OccursAt(s, t, r.value)
    ensures r.Some? ==> forall j :: k <= j < r.value ==> !OccursAt(s, t, j)
    ensures r.None? ==> forall j :: k <= j ==> !OccursAt(s, t, j)
  {
    if k + |t| > |s| then None
    else if OccursAt(s, t, k) then Some(k)
    else IndexOfFrom(s, t, k + 1)
  }

  /** Python's `s.find(t)`, with `None` for -1: the first occurrence. */
  function IndexOf(s: string, t: string): (r: Option<nat>)
    ensures r.Some? <==> Contains(s, t)
    ensures r.Some? ==> OccursAt(s, t, r.value)
    ensures r.Some? ==> forall j :: 0 <= j < r.value ==> !OccursAt(s, t, j)
  {
    IndexOfFrom(s, t, 0)
  }

  function LastIndexBelow(s: string, t: string, k: int): (r: Option<nat>)
    requires k <= |s| - |t|
    decreases k + 1
    ensures r.Some? ==> r.value <= k && OccursAt(s, t, r.value)
    ensures r.Some? ==> forall j :: r.value < j <= k ==> !OccursAt(s, t, j)
    ensures r.None? ==> forall j :: j <= k ==> !OccursAt(s, t, j)
  {
    if k < 0 then None
    else if OccursAt(s, t, k) then Some(k)
    else LastIndexBelow(s, t, k - 1)
  }

  /** Python's `s.rfind(t)`, with `None` for -1: the last occurrence. */
  function LastIndexOf(s: string, t: string): (r: Option<nat>)
    ensures r.Some? <==> Contains(s, t)
    ensures r.Some? ==> OccursAt(s, t, r.value)
    ensures r.Some? ==> forall j :: r.value < j ==> !OccursAt(s, t, j)
  {
    LastIndexBelow(s, t, |s| - |t|)
  }

  /** Python's `s.split(t)[0]`: the text before the first `t`, or all of
      `s` when `t` does not occur. */
  function Before(s: string, t: string): (r: string)
    requires |t| > 0
    ensures IsPrefix(r, s)
    ensures !Contains(r, t)
    ensures r == s || OccursAt(s, t, |r|)
  {
    match IndexOf(s, t)
    case None => s
    case Some(i) =>
      assert !Contains(s[..i], t) by {
        forall j | 0 <= j <= i - |t| ensures !OccursAt(s[..i], t, j) {
          assert s[..i][j..j + |t|] == s[j..j + |t|];
          assert !OccursAt(s, t, j);
        }
      }
      s[..i]
  }

  /** The text after the first occurrence of `t`, or `None` when `t` does
      not occur; `s.split(t)[1]` is `Before` of this text. */
  function AfterFirst(s: string, t: string): (r: Option<string>)
    ensures r.None? <==> !Contains(s, t)
    ensures r.Some? ==> exists i :: OccursAt(s, t, i) && r.value == s[i + |t|..]
  {
    match IndexOf(s, t)
    case None => None
    case Some(i) => Some(s[i + |t|..])
  }

  /** Python's `s.split(t)[1]`, or `None` where Python raises IndexError:
      the text between the first and the second occurrence of `t`. */
  function SecondField(s: string, t: string): (r: Option<string>)
    requires |t| > 0
    ensures r.None? <==> !Contains(s, t)
    ensures r.Some? ==> !Contains(r.value, t)
  {
    match AfterFirst(s, t)
    case None => None
    case Some(rest) => Some(Before(rest, t))
  }

  /** A one-character token occurs exactly where that character stands. */
  lemma OccursAtChar(s: string, c: char, i: int)
    ensures OccursAt(s, [c], i) <==> 0 <= i < |s| && s[i] == c
  {
    if 0 <= i < |s| {
      assert s[i..i + 1] == [s[i]];
    }
  }

  /** One mismatching character rules an occurrence out. */
  lemma Mismatch(s: string, t: string, j: int, k: int)
    requires 0 <= k < |t|
    requires 0 <= j && j + |t| <= |s| ==> s[j + k] != t[k]
    ensures !OccursAt(s, t, j)
  {
    if 0 <= j && j + |t| <= |s| {
      assert s[j..j + |t|][k] == s[j + k];
    }
  }

  /** Where `t` first occurs at `k`, `split(t)` cuts there. */
  lemma FirstOccurrence(s: string, t: string, k: nat)
    requires |t| > 0
    requires OccursAt(s, t, k)
    requires forall j :: 0 <= j < k ==> !OccursAt(s, t, j)
    ensures IndexOf(s, t) == Some(k)
    ensures Before(s, t) == s[..k]
    ensures AfterFirst(s, t) == Some(s[k + |t|..])
  {
    assert Contains(s, t);
  }

  /** Where `t` occurs last at `k`, `rfind(t)` finds it there. */
  lemma LastOccurrence(s: string, t: string, k: nat)
    requires OccursAt(s, t, k)
    requires forall j :: k < j ==> !OccursAt(s, t, j)
    ensures LastIndexOf(s, t) == Some(k)
  {
    assert Contains(s, t);
  }

  /** Without `t`, `split(t)[0]` is the whole string. */
  lemma BeforeAbsent(s: string, t: string)
    requires |t| > 0
    requires !Contains(s, t)
    ensures Before(s, t) == s
  {
  }

  /** Python's `s.replace(pat, rep)` for a non-empty `pat`: occurrences are
      replaced left to right without overlapping. */
  function ReplaceAll(s: string, pat: string, rep: string): (r: string)
    requires |pat| > 0
    decreases |s|
  {
    if |s| < |pat| then s
    else if s[..|pat|] == pat then rep + ReplaceAll(s[|pat|..], pat, rep)
    else [s[0]] + ReplaceAll(s[1..], pat, rep)
  }

  /** A string without `pat` in it is left as it is. */
  lemma {:induction false} ReplaceAbsent(s: string, pat: string, rep: string)
    requires |pat| > 0
    requires !Contains(s, pat)
    ensures ReplaceAll(s, pat, rep) == s
    decreases |s|
  {
    if |s| >= |pat| {
      assert !OccursAt(s, pat, 0);
      assert !Contains(s[1..], pat) by {
        forall j | 0 <= j <= |s[1..]| - |pat| ensures !OccursAt(s[1..], pat, j) {
          assert s[1..][j..j + |pat|] == s[j + 1..j + 1 + |pat|];
          assert !OccursAt(s, pat, j + 1);
        }
      }
      ReplaceAbsent(s[1..], pat, rep);
      assert s == [s[0]] + s[1..];
    }
  }

  /** A leading `pat` is replaced and scanning resumes after it. */
  lemma ReplaceLeading(pat: string, x: string, rep: string)
    requires |pat| > 0
    ensures ReplaceAll(pat + x, pat, rep) == rep + ReplaceAll(x, pat, rep)
  {
    assert (pat + x)[..|pat|] == pat;
    assert (pat + x)[|pat|..] == x;
  }

  /** Replacing every `~` by a string without `~` leaves no `~` behind. */
  lemma {:induction false} ReplaceRemovesAll(s: string, pat: string, rep: string)
    requires |pat| == 1
    requires !Contains(rep, pat)
    ensures !Contains(ReplaceAll(s, pat, rep), pat)
    decreases |s|
  {
    var r := ReplaceAll(s, pat, rep);
    if |s| < |pat| {
      assert |s| == 0;
      assert r == [];
    } else {
      var rest := ReplaceAll(s[1..], pat, rep);
      ReplaceRemovesAll(s[1..], pat, rep);
      assert s[|pat|..] == s[1..];
      if s[..|pat|] == pat {
        assert r == rep + rest;
        forall j | 0 <= j <= |r| - |pat| ensures !OccursAt(r, pat, j) {
          if j < |rep| {
            assert r[j..j + 1] == rep[j..j + 1];
            assert !OccursAt(rep, pat, j);
          } else {
            assert r[j..j + 1] == rest[j - |rep|..j - |rep| + 1];
            assert !OccursAt(rest, pat, j - |rep|);
          }
        }
      } else {
        assert r == [s[0]] + rest;
        forall j | 0 <= j <= |r| - |pat| ensures !OccursAt(r, pat, j) {
          if j == 0 {
            assert r[0..1] == [s[0]] == s[..|pat|];
          } else {
            assert r[j..j + 1] == rest[j - 1..j];
            assert !OccursAt(rest, pat, j - 1);
          }
        }
      }
    }
  }

  /** Python 2's `str.strip()` whitespace set. */
  predicate IsSpace(c: char) {
    c == ' ' || c == '\t' || c == '\n' || c == '\r' || c == '\U{B}' || c == '\U{C}'
  }

  function TrimLeft(s: string): (r: string)
    ensures IsSuffix(r, s)
    ensures r == [] || !IsSpace(r[0])
    ensures forall i :: 0 <= i < |s| - |r| ==> IsSpace(s[i])
  {
    if s == [] || !IsSpace(s[0]) then s else TrimLeft(s[1..])
  }

  function TrimRight(s: string): (r: string)
    ensures IsPrefix(r, s)
    ensures r == [] || !IsSpace(r[|r| - 1])
    ensures forall i :: |r| <= i < |s| ==> IsSpace(s[i])
  {
    if s == [] || !IsSpace(s[|s| - 1]) then s else TrimRight(s[..|s| - 1])
  }

  /** `r` is the slice of `s` at `i` and everything around it is whitespace. */
  predicate TrimmedAt(s: string, r: string, i: int) {
    && 0 <= i <= |s| - |r|
    && s[i..i + |r|] == r
    && (forall k :: 0 <= k < i ==> IsSpace(s[k]))
    && (forall k :: i + |r| <= k < |s| ==> IsSpace(s[k]))
  }

  /** Python's `s.strip()`: the longest slice of `s` that neither starts
      nor ends with whitespace, everything cut off being whitespace. */
  function Strip(s: string): (r: string)
    ensures r == [] || (!IsSpace(r[0]) && !IsSpace(r[|r| - 1]))
    ensures exists i :: TrimmedAt(s, r, i)
  {
    var l := TrimLeft(s);
    var r := TrimRight(l);
    var i := |s| - |l|;
    assert s[i..i + |r|] == r by {
      assert s[i..] == l;
      assert l[..|r|] == r;
    }
    assert forall k :: i + |r| <= k < |s| ==> IsSpace(s[k]) by {
      forall k | i + |r| <= k < |s| ensures IsSpace(s[k]) {
        assert s[k] == l[k - i];
      }
    }
    assert TrimmedAt(s, r, i);
    r
  }

  /** A string that neither starts nor ends with whitespace is its own strip. */
  lemma StripUnpadded(s: string)
    requires s == [] || (!IsSpace(s[0]) && !IsSpace(s[|s| - 1]))
    ensures Strip(s) == s
  {
    assert TrimLeft(s) == s;
    assert TrimRight(s) == s;
  }

  /** Python's `sep.join(xs)`. */
  function JoinWith(sep: string, xs: seq<string>): string {
    if xs == [] then ""
    else if |xs| == 1 then xs[0]
    else xs[0] + sep + JoinWith(sep, xs[1..])
  }

  // ---------------------------------------------------------------------
  // Decimal integers: Python's `%d` and `str(n)`, with a parser as partner.

  predicate IsDigit(c: char) {
    '0' <= c <= '9'
  }

  function DigitChar(d: nat): (c: char)
    requires d < 10
    ensures IsDigit(c)
  {
    ['0', '1', '2', '3', '4', '5', '6', '7', '8', '9'][d]
  }

  function DigitValue(c: char): nat
    requires IsDigit(c)
  {
    (c as int - '0' as int) as nat
  }

  lemma DigitRoundTrip(d: nat)
    requires d < 10
    ensures DigitValue(DigitChar(d)) == d
  {
  }

  /** `%d` of a non-negative integer. */
  function NatToString(n: nat): (r: string)
    ensures |r| > 0 && forall i :: 0 <= i < |r| ==> IsDigit(r[i])
    ensures |r| > 1 ==> r[0] != '0'
  {
    if n < 10 then [DigitChar(n)] else NatToString(n / 10) + [DigitChar(n % 10)]
  }

  /** `%d` of any integer: a minus sign, then the digits of the magnitude. */
  function IntToString(i: int): (r: string)
    ensures |r| > 0
    ensures i >= 0 <==> r[0] != '-'
    ensures forall k :: 0 <= k < |r| ==> IsDigit(r[k]) || r[k] == '-'
  {
    if i >= 0 then NatToString(i) else "-" + NatToString(-i)
  }

  function ParseNat(s: string): nat
    requires forall i :: 0 <= i < |s| ==> IsDigit(s[i])
  {
    if s == [] then 0 else ParseNat(s[..|s| - 1]) * 10 + DigitValue(s[|s| - 1])
  }

  predicate IsDecimal(s: string) {
    |s| > 0 && forall i :: 0 <= i < |s| ==> IsDigit(s[i])
  }

  /** Python's `int(s)` restricted to an optional `-` and decimal digits. */
  function ParseInt(s: string): Option<int> {
    if |s| > 0 && s[0] == '-' && IsDecimal(s[1..]) then Some(0 - ParseNat(s[1..]) as int)
    else if IsDecimal(s) then Some(ParseNat(s))
    else None
  }

  lemma {:induction false} NatRoundTrip(n: nat)
    ensures ParseNat(NatToString(n)) == n
  {
    var s := NatToString(n);
    if n < 10 {
      DigitRoundTrip(n);
      assert s[..|s| - 1] == [];
    } else {
      NatRoundTrip(n / 10);
      assert s[..|s| - 1] == NatToString(n / 10);
      DigitRoundTrip(n % 10);
    }
  }

  /** Reading back what `%d` printed gives the number again. */
  lemma IntRoundTrip(i: int)
    ensures ParseInt(IntToString(i)) == Some(i)
  {
    if i >= 0 {
      NatRoundTrip(i);
    } else {
      var s := IntToString(i);
      assert s[1..] == NatToString(-i);
      NatRoundTrip(-i);
    }
  }

  /** Distinct integers print differently. */
  lemma IntToStringInjective(i: int, j: int)
    requires IntToString(i) == IntToString(j)
    ensures i == j
  {
    IntRoundTrip(i);
    IntRoundTrip(j);
  }

  // ---------------------------------------------------------------------
  // The order Python's `list.sort()` uses on `str`: code point by code point.

  predicate LexLe(a: string, b: string) {
    if a == [] then true
    else if b == [] then false
    else if a[0] != b[0] then a[0] < b[0]
    else LexLe(a[1..], b[1..])
  }

  lemma {:induction false} LexTotal(a: string, b: string)
    ensures LexLe(a, b) || LexLe(b, a)
    decreases |a|
  {
    if a != [] && b != [] && a[0] == b[0] {
      LexTotal(a[1..], b[1..]);
    }
  }

  lemma {:induction false} LexAntisymmetric(a: string, b: string)
    requires LexLe(a, b) && LexLe(b, a)
    ensures a == b
    decreases |a|
  {
    if a != [] && b != [] {
      LexAntisymmetric(a[1..], b[1..]);
      assert a == [a[0]] + a[1..];
      assert b == [b[0]] + b[1..];
    }
  }

  /** A common prefix does not decide the order. */
  lemma {:induction false} LexCommonPrefix(c: string, x: string, y: string)
    ensures LexLe(c + x, c + y) == LexLe(x, y)
    decreases |c|
  {
    if c != [] {
      assert (c + x)[0] == c[0] && (c + y)[0] == c[0];
      assert (c + x)[1..] == c[1..] + x;
      assert (c + y)[1..] == c[1..] + y;
      LexCommonPrefix(c[1..], x, y);
    } else {
      assert c + x == x && c + y == y;
    }
  }
}
