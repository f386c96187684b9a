/** The handful of JDK string operations the connector and customizer code
    relies on, written out over `seq<char>`: `startsWith`/`endsWith`,
    `contains`, `replace`, `trim`, `equalsIgnoreCase`, `Boolean.parseBoolean`
    and `Integer.parseInt` in radix 10. */
module JavaText {
  import opened Wrappers

  // ---------------------------------------------------------------------
  // Prefixes, suffixes and occurrences
  // ---------------------------------------------------------------------

  predicate StartsWith(s: string, prefix: string) {
    |prefix| <= |s| && s[..|prefix|] == prefix
  }

  predicate EndsWith(s: string, suffix: string) {
    |suffix| <= |s| && s[|s| - |suffix|..] == suffix
  }

  /** `t` occurs in `s` starting at index `i`. */
  predicate OccursAt(s: string, t: string, i: int) {
    0 <= i && i + |t| <= |s| && s[i..i + |t|] == t
  }

  /** `String.contains`. */
  predicate Contains(s: string, t: string) {
    exists i :: 0 <= i <= |s| - |t| && OccursAt(s, t, i)
  }

  /** `Contains` with the witness found for the caller. */
  lemma ContainsAt(s: string, t: string, i: int)
    requires OccursAt(s, t, i)
    ensures Contains(s, t)
  {
  }

  /** A text that lacks some character of `t` cannot contain `t`. */
  lemma NotContainsMissingChar(s: string, t: string, k: int)
    requires 0 <= k < |t| && t[k] !in s
    ensures !Contains(s, t)
  {
    forall i | 0 <= i <= |s| - |t|
      ensures !OccursAt(s, t, i)
    {
      assert s[i..i + |t|][k] == s[i + k] && s[i + k] in s;
    }
  }

  // ---------------------------------------------------------------------
  // String.replace and replaceAll of a single literal character
  // ---------------------------------------------------------------------

  /** `String.replace(target, replacement)` for a non-empty target: occurrences
      are found left to right, and scanning resumes after each replaced one,
      so overlapping occurrences are not replaced twice. */
  function Replace(s: string, target: string, replacement: string): (r: string)
    requires |target| > 0
    decreases |s|
  {
    if |s| < |target| then s
    else if s[..|target|] == target then replacement + Replace(s[|target|..], target, replacement)
    else [s[0]] + Replace(s[1..], target, replacement)
  }

  /** A string none of whose characters can begin the target is left as it is. */
  lemma {:induction false} ReplaceNoStart(s: string, target: string, replacement: string)
    requires |target| > 0
    requires forall i :: 0 <= i < |s| ==> s[i] != target[0]
    ensures Replace(s, target, replacement) == s
    decreases |s|
  {
    if |s| >= |target| {
      assert s[..|target|][0] == s[0];
      ReplaceNoStart(s[1..], target, replacement);
      assert [s[0]] + s[1..] == s;
    }
  }

  /** Nothing in `x` can begin the target and `tail` is too short to hold it:
      the replacement finds no occurrence in `x + tail`. */
  lemma {:induction false} ReplaceNoStartShortTail(x: string, tail: string, target: string, replacement: string)
    requires |target| > 0 && |tail| < |target|
    requires forall i :: 0 <= i < |x| ==> x[i] != target[0]
    ensures Replace(x + tail, target, replacement) == x + tail
    decreases |x|
  {
    var s := x + tail;
    if |x| > 0 && |s| >= |target| {
      assert s[..|target|][0] == x[0];
      assert s[1..] == x[1..] + tail;
      ReplaceNoStartShortTail(x[1..], tail, target, replacement);
      assert [s[0]] + s[1..] == s;
    }
  }

  /** The target preceded only by characters that cannot begin it is removed
      exactly once, together with nothing else. */
  lemma {:induction false} ReplaceBeforeTarget(x: string, target: string, replacement: string)
    requires |target| > 0
    requires forall i :: 0 <= i < |x| ==> x[i] != target[0]
    ensures Replace(x + target, target, replacement) == x + replacement
    decreases |x|
  {
    var s := x + target;
    if |x| == 0 {
      assert s == target;
      assert s[|target|..] == [];
    } else {
      assert s[..|target|] != target by {
        assert s[..|target|][0] == x[0];
      }
      assert Replace(s, target, replacement) == [s[0]] + Replace(s[1..], target, replacement);
      assert s[1..] == x[1..] + target;
      assert forall i :: 0 <= i < |x[1..]| ==> x[1..][i] == x[i + 1];
      ReplaceBeforeTarget(x[1..], target, replacement);
      assert [x[0]] + (x[1..] + replacement) == x + replacement;
    }
  }

  /** A leading occurrence is replaced and scanning resumes right after it. */
  lemma ReplaceLeading(target: string, rest: string, replacement: string)
    requires |target| > 0
    ensures Replace(target + rest, target, replacement) == replacement + Replace(rest, target, replacement)
  {
    var s := target + rest;
    assert s[..|target|] == target;
    assert s[|target|..] == rest;
  }

  /** `String.replaceAll(" ", "\n")` and friends: a one-character literal
      pattern, so every occurrence of `from` becomes `to`. */
  function ReplaceChar(s: string, from: char, to: char): (r: string)
    ensures |r| == |s|
    ensures forall i :: 0 <= i < |s| ==> r[i] == (if s[i] == from then to else s[i])
  {
    if |s| == 0 then []
    else [if s[0] == from then to else s[0]] + ReplaceChar(s[1..], from, to)
  }

  /** Replacing a character that is absent changes nothing. */
  lemma ReplaceCharAbsent(s: string, from: char, to: char)
    requires from !in s
    ensures ReplaceChar(s, from, to) == s
  {
  }

  /** Replacing `a` by `b` and then `b` by `a` restores a text that had no `b`. */
  lemma ReplaceCharBack(s: string, a: char, b: char)
    requires b !in s
    ensures ReplaceChar(ReplaceChar(s, a, b), b, a) == s
  {
  }

  lemma ReplaceCharConcat(s: string, t: string, from: char, to: char)
    ensures ReplaceChar(s + t, from, to) == ReplaceChar(s, from, to) + ReplaceChar(t, from, to)
  {
  }

  // ---------------------------------------------------------------------
  // String.trim
  // ---------------------------------------------------------------------

  /** `trim` treats every character at or below U+0020 as blank. */
  predicate IsBlank(c: char) {
    c <= ' '
  }

  predicate AllBlank(s: string) {
    forall i :: 0 <= i < |s| ==> IsBlank(s[i])
  }

  function TrimStart(s: string): (r: string)
    ensures |r| <= |s| && r == s[|s| - |r|..]
    ensures AllBlank(s[..|s| - |r|])
    ensures r == [] || !IsBlank(r[0])
  {
    if |s| > 0 && IsBlank(s[0]) then TrimStart(s[1..]) else s
  }

  function TrimEnd(s: string): (r: string)
    ensures |r| <= |s| && r == s[..|r|]
    ensures AllBlank(s[|r|..])
    ensures r == [] || !IsBlank(r[|r| - 1])
  {
    if |s| > 0 && IsBlank(s[|s| - 1]) then
      var r := TrimEnd(s[..|s| - 1]);
      assert s[|r|..] == s[..|s| - 1][|r|..] + [s[|s| - 1]];
      r
    else s
  }

  /** `String.trim`: blanks are removed from both ends, so the result neither
      starts nor ends with one; `TrimOf` states which slice of the input it
      is. */
  function Trim(s: string): (r: string)
    ensures |r| <= |s|
    ensures r == [] || (!IsBlank(r[0]) && !IsBlank(r[|r| - 1]))
  {
    TrimEnd(TrimStart(s))
  }

  lemma {:induction false} TrimStartOf(v: string, u: string)
    requires AllBlank(v)
    requires u == [] || !IsBlank(u[0])
    ensures TrimStart(v + u) == u
    decreases |v|
  {
    if |v| > 0 {
      assert (v + u)[1..] == v[1..] + u;
      TrimStartOf(v[1..], u);
    } else {
      assert v + u == u;
    }
  }

  lemma {:induction false} TrimEndOf(u: string, w: string)
    requires AllBlank(w)
    requires u == [] || !IsBlank(u[|u| - 1])
    ensures TrimEnd(u + w) == u
    decreases |w|
  {
    if |w| > 0 {
      assert (u + w)[..|u + w| - 1] == u + w[..|w| - 1];
      TrimEndOf(u, w[..|w| - 1]);
    } else {
      assert u + w == u;
    }
  }

  /** Trim recovers exactly the core of a text padded with blanks on both
      sides, whatever the padding: the decomposition it finds is unique. */
  lemma TrimOf(v: string, u: string, w: string)
    requires AllBlank(v) && AllBlank(w)
    requires u == [] || (!IsBlank(u[0]) && !IsBlank(u[|u| - 1]))
    ensures Trim(v + u + w) == u
  {
    if u == [] {
      assert v + u + w == v + w;
      TrimStartOf(v + w, []);
      assert v + w + [] == v + w;
      TrimEndOf([], []);
    } else {
      assert v + u + w == v + (u + w);
      TrimStartOf(v, u + w);
      TrimEndOf(u, w);
    }
  }

  // ---------------------------------------------------------------------
  // equalsIgnoreCase and Boolean.parseBoolean
  // ---------------------------------------------------------------------

  function AsciiUpper(c: char): char {
    if 'a' <= c <= 'z' then (c as int - 32) as char else c
  }

  function AsciiLower(c: char): char {
    if 'A' <= c <= 'Z' then (c as int + 32) as char else c
  }

  /** `String.equalsIgnoreCase` over ASCII case folding: same length, and
      characters pairwise equal once upper-cased. */
  predicate EqualsIgnoreCase(a: string, b: string) {
    |a| == |b| && forall i :: 0 <= i < |a| ==> AsciiUpper(a[i]) == AsciiUpper(b[i])
  }

  function LowerCase(s: string): (r: string)
    ensures |r| == |s|
    ensures forall i :: 0 <= i < |s| ==> r[i] == AsciiLower(s[i])
  {
    if |s| == 0 then [] else [AsciiLower(s[0])] + LowerCase(s[1..])
  }

  /** `Boolean.parseBoolean`: true exactly for "true" in any letter case. */
  predicate ParseBoolean(s: string) {
    EqualsIgnoreCase(s, "true")
  }

  /** `parseBoolean` accepts a string exactly when its lower-case form is
      "true"; in particular "false", "yes", "1" and the empty string all give
      false. */
  lemma ParseBooleanIsLowerTrue(s: string)
    ensures ParseBoolean(s) <==> LowerCase(s) == "true"
  {
    if ParseBoolean(s) {
      var l := LowerCase(s);
      forall i | 0 <= i < 4
        ensures l[i] == "true"[i]
      {
        assert AsciiUpper(s[i]) == AsciiUpper("true"[i]);
      }
    }
    if LowerCase(s) == "true" {
      forall i | 0 <= i < |s|
        ensures AsciiUpper(s[i]) == AsciiUpper("true"[i])
      {
        assert AsciiLower(s[i]) == "true"[i];
      }
    }
  }

  // ---------------------------------------------------------------------
  // Integer.parseInt(s) in radix 10 and Integer.toString
  // ---------------------------------------------------------------------

  const INT_MIN: int := -0x8000_0000
  const INT_MAX: int := 0x7FFF_FFFF

  predicate IsDigit(c: char) {
    '0' <= c <= '9'
  }

  predicate AllDigits(s: string) {
    forall i :: 0 <= i < |s| ==> IsDigit(s[i])
  }

  /** The value of a run of decimal digits, most significant first. */
  function DigitsValue(ds: string): (n: nat)
    requires AllDigits(ds)
    decreases |ds|
  {
    if |ds| == 0 then 0
    else DigitsValue(ds[..|ds| - 1]) * 10 + (ds[|ds| - 1] as int - '0' as int)
  }

  /** An optional sign followed by at least one decimal digit. */
  predicate IsDecimal(s: string) {
    if |s| > 0 && (s[0] == '-' || s[0] == '+') then |s| > 1 && AllDigits(s[1..])
    else |s| > 0 && AllDigits(s)
  }

  /** The mathematical value of a well-formed decimal string. */
  function DecimalValue(s: string): int
    requires IsDecimal(s)
  {
    if s[0] == '-' then -(DigitsValue(s[1..]) as int)
    else if s[0] == '+' then DigitsValue(s[1..])
    else DigitsValue(s)
  }

  /** `Integer.parseInt(s)`: `None` stands for the `NumberFormatException`
      thrown for an empty string, a lone sign, a non-digit, or a value outside
      the 32-bit range. */
  function ParseInt(s: string): (r: Option<int>)
    ensures r.Some? <==> IsDecimal(s) && INT_MIN <= DecimalValue(s) <= INT_MAX
    ensures r.Some? ==> r.value == DecimalValue(s)
  {
    if IsDecimal(s) && INT_MIN <= DecimalValue(s) <= INT_MAX then Some(DecimalValue(s)) else None
  }

  /** Length of the sign `parseInt` accepts in front of the digits. */
  function SignLength(s: string): nat {
    if |s| > 0 && (s[0] == '-' || s[0] == '+') then 1 else 0
  }

  /** Appending a digit multiplies the value by ten and adds the digit. */
  lemma DigitsValueSnoc(ds: string, c: char)
    requires AllDigits(ds) && IsDigit(c)
    ensures AllDigits(ds + [c])
    ensures DigitsValue(ds + [c]) == DigitsValue(ds) * 10 + (c as int - '0' as int)
  {
    assert (ds + [c])[..|ds|] == ds;
  }

  /** A prefix of a digit run never has a larger value than the whole run. */
  lemma {:induction false} DigitsValuePrefix(ds: string, k: nat)
    requires AllDigits(ds) && k <= |ds|
    ensures DigitsValue(ds[..k]) <= DigitsValue(ds)
    decreases |ds| - k
  {
    if k < |ds| {
      assert ds[..k + 1] == ds[..k] + [ds[k]];
      DigitsValueSnoc(ds[..k], ds[k]);
      DigitsValuePrefix(ds, k + 1);
    } else {
      assert ds[..k] == ds;
    }
  }

  /** The largest magnitude `parseInt` accepts after the sign of `s`. */
  function Magnitude(s: string): int {
    if |s| > 0 && s[0] == '-' then -INT_MIN else INT_MAX
  }

  /** `parseInt` fails on the empty text and on a lone sign ... */
  lemma ParseIntNoDigits(s: string)
    requires |s| <= SignLength(s)
    ensures ParseInt(s) == None
  {
  }

  /** ... when the text after the sign is not all digits ... */
  lemma ParseIntNonDigit(s: string)
    requires !AllDigits(s[SignLength(s)..])
    ensures ParseInt(s) == None
  {
    assert s[0..] == s;
  }

  /** ... or when a digit run, or any prefix of it, exceeds the magnitude. */
  lemma ParseIntOverflow(s: string, k: nat)
    requires SignLength(s) + k <= |s|
    requires AllDigits(s[SignLength(s)..SignLength(s) + k])
    requires DigitsValue(s[SignLength(s)..SignLength(s) + k]) > Magnitude(s)
    ensures ParseInt(s) == None
  {
    var t := s[SignLength(s)..];
    assert s[0..] == s;
    if AllDigits(t) {
      assert t[..k] == s[SignLength(s)..SignLength(s) + k];
      DigitsValuePrefix(t, k);
    }
  }

  /** A digit run within the magnitude is the parsed value, negated after `-`. */
  lemma ParseIntInRange(s: string)
    requires SignLength(s) < |s|
    requires AllDigits(s[SignLength(s)..])
    requires DigitsValue(s[SignLength(s)..]) <= Magnitude(s)
    ensures ParseInt(s) == Some(if s[0] == '-' then -(DigitsValue(s[SignLength(s)..]) as int)
                                else DigitsValue(s[SignLength(s)..]))
  {
    assert s[0..] == s;
  }

  /** The digit loop of the JDK's `Integer.parseInt(s, 10)`: the value is
      accumulated negatively against `limit` (`-INT_MAX`, or `INT_MIN` after
      a `-`), and `multmin`, Java's truncating `limit / 10`, guards the
      multiplication, so no intermediate value leaves the 32-bit range. It
      succeeds exactly on a digit run whose value is at most `-limit`. */
  method AccumulateDigits(ds: string, limit: int) returns (r: Option<int>)
    requires limit == INT_MIN || limit == -INT_MAX
    ensures r.Some? <==> AllDigits(ds) && DigitsValue(ds) <= -limit
    ensures r.Some? ==> r.value == -(DigitsValue(ds) as int)
  {
    // -limit is non-negative, so Dafny's `/` equals Java's truncating one.
    var multmin := -((-limit) / 10);
    var result := 0;
    var i := 0;
    while i < |ds|
      invariant i <= |ds|
      invariant AllDigits(ds[..i])
      invariant result == -(DigitsValue(ds[..i]) as int)
      invariant limit <= result <= 0
    {
      var c := ds[i];
      if !IsDigit(c) {
        return None;
      }
      assert ds[..i + 1] == ds[..i] + [c];
      DigitsValueSnoc(ds[..i], c);
      if result < multmin {
        if AllDigits(ds) {
          DigitsValuePrefix(ds, i + 1);
        }
        return None;
      }
      assert INT_MIN <= result * 10;
      result := result * 10;
      var digit := c as int - '0' as int;
      if result < limit + digit {
        if AllDigits(ds) {
          DigitsValuePrefix(ds, i + 1);
        }
        return None;
      }
      result := result - digit;
      i := i + 1;
    }
    assert ds[..i] == ds;
    r := Some(result);
  }

  /** The JDK's `Integer.parseInt(s, 10)`: an optional sign chooses the
      limit, then the digit loop runs over the rest. It agrees with the
      closed form `ParseInt` on every string. */
  method ParseIntLoop(s: string) returns (r: Option<int>)
    ensures r == ParseInt(s)
  {
    if |s| == 0 {
      return None;
    }
    var negative := false;
    var limit := -INT_MAX;
    var i := 0;
    if s[0] < '0' {
      if s[0] == '-' {
        negative := true;
        limit := INT_MIN;
      } else if s[0] != '+' {
        ParseIntNonDigit(s);
        return None;
      }
      if |s| == 1 {
        return None;
      }
      i := 1;
    }
    assert i == SignLength(s) && limit == -Magnitude(s);
    var acc := AccumulateDigits(s[i..], limit);
    if acc.None? {
      if AllDigits(s[i..]) {
        assert s[i..i + (|s| - i)] == s[i..];
        ParseIntOverflow(s, |s| - i);
      } else {
        ParseIntNonDigit(s);
      }
      return None;
    }
    ParseIntInRange(s);
    r := Some(if negative then acc.value else -acc.value);
  }

  function DigitChar(d: int): (c: char)
    requires 0 <= d < 10
    ensures IsDigit(c) && c as int - '0' as int == d
  {
    ('0' as int + d) as char
  }

  /** Decimal digits of a natural number, most significant first. */
  function NatToDecimal(n: nat): (s: string)
    ensures |s| > 0 && AllDigits(s)
  {
    if n < 10 then [DigitChar(n)] else NatToDecimal(n / 10) + [DigitChar(n % 10)]
  }

  /** `Integer.toString(n)`. */
  function IntToString(n: int): (s: string)
    ensures IsDecimal(s)
  {
    if n < 0 then "-" + NatToDecimal(-n) else NatToDecimal(n)
  }

  lemma {:induction false} NatToDecimalValue(n: nat)
    ensures DigitsValue(NatToDecimal(n)) == n
  {
    if n >= 10 {
      var s := NatToDecimal(n);
      NatToDecimalValue(n / 10);
      assert s[..|s| - 1] == NatToDecimal(n / 10);
    }
  }

  /** Round trip: every 32-bit value printed in decimal parses back to itself. */
  lemma ParseIntToString(n: int)
    requires INT_MIN <= n <= INT_MAX
    ensures ParseInt(IntToString(n)) == Some(n)
  {
    NatToDecimalValue(if n < 0 then -n else n);
    if n < 0 {
      assert IntToString(n)[1..] == NatToDecimal(-n);
    } else {
      assert NatToDecimal(n)[0] != '-' && NatToDecimal(n)[0] != '+';
    }
  }
}
