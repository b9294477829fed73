/**
 * The string built-ins the leaderboard relies on: `String(n)` for integers,
 * `parseInt`, and `split` with a one-character separator, each with the
 * partner that undoes it.
 */
module Text {
  datatype Option<T> = None | Some(value: T)

  predicate IsDigit(c: char) {
    '0' <= c <= '9'
  }

  predicate AllDigits(s: string) {
    forall i | 0 <= i < |s| :: IsDigit(s[i])
  }

  function DigitChar(d: int): (c: char)
    requires 0 <= d < 10
    ensures IsDigit(c) && c as int - 48 == d
  {
    (48 + d) as char
  }

  /** `String(n)` for a non-negative integer: its decimal digits without leading zeros. */
  function NatToString(n: nat): (r: string)
    ensures 1 <= |r| && AllDigits(r)
    ensures r[0] == '0' ==> n == 0
    decreases n
  {
    if n < 10 then [DigitChar(n)] else NatToString(n / 10) + [DigitChar(n % 10)]
  }

  /** `String(i)` for any integer: a minus sign before the digits of a negative one. */
  function IntToString(i: int): (r: string)
    ensures 1 <= |r| && (r[0] == '-' <==> i < 0)
    ensures i < 0 ==> AllDigits(r[1..])
    ensures 0 <= i ==> AllDigits(r)
  {
    if i < 0 then "-" + NatToString(-i) else NatToString(i)
  }

  /** The number a string of decimal digits denotes. */
  function DigitsValue(s: string): nat
    requires AllDigits(s)
  {
    if |s| == 0 then 0 else DigitsValue(s[..|s| - 1]) * 10 + (s[|s| - 1] as int - 48)
  }

  lemma {:induction false} DigitsOfNat(n: nat)
    ensures DigitsValue(NatToString(n)) == n
    decreases n
  {
    if 10 <= n {
      var r := NatToString(n);
      assert r[..|r| - 1] == NatToString(n / 10);
      DigitsOfNat(n / 10);
    }
  }

  /** The length of the longest prefix of s made of digits. */
  function DigitRun(s: string): (k: nat)
    ensures k <= |s| && AllDigits(s[..k])
    ensures k < |s| ==> !IsDigit(s[k])
  {
    if |s| == 0 || !IsDigit(s[0]) then 0
    else
      var k := 1 + DigitRun(s[1..]);
      assert s[..k] == [s[0]] + s[1..][..k - 1];
      k
  }

  /** The white space `parseInt` skips before the number. */
  predicate IsSpace(c: char) {
    c == ' ' || c == '\t' || c == '\n' || c == '\r' || c == '\U{B}' || c == '\U{C}'
  }

  function TrimStart(s: string): (r: string)
    ensures |r| <= |s| && r == s[|s| - |r|..]
    ensures |r| == 0 || !IsSpace(r[0])
  {
    if |s| == 0 || !IsSpace(s[0]) then s else TrimStart(s[1..])
  }

  /**
   * `parseInt(s)` in base ten: leading white space, an optional sign, then
   * the longest run of digits; None (NaN) when there is no digit.
   */
  function ParseInt(s: string): (r: Option<int>)
    ensures r.None? <==> DigitRun(Unsigned(TrimStart(s))) == 0
  {
    var t := TrimStart(s);
    var body := Unsigned(t);
    var k := DigitRun(body);
    if k == 0 then None
    else
      var v: int := DigitsValue(body[..k]);
      if 0 < |t| && t[0] == '-' then Some(-v) else Some(v)
  }

  /** What follows an optional leading sign. */
  function Unsigned(t: string): (r: string)
    ensures r == t || (0 < |t| && (t[0] == '-' || t[0] == '+') && r == t[1..])
  {
    if 0 < |t| && (t[0] == '-' || t[0] == '+') then t[1..] else t
  }

  /** `parseInt(String(i)) == i` for every integer. */
  lemma ParseIntOfString(i: int)
    ensures ParseInt(IntToString(i)) == Some(i)
  {
    var r := IntToString(i);
    assert TrimStart(r) == r;
    var n: nat := if i < 0 then -i else i;
    var digits := NatToString(n);
    assert Unsigned(r) == digits;
    DigitRunAll(digits);
    assert digits[..|digits|] == digits;
    DigitsOfNat(n);
  }

  lemma {:induction false} DigitRunAll(s: string)
    requires AllDigits(s)
    ensures DigitRun(s) == |s|
    decreases |s|
  {
    if |s| > 0 {
      DigitRunAll(s[1..]);
    }
  }

  /**
   * `s.split(c)`: the pieces of s between the occurrences of c, in order;
   * an empty s gives one empty piece.
   */
  function Split(s: string, c: char): (r: seq<string>)
    ensures 1 <= |r|
    ensures forall k | 0 <= k < |r| :: c !in r[k]
    decreases |s|
  {
    if |s| == 0 then [""]
    else
      var rest := Split(s[1..], c);
      if s[0] == c then [""] + rest else [[s[0]] + rest[0]] + rest[1..]
  }

  /** `xs.join(c)`: the pieces with c between neighbours. */
  function Join(xs: seq<string>, c: char): string
    requires 1 <= |xs|
  {
    if |xs| == 1 then xs[0] else xs[0] + [c] + Join(xs[1..], c)
  }

  /** Splitting and joining on the same character restores the string. */
  lemma {:induction false} JoinSplit(s: string, c: char)
    ensures Join(Split(s, c), c) == s
    decreases |s|
  {
    if |s| > 0 {
      var rest := Split(s[1..], c);
      JoinSplit(s[1..], c);
      if s[0] == c {
        assert Split(s, c)[1..] == rest;
      } else if |rest| == 1 {
        assert s == [s[0]] + s[1..];
      } else {
        assert Split(s, c)[1..] == rest[1..];
        assert Join(rest, c) == rest[0] + [c] + Join(rest[1..], c);
        assert s == [s[0]] + s[1..];
      }
    }
  }

  /** Joining pieces free of c and splitting on c gives back the pieces. */
  lemma {:induction false} SplitJoin(xs: seq<string>, c: char)
    requires 1 <= |xs| && forall k | 0 <= k < |xs| :: c !in xs[k]
    ensures Split(Join(xs, c), c) == xs
    decreases |xs|
  {
    if |xs| == 1 {
      SplitPlain(xs[0], c);
    } else {
      SplitJoin(xs[1..], c);
      SplitAfterPiece(xs[0], Join(xs[1..], c), c);
      assert xs == [xs[0]] + xs[1..];
    }
  }

  lemma {:induction false} SplitPlain(x: string, c: char)
    requires c !in x
    ensures Split(x, c) == [x]
    decreases |x|
  {
    if |x| > 0 {
      SplitPlain(x[1..], c);
      assert x == [x[0]] + x[1..];
    }
  }

  lemma {:induction false} SplitAfterPiece(x: string, rest: string, c: char)
    requires c !in x
    ensures Split(x + [c] + rest, c) == [x] + Split(rest, c)
    decreases |x|
  {
    var s := x + [c] + rest;
    if |x| == 0 {
      assert s[0] == c && s[1..] == rest;
    } else {
      assert s[0] == x[0] && s[1..] == x[1..] + [c] + rest;
      SplitAfterPiece(x[1..], rest, c);
      assert x == [x[0]] + x[1..];
    }
  }
}
