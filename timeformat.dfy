/**
 * `_convert_time_to_string`: a duration in milliseconds shown as hours,
 * minutes and seconds, leaving out the leading units that are zero and the
 * milliseconds altogether.
 */
module TimeFormat {
  import opened Text

  datatype Clock = Clock(h: int, min: int, s: int, ms: int)

  /**
   * The `Math.floor` divisions of the source: whole hours, then the minutes,
   * seconds and milliseconds left over. A divisor is positive, so Dafny's
   * division is the floor division of the source for negative times too.
   */
  function Breakdown(time: int): (c: Clock)
    ensures c.h * 3600000 + c.min * 60000 + c.s * 1000 + c.ms == time
    ensures 0 <= c.ms < 1000 && 0 <= c.s < 60 && 0 <= c.min < 60
    ensures c.h * 3600 + c.min * 60 + c.s == time / 1000
  {
    var s := time / 1000;
    var min := s / 60;
    var h := min / 60;
    Clock(h, min - h * 60, s - min * 60, time - s * 1000)
  }

  function ConvertTimeToString(time: int): (r: string)
    ensures 0 <= time ==> (r == "" <==> time < 1000)
  {
    var c := Breakdown(time);
    if c.h > 0 then
      IntToString(c.h) + "h " + IntToString(c.min) + "min " + IntToString(c.s) + "s"
    else if c.min > 0 then
      IntToString(c.min) + "min " + IntToString(c.s) + "s"
    else if c.s > 0 then
      IntToString(c.s) + "s"
    else
      ""
  }

  /** A count followed by its unit: "3h", "12min", "5s"; None for anything else. */
  function ReadToken(token: string): Option<int> {
    var k := DigitRun(token);
    if k == 0 then None
    else
      var n := DigitsValue(token[..k]);
      var unit := token[k..];
      if unit == "h" then Some(n * 3600)
      else if unit == "min" then Some(n * 60)
      else if unit == "s" then Some(n)
      else None
  }

  function SumTokens(tokens: seq<string>): Option<int> {
    if |tokens| == 0 then Some(0)
    else match (ReadToken(tokens[0]), SumTokens(tokens[1..]))
      case (Some(a), Some(b)) => Some(a + b)
      case _ => None
  }

  /** The whole seconds a displayed duration stands for: its tokens between spaces, added up. */
  function ReadDuration(r: string): Option<int> {
    SumTokens(Split(r, ' '))
  }

  lemma {:induction false} DigitRunOfToken(n: nat, unit: string)
    requires 0 < |unit| && !IsDigit(unit[0])
    ensures DigitRun(NatToString(n) + unit) == |NatToString(n)|
  {
    var d := NatToString(n);
    DigitRunPrefix(d, unit);
  }

  lemma {:induction false} DigitRunPrefix(d: string, unit: string)
    requires AllDigits(d) && 0 < |unit| && !IsDigit(unit[0])
    ensures DigitRun(d + unit) == |d|
    decreases |d|
  {
    if |d| > 0 {
      assert (d + unit)[1..] == d[1..] + unit;
      DigitRunPrefix(d[1..], unit);
    }
  }

  lemma ReadTokenOf(n: nat, unit: string)
    requires unit == "h" || unit == "min" || unit == "s"
    ensures ReadToken(NatToString(n) + unit)
         == Some(if unit == "h" then n * 3600 else if unit == "min" then n * 60 else n)
  {
    var d := NatToString(n);
    var token := d + unit;
    DigitRunOfToken(n, unit);
    assert token[..|d|] == d && token[|d|..] == unit;
    DigitsOfNat(n);
  }

  /** The shown tokens add up to the whole seconds of the duration. */
  lemma ReadBack(time: int)
    requires 1000 <= time
    ensures ReadDuration(ConvertTimeToString(time)) == Some(time / 1000)
  {
    var c := Breakdown(time);
    var tokens := Tokens(c);
    ShownAsTokens(time);
    SplitJoin(tokens, ' ');
    TokensSum(c);
  }

  /** A duration of a second or more is shown as its tokens joined by spaces. */
  lemma ShownAsTokens(time: int)
    requires 1000 <= time
    ensures ConvertTimeToString(time) == Join(Tokens(Breakdown(time)), ' ')
  {
    var c := Breakdown(time);
    assert 0 <= c.h;
    var dh, dm, ds := NatToString(c.h), NatToString(c.min), NatToString(c.s);
    assert IntToString(c.h) == dh && IntToString(c.min) == dm && IntToString(c.s) == ds;
    var th, tm, ts := dh + "h", dm + "min", ds + "s";
    assert Join([ts], ' ') == ts;
    assert Join([tm, ts], ' ') == tm + [' '] + ts by {
      assert [tm, ts][1..] == [ts];
    }
    assert Join([th, tm, ts], ' ') == th + [' '] + (tm + [' '] + ts) by {
      assert [th, tm, ts][1..] == [tm, ts];
    }
    assert dm + "min " + ds + "s" == tm + [' '] + ts;
    assert dh + "h " + dm + "min " + ds + "s" == th + [' '] + (tm + [' '] + ts);
  }

  /** The tokens `ConvertTimeToString` joins with spaces. */
  function Tokens(c: Clock): (t: seq<string>)
    requires 0 <= c.h && 0 <= c.min && 0 <= c.s
    ensures 1 <= |t| && forall k | 0 <= k < |t| :: ' ' !in t[k]
  {
    NoSpace(c.h, "h");
    NoSpace(c.min, "min");
    NoSpace(c.s, "s");
    var th, tm, ts := NatToString(c.h) + "h", NatToString(c.min) + "min", NatToString(c.s) + "s";
    if c.h > 0 then [th, tm, ts] else if c.min > 0 then [tm, ts] else [ts]
  }

  lemma TokensSum(c: Clock)
    requires 0 <= c.h && 0 <= c.min && 0 <= c.s
    ensures SumTokens(Tokens(c)) == Some(c.h * 3600 + c.min * 60 + c.s)
  {
    var th, tm, ts := NatToString(c.h) + "h", NatToString(c.min) + "min", NatToString(c.s) + "s";
    ReadTokenOf(c.h, "h");
    ReadTokenOf(c.min, "min");
    ReadTokenOf(c.s, "s");
    assert SumTokens([ts]) == Some(c.s);
    assert SumTokens([tm, ts]) == Some(c.min * 60 + c.s) by {
      assert [tm, ts][1..] == [ts];
    }
    assert [th, tm, ts][1..] == [tm, ts];
  }

  lemma NoSpace(n: nat, unit: string)
    requires ' ' !in unit
    ensures ' ' !in NatToString(n) + unit
  {
    var d := NatToString(n);
    forall i | 0 <= i < |d| ensures d[i] != ' ' {
      assert IsDigit(d[i]);
    }
  }
}
