/**
 * The browser's `btoa` and `atob`: base64 as in section 4 of RFC 4648, on
 * strings whose characters stand for bytes (code points 0 to 255).
 * `atob` follows the forgiving decoder of the HTML standard: it drops one or
 * two trailing "=" from a string whose length is a multiple of four, refuses
 * a remaining length of the form 4k + 1 and any character outside the
 * alphabet, and ignores the unused low bits of a last partial group.
 */
module Base64 {
  import opened Text

  /** Every character is a byte, the only input `btoa` accepts. */
  predicate Latin1(s: string) {
    forall i | 0 <= i < |s| :: s[i] as int < 256
  }

  /** The character of the base64 alphabet for a six-bit value. */
  function Digit(v: int): (c: char)
    requires 0 <= v < 64
    ensures IsDigit64(c) && Value(c) == v
  {
    if v < 26 then (65 + v) as char
    else if v < 52 then (71 + v) as char
    else if v < 62 then (v - 4) as char
    else if v == 62 then '+' else '/'
  }

  predicate IsDigit64(c: char) {
    ('A' <= c <= 'Z') || ('a' <= c <= 'z') || ('0' <= c <= '9') || c == '+' || c == '/'
  }

  predicate AllDigits64(s: string) {
    forall i | 0 <= i < |s| :: IsDigit64(s[i])
  }

  /** The six-bit value of an alphabet character. */
  function Value(c: char): (v: int)
    requires IsDigit64(c)
    ensures 0 <= v < 64
  {
    if 'A' <= c <= 'Z' then c as int - 65
    else if 'a' <= c <= 'z' then c as int - 71
    else if '0' <= c <= '9' then c as int + 4
    else if c == '+' then 62 else 63
  }

  function Byte(n: int): (c: char)
    requires 0 <= n < 256
    ensures c as int == n
  {
    n as char
  }

  /** The base64 digits of s, without the "=" padding. */
  function Unpadded(s: string): (r: string)
    requires Latin1(s)
    ensures AllDigits64(r)
  {
    if |s| == 0 then ""
    else if |s| == 1 then Group1(s[0] as int)
    else if |s| == 2 then Group2(s[0] as int, s[1] as int)
    else Group3(s[0] as int, s[1] as int, s[2] as int) + Unpadded(s[3..])
  }

  /** How many digits `Unpadded` gives for n bytes. */
  function DigitCount(n: nat): nat {
    if n == 0 then 0 else if n == 1 then 2 else if n == 2 then 3 else 4 + DigitCount(n - 3)
  }

  lemma {:induction false} DigitCountMod(n: nat)
    ensures DigitCount(n) % 4 == (if n % 3 == 0 then 0 else n % 3 + 1)
    ensures DigitCount(n) == 0 <==> n == 0
    decreases n
  {
    if n > 2 {
      DigitCountMod(n - 3);
    }
  }

  /** The padding fills the last group of four. */
  lemma {:induction false} PaddedCount(n: nat)
    ensures (DigitCount(n) + |Padding(n)|) % 4 == 0
    decreases n
  {
    if n > 2 {
      PaddedCount(n - 3);
      assert Padding(n) == Padding(n - 3);
    }
  }

  /** Four digits for every three bytes, two or three for a last one or two. */
  lemma {:induction false} UnpaddedLength(s: string)
    requires Latin1(s)
    ensures |Unpadded(s)| % 4 == (if |s| % 3 == 0 then 0 else |s| % 3 + 1)
    ensures |Unpadded(s)| == 0 <==> |s| == 0
  {
    UnpaddedCount(s);
    DigitCountMod(|s|);
  }

  lemma {:induction false} UnpaddedCount(s: string)
    requires Latin1(s)
    ensures |Unpadded(s)| == DigitCount(|s|)
    decreases |s|
  {
    if |s| > 2 {
      assert Latin1(s[3..]);
      UnpaddedCount(s[3..]);
    }
  }

  /** Three bytes as four digits. */
  function Group3(b0: int, b1: int, b2: int): (r: string)
    requires 0 <= b0 < 256 && 0 <= b1 < 256 && 0 <= b2 < 256
    ensures |r| == 4 && AllDigits64(r)
  {
    [Digit(b0 / 4), Digit(b0 % 4 * 16 + b1 / 16), Digit(b1 % 16 * 4 + b2 / 64), Digit(b2 % 64)]
  }

  /** Two last bytes as three digits, the low bits of the last one zero. */
  function Group2(b0: int, b1: int): (r: string)
    requires 0 <= b0 < 256 && 0 <= b1 < 256
    ensures |r| == 3 && AllDigits64(r)
  {
    [Digit(b0 / 4), Digit(b0 % 4 * 16 + b1 / 16), Digit(b1 % 16 * 4)]
  }

  /** One last byte as two digits. */
  function Group1(b0: int): (r: string)
    requires 0 <= b0 < 256
    ensures |r| == 2 && AllDigits64(r)
  {
    [Digit(b0 / 4), Digit(b0 % 4 * 16)]
  }

  /** The "=" characters that fill the last group of four. */
  function Padding(n: nat): string {
    if n % 3 == 1 then "==" else if n % 3 == 2 then "=" else ""
  }

  /** `btoa(s)`: None where the browser throws, on a character above 255. */
  function Btoa(s: string): (r: Option<string>)
    ensures r.Some? <==> Latin1(s)
    ensures r.Some? ==> |r.value| % 4 == 0 && '|' !in r.value && Latin1(r.value)
  {
    if Latin1(s) then
      var e := Unpadded(s) + Padding(|s|);
      EncodedShape(s);
      Some(e)
    else None
  }

  /** Alphabet characters and "=" only. */
  predicate Encoded(e: string) {
    forall i | 0 <= i < |e| :: IsDigit64(e[i]) || e[i] == '='
  }

  lemma EncodedShape(s: string)
    requires Latin1(s)
    ensures Encoded(Unpadded(s) + Padding(|s|)) && |Unpadded(s) + Padding(|s|)| % 4 == 0
    ensures '|' !in Unpadded(s) + Padding(|s|) && Latin1(Unpadded(s) + Padding(|s|))
  {
    var u, pad := Unpadded(s), Padding(|s|);
    var e := u + pad;
    UnpaddedCount(s);
    PaddedCount(|s|);
    forall i | 0 <= i < |e|
      ensures (IsDigit64(e[i]) || e[i] == '=') && e[i] != '|' && e[i] as int < 256
    {
      if i < |u| {
        assert e[i] == u[i];
      } else {
        assert e[i] == pad[i - |u|];
      }
    }
  }

  /** The first step of `atob`: up to two trailing "=" of a string of whole groups. */
  function Unpad(s: string): string {
    if |s| % 4 == 0 && 0 < |s| && s[|s| - 1] == '=' then
      if 2 <= |s| && s[|s| - 2] == '=' then s[..|s| - 2] else s[..|s| - 1]
    else s
  }

  /** `atob(s)`: None where the browser throws. */
  function Atob(s: string): (r: Option<string>)
    ensures r.Some? ==> Latin1(r.value)
  {
    var t := Unpad(s);
    if |t| % 4 == 1 || !AllDigits64(t) then None else Some(Decode(t))
  }

  /** The bytes a string of base64 digits stands for. */
  function Decode(t: string): (r: string)
    requires AllDigits64(t) && |t| % 4 != 1
    ensures Latin1(r)
  {
    if |t| == 0 then ""
    else if |t| == 2 then Bytes1(Value(t[0]), Value(t[1]))
    else if |t| == 3 then Bytes2(Value(t[0]), Value(t[1]), Value(t[2]))
    else Bytes3(Value(t[0]), Value(t[1]), Value(t[2]), Value(t[3])) + Decode(t[4..])
  }

  /** Four six-bit values as three bytes. */
  function Bytes3(v0: int, v1: int, v2: int, v3: int): (r: string)
    requires 0 <= v0 < 64 && 0 <= v1 < 64 && 0 <= v2 < 64 && 0 <= v3 < 64
    ensures Latin1(r)
  {
    [Byte(v0 * 4 + v1 / 16), Byte(v1 % 16 * 16 + v2 / 4), Byte(v2 % 4 * 64 + v3)]
  }

  /** Three last six-bit values as two bytes; the low bits of the last are dropped. */
  function Bytes2(v0: int, v1: int, v2: int): (r: string)
    requires 0 <= v0 < 64 && 0 <= v1 < 64 && 0 <= v2 < 64
    ensures Latin1(r)
  {
    [Byte(v0 * 4 + v1 / 16), Byte(v1 % 16 * 16 + v2 / 4)]
  }

  /** Two last six-bit values as one byte. */
  function Bytes1(v0: int, v1: int): (r: string)
    requires 0 <= v0 < 64 && 0 <= v1 < 64
    ensures Latin1(r)
  {
    [Byte(v0 * 4 + v1 / 16)]
  }

  /** Regrouping three bytes into four six-bit values and back. */
  lemma Regroup(b0: int, b1: int, b2: int)
    requires 0 <= b0 < 256 && 0 <= b1 < 256 && 0 <= b2 < 256
    ensures Bytes3(b0 / 4, b0 % 4 * 16 + b1 / 16, b1 % 16 * 4 + b2 / 64, b2 % 64) == [b0 as char, b1 as char, b2 as char]
  {
    assert (b0 % 4 * 16 + b1 / 16) / 16 == b0 % 4;
    assert (b0 % 4 * 16 + b1 / 16) % 16 == b1 / 16;
    assert (b1 % 16 * 4 + b2 / 64) / 4 == b1 % 16;
    assert (b1 % 16 * 4 + b2 / 64) % 4 == b2 / 64;
  }

  /** The four digits of three bytes decode to those bytes. */
  lemma GroupBytes(b0: int, b1: int, b2: int)
    requires 0 <= b0 < 256 && 0 <= b1 < 256 && 0 <= b2 < 256
    ensures var g := Group3(b0, b1, b2);
      Bytes3(Value(g[0]), Value(g[1]), Value(g[2]), Value(g[3])) == [b0 as char, b1 as char, b2 as char]
  {
    GroupValues(b0, b1, b2);
    Regroup(b0, b1, b2);
  }

  /** The six-bit values of the four digits of three bytes. */
  lemma GroupValues(b0: int, b1: int, b2: int)
    requires 0 <= b0 < 256 && 0 <= b1 < 256 && 0 <= b2 < 256
    ensures var g := Group3(b0, b1, b2);
      && Value(g[0]) == b0 / 4 && Value(g[1]) == b0 % 4 * 16 + b1 / 16
      && Value(g[2]) == b1 % 16 * 4 + b2 / 64 && Value(g[3]) == b2 % 64
  {
  }

  lemma DecodeGroup3(b0: int, b1: int, b2: int, rest: string)
    requires 0 <= b0 < 256 && 0 <= b1 < 256 && 0 <= b2 < 256
    requires AllDigits64(rest) && |rest| % 4 != 1
    ensures Decode(Group3(b0, b1, b2) + rest) == [b0 as char, b1 as char, b2 as char] + Decode(rest)
  {
    DecodeFront(Group3(b0, b1, b2), rest);
    GroupBytes(b0, b1, b2);
  }

  /** A leading group of four digits decodes on its own. */
  lemma DecodeFront(g: string, rest: string)
    requires |g| == 4 && AllDigits64(g) && AllDigits64(rest) && |rest| % 4 != 1
    ensures AllDigits64(g + rest) && |g + rest| % 4 != 1
    ensures Decode(g + rest) == Bytes3(Value(g[0]), Value(g[1]), Value(g[2]), Value(g[3])) + Decode(rest)
  {
    var t := g + rest;
    assert t[..4] == g && t[4..] == rest;
  }

  lemma DecodeGroup2(b0: int, b1: int)
    requires 0 <= b0 < 256 && 0 <= b1 < 256
    ensures Decode(Group2(b0, b1)) == [b0 as char, b1 as char]
  {
    var g := Group2(b0, b1);
    assert Decode(g) == Bytes2(Value(g[0]), Value(g[1]), Value(g[2]));
    assert (b0 % 4 * 16 + b1 / 16) / 16 == b0 % 4;
    assert (b0 % 4 * 16 + b1 / 16) % 16 == b1 / 16;
  }

  lemma DecodeGroup1(b0: int)
    requires 0 <= b0 < 256
    ensures Decode(Group1(b0)) == [b0 as char]
  {
  }

  /** Decoding the digits of s gives s back. */
  lemma {:induction false} DecodeUnpadded(s: string)
    requires Latin1(s)
    ensures |Unpadded(s)| % 4 != 1 && Decode(Unpadded(s)) == s
    decreases |s|
  {
    UnpaddedLength(s);
    if |s| == 1 {
      DecodeGroup1(s[0] as int);
    } else if |s| == 2 {
      DecodeGroup2(s[0] as int, s[1] as int);
    } else if |s| > 2 {
      var rest := s[3..];
      assert Latin1(rest);
      DecodeUnpadded(rest);
      UnpaddedLength(rest);
      DecodeGroup3(s[0] as int, s[1] as int, s[2] as int, Unpadded(rest));
      FirstThree(s);
    }
  }

  lemma FirstThree(s: string)
    requires 3 <= |s|
    ensures s == [s[0], s[1], s[2]] + s[3..]
  {
  }

  /** `atob(btoa(s)) == s` for every string `btoa` accepts. */
  lemma AtobBtoa(s: string)
    requires Latin1(s)
    ensures Atob(Btoa(s).value) == Some(s)
  {
    var u := Unpadded(s);
    UnpaddedLength(s);
    var e := u + Padding(|s|);
    assert Btoa(s).value == e;
    if |s| % 3 == 0 {
      assert e == u;
      if 0 < |u| {
        assert IsDigit64(u[|u| - 1]);
      }
    } else if |s| % 3 == 1 {
      assert e[..|e| - 2] == u;
    } else {
      assert e[..|e| - 1] == u;
      assert IsDigit64(u[|u| - 1]);
    }
    assert Unpad(e) == u;
    DecodeUnpadded(s);
  }
}
