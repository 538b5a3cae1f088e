/** PHP's base64_encode and its non-strict base64_decode (RFC 4648,
    section 4), and the URL-safe alphabet of section 5 that the token
    segments are written in.  Both directions go through the 6-bit groups
    ("sextets") a byte string is cut into. */
module Base64 {
  import opened Php

  type Sextet = x: int | 0 <= x < 64

  /** The standard alphabet: A-Z, a-z, 0-9, '+', '/'. */
  function StdSymbol(v: Sextet): Byte {
    if v < 26 then (65 + v) as char
    else if v < 52 then (97 + v - 26) as char
    else if v < 62 then (48 + v - 52) as char
    else if v == 62 then '+'
    else '/'
  }

  /** The URL- and filename-safe alphabet: as the standard one, with '-'
      and '_' in place of '+' and '/'. */
  function UrlSymbol(v: Sextet): Byte {
    if v == 62 then '-' else if v == 63 then '_' else StdSymbol(v)
  }

  /** The characters of the URL-safe alphabet. */
  predicate IsUrlSafe(c: Byte) {
    'A' <= c <= 'Z' || 'a' <= c <= 'z' || '0' <= c <= '9' || c == '-' || c == '_'
  }

  /** The decoder's reverse table: the value of a standard-alphabet
      character, and None for '=' and every character it skips. */
  function StdValue(c: Byte): (r: Option<Sextet>)
    ensures r.Some? ==> StdSymbol(r.value) == c
  {
    if 'A' <= c <= 'Z' then Some(c as int - 65)
    else if 'a' <= c <= 'z' then Some(c as int - 97 + 26)
    else if '0' <= c <= '9' then Some(c as int - 48 + 52)
    else if c == '+' then Some(62)
    else if c == '/' then Some(63)
    else None
  }

  lemma StdValueOfSymbol(v: Sextet)
    ensures StdValue(StdSymbol(v)) == Some(v)
  {
  }

  /** Number of characters a trailing group of 0, 1 or 2 bytes yields. */
  function TailSymbols(rem: nat): nat {
    if rem == 0 then 0 else rem + 1
  }

  /** The sextets of a byte string, three bytes to four sextets; a final
      group of one or two bytes gives two or three sextets, the missing low
      bits being zero. */
  function Sextets(b: Bytes): (r: seq<Sextet>)
    ensures |r| == 4 * (|b| / 3) + TailSymbols(|b| % 3)
    decreases |b|
  {
    if |b| == 0 then []
    else
      var b0 := b[0] as int;
      if |b| == 1 then [b0 / 4, (b0 % 4) * 16]
      else
        var b1 := b[1] as int;
        if |b| == 2 then [b0 / 4, (b0 % 4) * 16 + b1 / 16, (b1 % 16) * 4]
        else
          var b2 := b[2] as int;
          [b0 / 4, (b0 % 4) * 16 + b1 / 16, (b1 % 16) * 4 + b2 / 64, b2 % 64] + Sextets(b[3..])
  }

  /** The '=' characters base64_encode appends after a trailing group. */
  function Padding(b: Bytes): Bytes {
    if |b| % 3 == 1 then "==" else if |b| % 3 == 2 then "=" else ""
  }

  /** base64_encode($b): standard alphabet, '=' padded to a multiple of 4. */
  function Encode(b: Bytes): (r: Bytes)
    ensures |r| % 4 == 0
  {
    var s := Sextets(b);
    seq(|s|, i requires 0 <= i < |s| => StdSymbol(s[i])) + Padding(b)
  }

  /** Unpadded base64url of RFC 4648, section 5: the reference for what the
      token segments are. */
  function UrlEncode(b: Bytes): (r: Bytes)
    ensures |r| == 4 * (|b| / 3) + TailSymbols(|b| % 3)
  {
    var s := Sextets(b);
    seq(|s|, i requires 0 <= i < |s| => UrlSymbol(s[i]))
  }

  /** The values of the alphabet characters of `s`, in order; the
      non-strict decoder skips '=' and every character outside the
      alphabet. */
  function Values(s: Bytes): (r: seq<Sextet>)
    ensures |r| <= |s|
  {
    if s == [] then []
    else match StdValue(s[0])
      case Some(v) => [v] + Values(s[1..])
      case None => Values(s[1..])
  }

  /** Bytes reassembled from sextets, four sextets to three bytes; a final
      group of two or three sextets gives one or two bytes and a lone
      sextet gives none, the leftover bits being dropped. */
  function Assemble(v: seq<Sextet>): (r: Bytes)
    decreases |v|
  {
    if |v| < 2 then []
    else
      var v0, v1 := v[0] as int, v[1] as int;
      var byte0 := (v0 * 4 + v1 / 16) as char;
      if |v| == 2 then [byte0]
      else
        var v2 := v[2] as int;
        var byte1 := ((v1 % 16) * 16 + v2 / 4) as char;
        if |v| == 3 then [byte0, byte1]
        else
          var byte2 := ((v2 % 4) * 64 + v[3] as int) as char;
          [byte0, byte1, byte2] + Assemble(v[4..])
  }

  /** base64_decode($s) in non-strict mode; it never fails. */
  function Decode(s: Bytes): Bytes {
    Assemble(Values(s))
  }

  lemma {:induction false} ValuesAppend(a: Bytes, b: Bytes)
    ensures Values(a + b) == Values(a) + Values(b)
  {
    if a == [] {
      assert a + b == b;
    } else {
      assert (a + b)[1..] == a[1..] + b;
      ValuesAppend(a[1..], b);
    }
  }

  /** A character the decoder skips does not change what it decodes. */
  lemma SkippedCharacter(s: Bytes, c: Byte)
    requires StdValue(c) == None
    ensures Decode(s + [c]) == Decode(s)
  {
    ValuesAppend(s, [c]);
    assert [c][1..] == [];
    assert Values([c]) == [];
    assert Values(s + [c]) == Values(s);
  }

  /** Reading back the standard symbols of sextets gives the sextets. */
  lemma {:induction false} ValuesOfSymbols(x: seq<Sextet>)
    ensures Values(seq(|x|, i requires 0 <= i < |x| => StdSymbol(x[i]))) == x
  {
    var s := seq(|x|, i requires 0 <= i < |x| => StdSymbol(x[i]));
    if x != [] {
      StdValueOfSymbol(x[0]);
      assert s[1..] == seq(|x[1..]|, i requires 0 <= i < |x[1..]| => StdSymbol(x[1..][i]));
      ValuesOfSymbols(x[1..]);
      assert x == [x[0]] + x[1..];
    }
  }

  lemma GroupOfThree(b0: int, b1: int, b2: int)
    requires 0 <= b0 < 256 && 0 <= b1 < 256 && 0 <= b2 < 256
    ensures (b0 / 4) * 4 + ((b0 % 4) * 16 + b1 / 16) / 16 == b0
    ensures (((b0 % 4) * 16 + b1 / 16) % 16) * 16 + ((b1 % 16) * 4 + b2 / 64) / 4 == b1
    ensures (((b1 % 16) * 4 + b2 / 64) % 4) * 64 + b2 % 64 == b2
  {
  }

  lemma GroupOfTwo(b0: int, b1: int)
    requires 0 <= b0 < 256 && 0 <= b1 < 256
    ensures (b0 / 4) * 4 + ((b0 % 4) * 16 + b1 / 16) / 16 == b0
    ensures (((b0 % 4) * 16 + b1 / 16) % 16) * 16 + ((b1 % 16) * 4) / 4 == b1
  {
  }

  /** Reassembling the sextets of a byte string gives the byte string. */
  lemma {:induction false} AssembleSextets(b: Bytes)
    ensures Assemble(Sextets(b)) == b
    decreases |b|
  {
    if |b| == 1 {
      assert (b[0] as int / 4) * 4 + ((b[0] as int % 4) * 16) / 16 == b[0] as int;
    } else if |b| == 2 {
      GroupOfTwo(b[0] as int, b[1] as int);
    } else if |b| >= 3 {
      GroupOfThree(b[0] as int, b[1] as int, b[2] as int);
      var s := Sextets(b);
      assert s[4..] == Sextets(b[3..]);
      AssembleSextets(b[3..]);
      assert b == b[..3] + b[3..];
    }
  }

  /** base64_decode undoes base64_encode. */
  lemma DecodeEncode(b: Bytes)
    ensures Decode(Encode(b)) == b
  {
    var s := Sextets(b);
    var symbols := seq(|s|, i requires 0 <= i < |s| => StdSymbol(s[i]));
    assert Encode(b) == symbols + Padding(b);
    ValuesAppend(symbols, Padding(b));
    ValuesOfSymbols(s);
    assert "="[1..] == [];
    assert "=="[1..] == "=";
    assert Values("=") == [];
    assert Values(Padding(b)) == [];
    assert Values(Encode(b)) == s;
    AssembleSextets(b);
  }
}
