/** PHP's string built-ins as the token code uses them: strtr, str_replace
    with a one-character search and an empty replacement, rtrim with its
    default character list, str_pad to the right, substr_count, explode and
    implode with a one-character delimiter. */
module PhpString {
  import opened Php

  function Min(a: int, b: int): int { if a < b then a else b }

  /** The translation strtr applies to one character: the first `n`
      characters of `from` map to those of `to`, a later occurrence winning
      over an earlier one, as in PHP's translation table. */
  function TrChar(c: Byte, from: Bytes, to: Bytes, n: nat): Byte
    requires n <= |from| && n <= |to|
  {
    if n == 0 then c
    else if from[n - 1] == c then to[n - 1]
    else TrChar(c, from, to, n - 1)
  }

  /** strtr($s, $from, $to): character-for-character translation; the
      extra characters of the longer of `from` and `to` are ignored. */
  function Strtr(s: Bytes, from: Bytes, to: Bytes): (r: Bytes)
    ensures |r| == |s|
  {
    seq(|s|, i requires 0 <= i < |s| => TrChar(s[i], from, to, Min(|from|, |to|)))
  }

  /** strtr leaves a character it is not asked to translate in place. */
  lemma StrtrUnlisted(s: Bytes, from: Bytes, to: Bytes, i: int)
    requires 0 <= i < |s| && s[i] !in from
    ensures Strtr(s, from, to)[i] == s[i]
  {
    var n := Min(|from|, |to|);
    assert from[..n] <= from;
    TrCharUnlisted(s[i], from, to, n);
  }

  lemma {:induction false} TrCharUnlisted(c: Byte, from: Bytes, to: Bytes, n: nat)
    requires n <= |from| && n <= |to|
    requires c !in from[..n]
    ensures TrChar(c, from, to, n) == c
  {
    if n > 0 {
      assert from[n - 1] in from[..n];
      assert from[..n - 1] == from[..n][..n - 1];
      TrCharUnlisted(c, from, to, n - 1);
    }
  }

  lemma StrtrAppend(a: Bytes, b: Bytes, from: Bytes, to: Bytes)
    ensures Strtr(a + b, from, to) == Strtr(a, from, to) + Strtr(b, from, to)
  {
  }

  /** str_replace(c, '', $s): every occurrence of the character removed. */
  function RemoveAll(s: Bytes, c: Byte): (r: Bytes)
    ensures c !in r
    ensures |r| <= |s|
  {
    if s == [] then []
    else if s[0] == c then RemoveAll(s[1..], c)
    else [s[0]] + RemoveAll(s[1..], c)
  }

  lemma {:induction false} RemoveAllAbsent(s: Bytes, c: Byte)
    requires c !in s
    ensures RemoveAll(s, c) == s
  {
    if s != [] {
      RemoveAllAbsent(s[1..], c);
    }
  }

  lemma {:induction false} RemoveAllAppend(a: Bytes, b: Bytes, c: Byte)
    ensures RemoveAll(a + b, c) == RemoveAll(a, c) + RemoveAll(b, c)
  {
    if a != [] {
      assert (a + b)[1..] == a[1..] + b;
      RemoveAllAppend(a[1..], b, c);
    } else {
      assert a + b == b;
    }
  }

  /** The characters rtrim strips by default: space, tab, newline,
      carriage return, NUL and vertical tab. */
  predicate IsTrimmed(c: Byte) {
    c == ' ' || c == '\t' || c == '\n' || c == '\r' || c == '\0' || c == 11 as char
  }

  /** rtrim($s): trailing whitespace removed. */
  function RTrim(s: Bytes): (r: Bytes)
    ensures r <= s
    ensures r == [] || !IsTrimmed(r[|r| - 1])
  {
    if s == [] || !IsTrimmed(s[|s| - 1]) then s else RTrim(s[..|s| - 1])
  }

  /** str_pad($s, $length, c, STR_PAD_RIGHT): `c` appended until the string
      is `length` long; a string already that long comes back unchanged. */
  function StrPad(s: Bytes, length: int, c: Byte): (r: Bytes)
    ensures |r| == if length <= |s| then |s| else length
    ensures s <= r
    ensures forall i :: |s| <= i < |r| ==> r[i] == c
  {
    if length <= |s| then s else s + seq(length - |s|, _ => c)
  }

  /** substr_count($s, c): the number of occurrences of `c` in `s`. */
  function SubstrCount(s: Bytes, c: Byte): nat {
    if s == [] then 0 else (if s[0] == c then 1 else 0) + SubstrCount(s[1..], c)
  }

  lemma {:induction false} SubstrCountAppend(a: Bytes, b: Bytes, c: Byte)
    ensures SubstrCount(a + b, c) == SubstrCount(a, c) + SubstrCount(b, c)
  {
    if a == [] {
      assert a + b == b;
    } else {
      assert (a + b)[1..] == a[1..] + b;
      SubstrCountAppend(a[1..], b, c);
    }
  }

  lemma {:induction false} SubstrCountAbsent(s: Bytes, c: Byte)
    ensures SubstrCount(s, c) == 0 <==> c !in s
  {
    if s != [] {
      SubstrCountAbsent(s[1..], c);
      assert s == [s[0]] + s[1..];
    }
  }

  /** implode(d, $pieces): the pieces joined by the delimiter. */
  function Implode(d: Byte, pieces: seq<Bytes>): Bytes {
    if |pieces| == 0 then []
    else if |pieces| == 1 then pieces[0]
    else pieces[0] + [d] + Implode(d, pieces[1..])
  }

  lemma ImplodeTwo(d: Byte, a: Bytes, b: Bytes)
    ensures Implode(d, [a, b]) == a + [d] + b
  {
    assert [a, b][1..] == [b];
  }

  lemma ImplodeThree(d: Byte, a: Bytes, b: Bytes, c: Bytes)
    ensures Implode(d, [a, b, c]) == a + [d] + b + [d] + c
  {
    assert [a, b, c][1..] == [b, c];
    ImplodeTwo(d, b, c);
  }

  /** explode(d, $s): the maximal runs between delimiters, always at least
      one piece; one more piece than the string has delimiters. */
  function Explode(d: Byte, s: Bytes): (r: seq<Bytes>)
    ensures |r| == SubstrCount(s, d) + 1
    ensures forall i :: 0 <= i < |r| ==> d !in r[i]
  {
    if s == [] then [[]]
    else
      var rest := Explode(d, s[1..]);
      if s[0] == d then [[]] + rest
      else [[s[0]] + rest[0]] + rest[1..]
  }

  /** Joining what explode cut gives back the original string. */
  lemma {:induction false} ImplodeExplode(d: Byte, s: Bytes)
    ensures Implode(d, Explode(d, s)) == s
  {
    if s != [] {
      var rest := Explode(d, s[1..]);
      ImplodeExplode(d, s[1..]);
      if s[0] == d {
        assert ([[]] + rest)[1..] == rest;
      } else {
        var r := [[s[0]] + rest[0]] + rest[1..];
        if |rest| == 1 {
          assert Implode(d, rest) == rest[0];
          assert [s[0]] + s[1..] == s;
          assert r == [s];
        } else {
          assert r[1..] == rest[1..];
          assert Implode(d, rest) == rest[0] + [d] + Implode(d, rest[1..]);
        }
      }
    }
  }

  /** Cutting joined pieces that hold no delimiter gives back the pieces. */
  lemma {:induction false} ExplodeImplode(d: Byte, pieces: seq<Bytes>)
    requires |pieces| > 0
    requires forall i :: 0 <= i < |pieces| ==> d !in pieces[i]
    ensures Explode(d, Implode(d, pieces)) == pieces
  {
    if |pieces| == 1 {
      ExplodePlain(d, pieces[0]);
    } else {
      ExplodeImplode(d, pieces[1..]);
      ExplodeAfterPlain(d, pieces[0], Implode(d, pieces[1..]));
      assert pieces == [pieces[0]] + pieces[1..];
    }
  }

  lemma {:induction false} ExplodePlain(d: Byte, s: Bytes)
    requires d !in s
    ensures Explode(d, s) == [s]
  {
    if s != [] {
      ExplodePlain(d, s[1..]);
      assert [s[0]] + s[1..] == s;
    }
  }

  lemma {:induction false} ExplodeAfterPlain(d: Byte, a: Bytes, b: Bytes)
    requires d !in a
    ensures Explode(d, a + [d] + b) == [a] + Explode(d, b)
  {
    if a == [] {
      assert a + [d] + b == [d] + b;
      assert ([d] + b)[1..] == b;
    } else {
      assert (a + [d] + b)[1..] == a[1..] + [d] + b;
      ExplodeAfterPlain(d, a[1..], b);
      assert [a[0]] + a[1..] == a;
    }
  }

  /** A joined string holds the delimiters the pieces hold plus one
      between each two neighbours. */
  lemma {:induction false} SubstrCountImplode3(d: Byte, a: Bytes, b: Bytes, c: Bytes)
    ensures SubstrCount(Implode(d, [a, b, c]), d)
         == SubstrCount(a, d) + SubstrCount(b, d) + SubstrCount(c, d) + 2
  {
    ImplodeThree(d, a, b, c);
    assert a + [d] + b + [d] + c == a + [d] + (b + [d] + c);
    SubstrCountAppend(a + [d], b + [d] + c, d);
    SubstrCountAppend(a, [d], d);
    SubstrCountAppend(b + [d], c, d);
    SubstrCountAppend(b, [d], d);
    assert SubstrCount([d], d) == 1;
  }
}
