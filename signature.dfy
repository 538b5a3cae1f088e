/** The codec and the signature (src/Auth/JWT/Parser/Signature.php):
    unpadded base64url encoding of segments ("encrypt"), its inverse
    ("decrypt"), the guarded HMAC ("stamp") and the check of an encoded
    signature against the HMAC of the joined segments ("verify"). */
module Signature {
  import opened Php
  import opened PhpString
  import Base64
  import Algorithm

  /** The segment separator of the compact serialization. */
  const SEPARATOR: Byte := '.'

  /** hash_hmac($algorithm, $data, $secretKey, true): the raw HMAC of RFC
      2104, a primitive passed in as (algorithm name, data, key) -> bytes. */
  type Hmac = (Bytes, Bytes, Bytes) -> Bytes

  /** What is assumed of the primitive: each registered hash gives a raw
      output of its digest size. */
  ghost predicate DigestSizes(hmac: Hmac) {
    forall h: Algorithm.Hash, data: Bytes, key: Bytes ::
      |hmac(Algorithm.Name(h), data, key)| == Algorithm.DigestSize(h)
  }

  /** encrypt: base64_encode, then '+' and '/' turned into '-' and '_',
      every '=' removed and trailing whitespace trimmed.  The result is the
      unpadded base64url encoding, so it never holds the separator. */
  function Encrypt(data: Bytes): (r: Bytes)
    ensures r == Base64.UrlEncode(data)
    ensures forall i :: 0 <= i < |r| ==> Base64.IsUrlSafe(r[i])
    ensures SEPARATOR !in r
  {
    EncryptSteps(data);
    RTrim(RemoveAll(Strtr(Base64.Encode(data), "+/", "-_"), '='))
  }

  /** decrypt: '-' and '_' turned back into '+' and '/', str_pad to
      strlen % 4 characters, then non-strict base64_decode.  The target
      length of str_pad never exceeds the length of the string, so the
      padding step does nothing and decoding relies on the decoder's
      acceptance of unpadded input. */
  function Decrypt(data: Bytes): (r: Bytes)
    ensures r == Base64.Decode(Strtr(data, "-_", "+/"))
  {
    PadIsNoOp(Strtr(data, "-_", "+/"));
    Base64.Decode(StrPad(Strtr(data, "-_", "+/"), |data| % 4, '='))
  }

  /** stamp: InvalidArgument when the data or the key is empty() or the
      algorithm is not registered; otherwise the raw HMAC. */
  function Stamp(data: Bytes, secretKey: Bytes, algorithm: Value, hmac: Hmac): (r: Outcome<Bytes>)
    ensures r.Err? <==> EmptyString(data) || EmptyString(secretKey) || !Algorithm.IsValid(algorithm)
    ensures r.Err? ==> r.error == InvalidArgument
    ensures r.Ok? ==> algorithm.Str? && r.value == hmac(algorithm.s, data, secretKey)
  {
    if EmptyString(data) || EmptyString(secretKey) || !Algorithm.IsValid(algorithm) then
      Err(InvalidArgument)
    else
      Ok(hmac(algorithm.s, data, secretKey))
  }

  /** verify: 'Empty Algorithm' for an empty() algorithm, checked first;
      InvalidArgument for an empty() encoded signature; the errors of stamp
      over the separator-joined list; otherwise whether the decoded
      signature equals the recomputed HMAC.  The array type of the list is
      enforced by its declaration, so that guard never fires. */
  function Verify(algorithm: Value, encryptedSignature: Bytes, verifierList: seq<Bytes>,
                  secretKey: Bytes, hmac: Hmac): (r: Outcome<bool>)
    ensures Empty(algorithm) ==> r == Err(EmptyAlgorithm)
    ensures !Empty(algorithm) && EmptyString(encryptedSignature) ==> r == Err(InvalidArgument)
    ensures (!Empty(algorithm) && !EmptyString(encryptedSignature) &&
             (EmptyString(secretKey) || !Algorithm.IsValid(algorithm) ||
              EmptyString(Implode(SEPARATOR, verifierList))))
            ==> r == Err(InvalidArgument)
    ensures (!Empty(algorithm) && !EmptyString(encryptedSignature) && !EmptyString(secretKey) &&
             Algorithm.IsValid(algorithm) && !EmptyString(Implode(SEPARATOR, verifierList)))
            ==> r == Ok(Decrypt(encryptedSignature)
                        == hmac(algorithm.s, Implode(SEPARATOR, verifierList), secretKey))
    ensures r.Err? ==> r.error == EmptyAlgorithm || r.error == InvalidArgument
    ensures r == Ok(true) <==>
      !EmptyString(encryptedSignature) && !EmptyString(secretKey) && Algorithm.IsValid(algorithm) &&
      !EmptyString(Implode(SEPARATOR, verifierList)) &&
      Decrypt(encryptedSignature) == hmac(algorithm.s, Implode(SEPARATOR, verifierList), secretKey)
  {
    if Empty(algorithm) then Err(EmptyAlgorithm)
    else if EmptyString(encryptedSignature) then Err(InvalidArgument)
    else
      match Stamp(Implode(SEPARATOR, verifierList), secretKey, algorithm, hmac)
      case Err(e) => Err(e)
      case Ok(mac) => Ok(Decrypt(encryptedSignature) == mac)
  }

  // ---------------------------------------------------------------------
  // The codec

  /** The translations strtr makes, sextet by sextet, in both directions. */
  lemma SymbolTranslation(v: Base64.Sextet)
    ensures TrChar(Base64.StdSymbol(v), "+/", "-_", 2) == Base64.UrlSymbol(v)
    ensures TrChar(Base64.UrlSymbol(v), "-_", "+/", 2) == Base64.StdSymbol(v)
  {
    TrCharOfPair(Base64.StdSymbol(v), "+/", "-_");
    TrCharOfPair(Base64.UrlSymbol(v), "-_", "+/");
  }

  lemma TrCharOfPair(c: Byte, from: Bytes, to: Bytes)
    requires |from| == 2 && |to| == 2
    ensures TrChar(c, from, to, 2)
         == if from[1] == c then to[1] else if from[0] == c then to[0] else c
  {
    assert TrChar(c, from, to, 1) == if from[0] == c then to[0] else c;
  }

  lemma UrlEncodeSafe(b: Bytes)
    ensures forall i :: 0 <= i < |Base64.UrlEncode(b)| ==> Base64.IsUrlSafe(Base64.UrlEncode(b)[i])
  {
  }

  /** The four steps of encrypt produce the unpadded base64url encoding. */
  lemma EncryptSteps(data: Bytes)
    ensures RTrim(RemoveAll(Strtr(Base64.Encode(data), "+/", "-_"), '=')) == Base64.UrlEncode(data)
  {
    var s := Base64.Sextets(data);
    var std := seq(|s|, i requires 0 <= i < |s| => Base64.StdSymbol(s[i]));
    var url := Base64.UrlEncode(data);
    var pad := Base64.Padding(data);
    assert Base64.Encode(data) == std + pad;
    StrtrAppend(std, pad, "+/", "-_");
    forall i | 0 <= i < |s| ensures Strtr(std, "+/", "-_")[i] == url[i] {
      SymbolTranslation(s[i]);
    }
    assert Strtr(std, "+/", "-_") == url;
    forall i | 0 <= i < |pad| ensures Strtr(pad, "+/", "-_")[i] == pad[i] {
      StrtrUnlisted(pad, "+/", "-_", i);
    }
    assert Strtr(pad, "+/", "-_") == pad;
    RemoveAllAppend(url, pad, '=');
    UrlEncodeSafe(data);
    RemoveAllAbsent(url, '=');
    assert RemoveAll(pad, '=') == [] by {
      assert "="[1..] == [];
      assert "=="[1..] == "=";
    }
    assert RemoveAll(url + pad, '=') == url;
  }

  /** str_pad to strlen % 4 characters never lengthens its input. */
  lemma PadIsNoOp(s: Bytes)
    ensures StrPad(s, |s| % 4, '=') == s
  {
  }

  /** decrypt undoes encrypt: the codec round trip. */
  lemma DecryptEncrypt(b: Bytes)
    ensures Decrypt(Encrypt(b)) == b
  {
    var s := Base64.Sextets(b);
    var std := seq(|s|, i requires 0 <= i < |s| => Base64.StdSymbol(s[i]));
    var url := Encrypt(b);
    forall i | 0 <= i < |s| ensures Strtr(url, "-_", "+/")[i] == std[i] {
      SymbolTranslation(s[i]);
    }
    assert Strtr(url, "-_", "+/") == std;
    Base64.ValuesOfSymbols(s);
    Base64.AssembleSextets(b);
  }

  /** An encoded segment has 4 characters per 3 bytes plus 0, 2 or 3 for
      a trailing group, so it is never one character long, and it is
      empty() only for empty input. */
  lemma EncryptLength(b: Bytes)
    ensures |Encrypt(b)| == 4 * (|b| / 3) + Base64.TailSymbols(|b| % 3)
    ensures |Encrypt(b)| != 1
    ensures EmptyString(Encrypt(b)) <==> b == []
  {
  }

  /** A '=' appended to an encoded segment decodes to the same bytes: the
      decoder skips it. */
  lemma DecryptIgnoresPadding(s: Bytes)
    ensures Decrypt(s + "=") == Decrypt(s)
  {
    StrtrAppend(s, "=", "-_", "+/");
    StrtrUnlisted("=", "-_", "+/", 0);
    assert Strtr(s + "=", "-_", "+/") == Strtr(s, "-_", "+/") + "=";
    Base64.SkippedCharacter(Strtr(s, "-_", "+/"), '=');
  }

  // ---------------------------------------------------------------------
  // The signature

  /** The stamp of non-empty data under a non-empty key and a registered
      algorithm is an HMAC of that algorithm's digest size. */
  lemma StampSize(data: Bytes, secretKey: Bytes, h: Algorithm.Hash, hmac: Hmac)
    requires DigestSizes(hmac)
    requires !EmptyString(data) && !EmptyString(secretKey)
    ensures Stamp(data, secretKey, Str(Algorithm.Name(h)), hmac).Ok?
    ensures |Stamp(data, secretKey, Str(Algorithm.Name(h)), hmac).value| == Algorithm.DigestSize(h)
  {
    assert Algorithm.IsValid(Str(Algorithm.Name(h)));
  }

  /** A freshly encoded stamp of the joined list verifies against it. */
  lemma VerifyOwnStamp(algorithm: Value, verifierList: seq<Bytes>, secretKey: Bytes, hmac: Hmac)
    requires DigestSizes(hmac)
    requires Algorithm.IsValid(algorithm) && !EmptyString(secretKey)
    requires !EmptyString(Implode(SEPARATOR, verifierList))
    ensures Stamp(Implode(SEPARATOR, verifierList), secretKey, algorithm, hmac).Ok?
    ensures Verify(algorithm, Encrypt(Stamp(Implode(SEPARATOR, verifierList), secretKey, algorithm, hmac).value),
                   verifierList, secretKey, hmac) == Ok(true)
  {
    var h := Algorithm.Lookup(algorithm).value;
    var data := Implode(SEPARATOR, verifierList);
    StampSize(data, secretKey, h, hmac);
    var mac := Stamp(data, secretKey, algorithm, hmac).value;
    EncryptLength(mac);
    DecryptEncrypt(mac);
  }
}
