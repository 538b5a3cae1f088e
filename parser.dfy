/** The token parser (src/Auth/JWT/Parser/Parser.php): compact
    serialization of a payload into header.payload.signature, and the
    ordered checks that turn such a string back into the payload.  The
    library calls it makes, hash_hmac, json_encode, json_decode and time(),
    are parameters. */
module Parser {
  import opened Php
  import opened PhpString
  import Algorithm
  import opened Signature

  /** The library functions the parser relies on.  jsonDecode returns Null
      both for the JSON literal null and for text that is not JSON, as
      json_decode does. */
  datatype Runtime = Runtime(
    hmac: Hmac,
    jsonEncode: Value -> Bytes,
    jsonDecode: Bytes -> Value)

  /** The default algorithm of serialize. */
  const DEFAULT_ALGORITHM: Value := Str(Algorithm.ALGORITHM_HS256)

  lemma DefaultIsValid()
    ensures Algorithm.IsValid(DEFAULT_ALGORITHM)
    ensures Algorithm.Lookup(DEFAULT_ALGORITHM) == Some(Algorithm.HS256)
  {
  }

  /** The header array serialize builds: ['typ' => 'JWT', 'alg' => algorithm]. */
  function Header(algorithm: Value): Value {
    Arr(map[StrKey("typ") := Str("JWT"), StrKey("alg") := algorithm])
  }

  /** The issued-at rule: the decoded token has an integer `iat` that is
      not later than `now`. */
  predicate IssuedBy(token: Value, now: int) {
    PropertyExists(token, "iat") && Property(token, "iat").Int? && now >= Property(token, "iat").n
  }

  /** The guard of serialize: a non-empty array or object payload, a
      non-empty key and a registered algorithm. */
  predicate SerializeAccepts(payload: Value, secretKey: Bytes, algorithm: Value) {
    !Empty(payload) && (payload.Arr? || payload.Obj?) && !EmptyString(secretKey) && Algorithm.IsValid(algorithm)
  }

  /** serialize: after the guard, the encoded header and payload are
      joined with the separator, that text is stamped, and the encoded
      stamp is appended as a third segment. */
  function Serialize(payload: Value, secretKey: Bytes, algorithm: Value, rt: Runtime): (r: Outcome<Bytes>)
    ensures r.Err? <==> !SerializeAccepts(payload, secretKey, algorithm)
    ensures r.Err? ==> r.error == InvalidArgument
  {
    if Empty(payload) || (!payload.Arr? && !payload.Obj?) || EmptyString(secretKey) || !Algorithm.IsValid(algorithm) then
      Err(InvalidArgument)
    else
      var packet := [Encrypt(rt.jsonEncode(Header(algorithm))), Encrypt(rt.jsonEncode(payload))];
      var data := Implode(SEPARATOR, packet);
      // the text to stamp holds the separator, so stamp's guard cannot fire
      ImplodeTwo(SEPARATOR, packet[0], packet[1]);
      assert data[|packet[0]|] == SEPARATOR;
      var mac := Stamp(data, secretKey, algorithm, rt.hmac).value;
      Ok(Implode(SEPARATOR, packet + [Encrypt(mac)]))
  }

  /** unserialize: InvalidArgument for an empty() token or a non-boolean
      flag; UnexpectedValue unless there are exactly two separators, or
      when the header or the payload decodes to null; then, when asked to
      verify, 'Signature verification failed' (or an error of verify) and
      after it 'Token verification failed' for the issued-at rule. */
  function Unserialize(jwt: Bytes, secretKey: Bytes, verify: Value, now: int, rt: Runtime): (r: Outcome<Value>)
    ensures EmptyString(jwt) || !verify.Bool? ==> r == Err(InvalidArgument)
    ensures !EmptyString(jwt) && verify.Bool? && SubstrCount(jwt, SEPARATOR) != 2 ==> r == Err(UnexpectedValue)
    ensures r.Ok? ==> r.value != Null
    ensures verify == Bool(false) && r.Err? ==> r.error == InvalidArgument || r.error == UnexpectedValue
  {
    if EmptyString(jwt) || !verify.Bool? then Err(InvalidArgument)
    else if SubstrCount(jwt, SEPARATOR) != 2 then Err(UnexpectedValue)
    else
      var segments := Explode(SEPARATOR, jwt);
      var header := rt.jsonDecode(Decrypt(segments[0]));
      if header == Null then Err(UnexpectedValue)
      else
        var token := rt.jsonDecode(Decrypt(segments[1]));
        if token == Null then Err(UnexpectedValue)
        else if !verify.b then Ok(token)
        else
          match Verify(Property(header, "alg"), segments[2], [segments[0], segments[1]], secretKey, rt.hmac)
          case Err(e) => Err(e)
          case Ok(valid) =>
            if !valid then Err(SignatureFailed)
            else if !IssuedBy(token, now) then Err(TokenFailed)
            else Ok(token)
  }

  // ---------------------------------------------------------------------
  // serialize

  /** A serialized token has exactly two separators; its segments are the
      encoded header, the encoded payload and the encoded stamp of the
      first two segments' text joined by the separator. */
  lemma SerializeShape(payload: Value, secretKey: Bytes, algorithm: Value, rt: Runtime)
    requires SerializeAccepts(payload, secretKey, algorithm)
    ensures
      var h := Encrypt(rt.jsonEncode(Header(algorithm)));
      var p := Encrypt(rt.jsonEncode(payload));
      var s := Encrypt(rt.hmac(algorithm.s, h + [SEPARATOR] + p, secretKey));
      var token := Serialize(payload, secretKey, algorithm, rt).value;
      token == h + [SEPARATOR] + p + [SEPARATOR] + s &&
      SubstrCount(token, SEPARATOR) == 2 &&
      Explode(SEPARATOR, token) == [h, p, s]
  {
    var h := Encrypt(rt.jsonEncode(Header(algorithm)));
    var p := Encrypt(rt.jsonEncode(payload));
    var s := Encrypt(rt.hmac(algorithm.s, h + [SEPARATOR] + p, secretKey));
    SerializeSegments(payload, secretKey, algorithm, rt);
    ImplodeThree(SEPARATOR, h, p, s);
    SubstrCountImplode3(SEPARATOR, h, p, s);
    SubstrCountAbsent(h, SEPARATOR);
    SubstrCountAbsent(p, SEPARATOR);
    SubstrCountAbsent(s, SEPARATOR);
    ExplodeImplode(SEPARATOR, [h, p, s]);
  }

  lemma SerializeSegments(payload: Value, secretKey: Bytes, algorithm: Value, rt: Runtime)
    requires SerializeAccepts(payload, secretKey, algorithm)
    ensures
      var h := Encrypt(rt.jsonEncode(Header(algorithm)));
      var p := Encrypt(rt.jsonEncode(payload));
      var s := Encrypt(rt.hmac(algorithm.s, h + [SEPARATOR] + p, secretKey));
      Serialize(payload, secretKey, algorithm, rt).value == Implode(SEPARATOR, [h, p, s])
  {
    var h := Encrypt(rt.jsonEncode(Header(algorithm)));
    var p := Encrypt(rt.jsonEncode(payload));
    ImplodeTwo(SEPARATOR, h, p);
    var mac := Stamp(Implode(SEPARATOR, [h, p]), secretKey, algorithm, rt.hmac);
    assert (h + [SEPARATOR] + p)[|h|] == SEPARATOR;
    assert mac.Ok?;
    assert Serialize(payload, secretKey, algorithm, rt) == Ok(Implode(SEPARATOR, [h, p] + [Encrypt(mac.value)]));
    var s := Encrypt(rt.hmac(algorithm.s, h + [SEPARATOR] + p, secretKey));
    assert mac.value == rt.hmac(algorithm.s, h + [SEPARATOR] + p, secretKey);
    assert [h, p] + [s] == [h, p, s];
  }

  /** The third segment of a serialized token verifies against the first
      two under the same key and algorithm. */
  lemma SerializeSelfVerifies(payload: Value, secretKey: Bytes, algorithm: Value, rt: Runtime)
    requires DigestSizes(rt.hmac)
    requires SerializeAccepts(payload, secretKey, algorithm)
    ensures
      var segments := Explode(SEPARATOR, Serialize(payload, secretKey, algorithm, rt).value);
      |segments| == 3 &&
      Verify(algorithm, segments[2], [segments[0], segments[1]], secretKey, rt.hmac) == Ok(true)
  {
    SerializeShape(payload, secretKey, algorithm, rt);
    var h := Encrypt(rt.jsonEncode(Header(algorithm)));
    var p := Encrypt(rt.jsonEncode(payload));
    ImplodeTwo(SEPARATOR, h, p);
    VerifyOwnStamp(algorithm, [h, p], secretKey, rt.hmac);
  }

  // ---------------------------------------------------------------------
  // unserialize

  /** With exactly two separators, a header or a payload segment that
      decodes to null is UnexpectedValue, the header being tried first. */
  lemma UnserializeNullSegment(jwt: Bytes, secretKey: Bytes, verify: bool, now: int, rt: Runtime)
    requires !EmptyString(jwt) && SubstrCount(jwt, SEPARATOR) == 2
    ensures
      var segments := Explode(SEPARATOR, jwt);
      (rt.jsonDecode(Decrypt(segments[0])) == Null || rt.jsonDecode(Decrypt(segments[1])) == Null)
      <==> Unserialize(jwt, secretKey, Bool(verify), now, rt) == Err(UnexpectedValue)
  {
  }

  /** Without verification, a well-formed token yields its decoded payload
      whatever the key and the time: no signature or issued-at check. */
  lemma UnserializeUnverified(jwt: Bytes, key1: Bytes, key2: Bytes, now1: int, now2: int, rt: Runtime)
    requires !EmptyString(jwt) && SubstrCount(jwt, SEPARATOR) == 2
    ensures
      var segments := Explode(SEPARATOR, jwt);
      var header := rt.jsonDecode(Decrypt(segments[0]));
      var token := rt.jsonDecode(Decrypt(segments[1]));
      Unserialize(jwt, key1, Bool(false), now1, rt)
        == if header == Null || token == Null then Err(UnexpectedValue) else Ok(token)
    ensures Unserialize(jwt, key1, Bool(false), now1, rt) == Unserialize(jwt, key2, Bool(false), now2, rt)
  {
  }

  /** With verification, a bad signature is reported before the issued-at
      rule is looked at, and a good one leads to that rule. */
  lemma SignatureBeforeIssuedAt(jwt: Bytes, secretKey: Bytes, now: int, rt: Runtime)
    requires !EmptyString(jwt) && SubstrCount(jwt, SEPARATOR) == 2
    ensures
      var segments := Explode(SEPARATOR, jwt);
      var header := rt.jsonDecode(Decrypt(segments[0]));
      var token := rt.jsonDecode(Decrypt(segments[1]));
      var check := Verify(Property(header, "alg"), segments[2], [segments[0], segments[1]], secretKey, rt.hmac);
      var r := Unserialize(jwt, secretKey, Bool(true), now, rt);
      header != Null && token != Null ==>
        (check == Ok(false) ==> r == Err(SignatureFailed)) &&
        (check == Ok(true) ==> r == (if IssuedBy(token, now) then Ok(token) else Err(TokenFailed))) &&
        (check.Err? ==> r == Err(check.error))
  {
  }

  /** A token accepted with verification is three segments whose third
      decodes to the HMAC, under the header's registered algorithm and the
      key, of the first two joined by the separator, and whose payload
      meets the issued-at rule. */
  lemma UnserializeAuthentic(jwt: Bytes, secretKey: Bytes, now: int, rt: Runtime)
    requires Unserialize(jwt, secretKey, Bool(true), now, rt).Ok?
    ensures
      var segments := Explode(SEPARATOR, jwt);
      var alg := Property(rt.jsonDecode(Decrypt(segments[0])), "alg");
      |segments| == 3 &&
      jwt == segments[0] + [SEPARATOR] + segments[1] + [SEPARATOR] + segments[2] &&
      Algorithm.IsValid(alg) && !EmptyString(secretKey) &&
      Decrypt(segments[2]) == rt.hmac(alg.s, segments[0] + [SEPARATOR] + segments[1], secretKey) &&
      Unserialize(jwt, secretKey, Bool(true), now, rt).value == rt.jsonDecode(Decrypt(segments[1])) &&
      IssuedBy(Unserialize(jwt, secretKey, Bool(true), now, rt).value, now)
  {
    var segments := Explode(SEPARATOR, jwt);
    ImplodeExplode(SEPARATOR, jwt);
    assert segments == [segments[0], segments[1], segments[2]];
    ImplodeThree(SEPARATOR, segments[0], segments[1], segments[2]);
    ImplodeTwo(SEPARATOR, segments[0], segments[1]);
  }

  /** Round trip: a serialized token parses back, without verification to
      the decoded payload, and with verification under the same key to the
      decoded payload exactly when it meets the issued-at rule, and to
      'Token verification failed' otherwise.  What is assumed of the JSON
      library: the header decodes to an object whose `alg` is the
      algorithm, and the payload does not decode to null. */
  lemma RoundTrip(payload: Value, secretKey: Bytes, algorithm: Value, now: int, rt: Runtime)
    requires DigestSizes(rt.hmac)
    requires SerializeAccepts(payload, secretKey, algorithm)
    requires Property(rt.jsonDecode(rt.jsonEncode(Header(algorithm))), "alg") == algorithm
    requires rt.jsonDecode(rt.jsonEncode(payload)) != Null
    ensures
      var token := Serialize(payload, secretKey, algorithm, rt).value;
      var claims := rt.jsonDecode(rt.jsonEncode(payload));
      Unserialize(token, secretKey, Bool(false), now, rt) == Ok(claims) &&
      Unserialize(token, secretKey, Bool(true), now, rt)
        == (if IssuedBy(claims, now) then Ok(claims) else Err(TokenFailed))
  {
    var token := Serialize(payload, secretKey, algorithm, rt).value;
    var claims := rt.jsonDecode(rt.jsonEncode(payload));
    var h := Encrypt(rt.jsonEncode(Header(algorithm)));
    var p := Encrypt(rt.jsonEncode(payload));
    SerializeShape(payload, secretKey, algorithm, rt);
    var segments := Explode(SEPARATOR, token);
    assert segments[0] == h && segments[1] == p;
    SerializeSelfVerifies(payload, secretKey, algorithm, rt);
    DecryptEncrypt(rt.jsonEncode(Header(algorithm)));
    DecryptEncrypt(rt.jsonEncode(payload));
    var header := rt.jsonDecode(Decrypt(h));
    assert Property(header, "alg") == algorithm;
    assert header != Null;
    assert rt.jsonDecode(Decrypt(p)) == claims;
    assert token[|h|] == SEPARATOR;
    assert !EmptyString(token);
    UnserializeUnverified(token, secretKey, secretKey, now, now, rt);
    SignatureBeforeIssuedAt(token, secretKey, now, rt);
  }

  /** A '=' appended to an accepted token leaves the result unchanged: the
      decoder skips it, so the signature segment is not unique. */
  lemma PaddedTokenAccepted(jwt: Bytes, secretKey: Bytes, verify: bool, now: int, rt: Runtime)
    requires Unserialize(jwt, secretKey, Bool(verify), now, rt).Ok?
    ensures Unserialize(jwt + "=", secretKey, Bool(verify), now, rt) == Unserialize(jwt, secretKey, Bool(verify), now, rt)
  {
    var segments := Explode(SEPARATOR, jwt);
    ImplodeExplode(SEPARATOR, jwt);
    assert segments == [segments[0], segments[1], segments[2]];
    ImplodeThree(SEPARATOR, segments[0], segments[1], segments[2]);
    var padded := segments[2] + "=";
    assert jwt + "=" == segments[0] + [SEPARATOR] + segments[1] + [SEPARATOR] + padded;
    ImplodeThree(SEPARATOR, segments[0], segments[1], padded);
    ExplodeImplode(SEPARATOR, [segments[0], segments[1], padded]);
    SubstrCountAppend(jwt, "=", SEPARATOR);
    DecryptIgnoresPadding(segments[2]);
  }
}
