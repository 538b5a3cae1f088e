/** The algorithm registry (src/Auth/JWT/Parser/Algorithm.php): three fixed
    names, which are the names of the hash functions that hash_hmac takes,
    not the HS256/HS384/HS512 labels of section 3.1 of RFC 7518. */
module Algorithm {
  import opened Php

  const ALGORITHM_HS256: Bytes := "sha256"
  const ALGORITHM_HS384: Bytes := "sha384"
  const ALGORITHM_HS512: Bytes := "sha512"

  /** The registered algorithms as a closed enumeration. */
  datatype Hash = HS256 | HS384 | HS512

  function Name(h: Hash): Bytes {
    match h
    case HS256 => ALGORITHM_HS256
    case HS384 => ALGORITHM_HS384
    case HS512 => ALGORITHM_HS512
  }

  /** Size in bytes of the raw HMAC output of each hash (FIPS 180-4). */
  function DigestSize(h: Hash): nat {
    match h
    case HS256 => 32
    case HS384 => 48
    case HS512 => 64
  }

  /** isValid: membership in the list of the three registered names; any
      other value, of whatever type, is rejected. */
  function IsValid(algorithm: Value): (r: bool)
    ensures r <==> exists h: Hash :: algorithm == Str(Name(h))
  {
    assert Name(HS256) == ALGORITHM_HS256 && Name(HS384) == ALGORITHM_HS384 && Name(HS512) == ALGORITHM_HS512;
    algorithm in [Str(ALGORITHM_HS256), Str(ALGORITHM_HS384), Str(ALGORITHM_HS512)]
  }

  /** The enumeration member a registered name stands for. */
  function Lookup(algorithm: Value): (r: Option<Hash>)
    ensures r.Some? <==> IsValid(algorithm)
    ensures r.Some? ==> algorithm == Str(Name(r.value))
  {
    if algorithm == Str(ALGORITHM_HS256) then Some(HS256)
    else if algorithm == Str(ALGORITHM_HS384) then Some(HS384)
    else if algorithm == Str(ALGORITHM_HS512) then Some(HS512)
    else None
  }

  /** Different members have different names, so Lookup inverts Name. */
  lemma LookupName(h: Hash)
    ensures Lookup(Str(Name(h))) == Some(h)
  {
  }

  /** The conventional labels, the empty string and non-strings are all
      rejected. */
  lemma RejectsOthers()
    ensures !IsValid(Str("")) && !IsValid(Str("HS256")) && !IsValid(Str("HS384"))
    ensures !IsValid(Str("HS512")) && !IsValid(Null) && !IsValid(Bool(true))
  {
  }
}
