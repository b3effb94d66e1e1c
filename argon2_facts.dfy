/** What the Argon2id hasher promises across its operations: a hash
    verifies under any in-bounds configuration, `NeedsRehash` of a fresh
    hash compares only m and t, and each malformed record gets its own
    outcome. */
module Argon2Facts {
  import opened Wrappers
  import opened Errors
  import opened Ints
  import opened PhcFormat
  import opened PhcParse
  import opened Argon2
  import Strconv
  import Cast
  import PhcRoundTrip

  /** A record written by `Hash` meets the side conditions of the PHC round
      trip, so parsing its serialization gives it back. */
  lemma ParseHashOutput(a: Argon2idHasher, salt: seq<byte>, key: seq<byte>)
    ensures Parsed(Format(Record(a, salt, key))) == Ok(Record(a, salt, key))
  {
    PhcRoundTrip.NoCharInDecimal(a.memory as int);
    PhcRoundTrip.NoCharInDecimal(a.iterations as int);
    PhcRoundTrip.NoCharInDecimal(a.parallelism as int);
    assert "m" in Params(a);
    PhcRoundTrip.ParseFormat(Record(a, salt, key));
  }

  /** The stored m, t and p of a record written under in-bounds costs read
      back as the configured values. */
  lemma StoredCostsReadBack(a: Argon2idHasher)
    requires Validate(a).None?
    ensures Cast.ConvertStringToUint32(Lookup(Params(a), "m")) == Ok(a.memory)
    ensures Cast.ConvertStringToUint32(Lookup(Params(a), "t")) == Ok(a.iterations)
    ensures Cast.ConvertStringToUint8(Lookup(Params(a), "p")) == Ok(a.parallelism)
  {
    Cast.Uint32RoundTrip(a.memory as int);
    Cast.Uint32RoundTrip(a.iterations as int);
    Cast.Uint8RoundTrip(a.parallelism as int);
  }

  /** Verifying the output of `Hash` re-derives with the stored costs and
      salt, so the answer is whether the KDF gives the same key for the
      offered password as for the hashed one. The verifying configuration
      may differ from the hashing one as long as it is in bounds. The KDF
      is assumed to return as many bytes as asked for, as `argon2.IDKey`
      does. */
  lemma VerifyHashed(a: Argon2idHasher, b: Argon2idHasher, password: seq<byte>, other: seq<byte>, salt: seq<byte>, kdf: Kdf)
    requires Validate(a).None? && Validate(b).None?
    requires |kdf(password, salt, a.iterations, a.memory, a.parallelism, a.keyLength)| == a.keyLength as int
    ensures HashResult(a, password, Some(salt), kdf).Ok?
    ensures VerifyResult(b, other, HashResult(a, password, Some(salt), kdf).value, kdf)
            == Ok(kdf(other, salt, a.iterations, a.memory, a.parallelism, a.keyLength)
                  == kdf(password, salt, a.iterations, a.memory, a.parallelism, a.keyLength))
  {
    var key := kdf(password, salt, a.iterations, a.memory, a.parallelism, a.keyLength);
    ParseHashOutput(a, salt, key);
    StoredCostsReadBack(a);
  }

  /** The round trip of the hasher: what `Hash` returns for a password,
      `Verify` accepts for the same password. */
  lemma HashThenVerify(a: Argon2idHasher, b: Argon2idHasher, password: seq<byte>, salt: seq<byte>, kdf: Kdf)
    requires Validate(a).None? && Validate(b).None?
    requires |kdf(password, salt, a.iterations, a.memory, a.parallelism, a.keyLength)| == a.keyLength as int
    ensures HashResult(a, password, Some(salt), kdf).Ok?
    ensures VerifyResult(b, password, HashResult(a, password, Some(salt), kdf).value, kdf) == Ok(true)
  {
    VerifyHashed(a, b, password, password, salt, kdf);
  }

  /** `NeedsRehash` of a fresh hash asks for a rehash exactly when the
      memory or iteration count differs; the parallelism, salt length and
      key length play no part, and `b` need not be in bounds. */
  lemma RehashAfterHash(a: Argon2idHasher, b: Argon2idHasher, password: seq<byte>, salt: seq<byte>, kdf: Kdf)
    requires Validate(a).None?
    ensures HashResult(a, password, Some(salt), kdf).Ok?
    ensures NeedsRehash(b, HashResult(a, password, Some(salt), kdf).value)
            == Ok(b.memory != a.memory || b.iterations != a.iterations)
  {
    var key := kdf(password, salt, a.iterations, a.memory, a.parallelism, a.keyLength);
    RehashOfRecord(a, b, salt, key);
  }

  /** `NeedsRehash` of the serialization of a record written under `a`. */
  lemma RehashOfRecord(a: Argon2idHasher, b: Argon2idHasher, salt: seq<byte>, key: seq<byte>)
    ensures NeedsRehash(b, Format(Record(a, salt, key))) == Ok(b.memory != a.memory || b.iterations != a.iterations)
  {
    ParseHashOutput(a, salt, key);
    SameDecimal(a.memory, b.memory);
    SameDecimal(a.iterations, b.iterations);
  }

  lemma SameDecimal(x: uint32, y: uint32)
    ensures Strconv.IntToString(x as int) == Strconv.IntToString(y as int) <==> x == y
  {
    Strconv.NatToStringInjective(x as int, y as int);
  }

  /** A well-formed record of another algorithm is not an error for
      `Verify`, only a mismatch, and `NeedsRehash` asks for a rehash. */
  lemma OtherAlgorithm(a: Argon2idHasher, password: seq<byte>, e: EncodedHash, kdf: Kdf)
    requires Validate(a).None? && PhcRoundTrip.RoundTrips(e)
    requires e.algorithm != ID()
    ensures VerifyResult(a, password, Format(e), kdf) == Ok(false)
    ensures NeedsRehash(a, Format(e)) == Ok(true)
  {
    PhcRoundTrip.ParseFormat(e);
  }

  /** A well-formed argon2id record of another version is an error. */
  lemma OtherVersion(a: Argon2idHasher, password: seq<byte>, e: EncodedHash, kdf: Kdf)
    requires Validate(a).None? && PhcRoundTrip.RoundTrips(e)
    requires e.algorithm == ID() && e.version != Version
    ensures VerifyResult(a, password, Format(e), kdf) == Err(UnsupportedVersion)
  {
    PhcRoundTrip.ParseFormat(e);
  }

  /** A well-formed argon2id record whose m is not a decimal number (for
      instance "abc", or no m at all, which reads as "") is an error. */
  lemma MalformedMemory(a: Argon2idHasher, password: seq<byte>, e: EncodedHash, kdf: Kdf)
    requires Validate(a).None? && PhcRoundTrip.RoundTrips(e)
    requires e.algorithm == ID() && e.version == Version
    requires !Strconv.IsDecimal(Lookup(e.params, "m"))
    ensures VerifyResult(a, password, Format(e), kdf) == Err(SyntaxError)
  {
    PhcRoundTrip.ParseFormat(e);
  }

  /** A configuration out of bounds fails both operations with the bounds
      error, whatever the input. */
  lemma ValidationFirst(a: Argon2idHasher, password: seq<byte>, random: Option<seq<byte>>, encoded: string, kdf: Kdf)
    requires Validate(a).Some?
    ensures HashResult(a, password, random, kdf) == Err(Validate(a).value)
    ensures VerifyResult(a, password, encoded, kdf) == Err(Validate(a).value)
  {
  }

  /** A single lane is refused although the declared minimum
      parallelism is 1. */
  lemma SingleLaneRefused()
    ensures MinParallelism == 1
    ensures Validate(Argon2idHasher(64 * 1024, 3, 1, 16, 32)) == Some(ParallelismTooLow)
  {
  }
}
