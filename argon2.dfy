/** The Argon2id hasher (argon2/argon2id.go, with the bounds of
    argon2/limits.go). The key derivation function `argon2.IDKey` is a
    parameter `kdf`, and the bytes `crypto/rand.Read` would produce are a
    parameter `random` (`None` when the read fails). */
module Argon2 {
  import opened Wrappers
  import opened Errors
  import opened Ints
  import opened PhcFormat
  import Strconv
  import Cast
  import Subtle
  import Zero
  import PhcParse

  const MinMemory: int := 32 * 1024
  const MinIterations: int := 2
  /** Declared next to the other bounds but never consulted by `Validate`. */
  const MinParallelism: int := 1
  const MaxMemory: int := 1024 * 1024
  const MaxIterations: int := 100
  const MaxParallelism: int := 32
  /** `argon2.Version` of golang.org/x/crypto/argon2 (0x13). */
  const Version: int := 0x13

  /** The configuration: memory in KiB, passes, lanes, and the salt and
      derived-key lengths in bytes. */
  datatype Argon2idHasher = Argon2idHasher(
    memory: uint32,
    iterations: uint32,
    parallelism: uint8,
    saltLength: uint32,
    keyLength: uint32)

  /** `argon2.IDKey(password, salt, time, memory, threads, keyLen)`. */
  type Kdf = (seq<byte>, seq<byte>, uint32, uint32, uint8, uint32) -> seq<byte>

  /** The library defaults, which pass the bounds check. */
  function Default(): (a: Argon2idHasher)
    ensures Validate(a).None?
  {
    Argon2idHasher(64 * 1024, 3, 4, 16, 32)
  }

  /** The PHC algorithm identifier. */
  function ID(): (id: string)
    ensures |id| > 0 && '$' !in id && ',' !in id
  {
    "argon2id"
  }

  /** The bounds as one condition. The lower bound of the parallelism is
      `MinIterations`, not `MinParallelism`: a single lane is refused. */
  predicate InBounds(a: Argon2idHasher)
  {
    && MinMemory <= a.memory as int <= MaxMemory
    && MinIterations <= a.iterations as int <= MaxIterations
    && MinIterations <= a.parallelism as int <= MaxParallelism
  }

  /** `validate`: the first bound that fails, checked in the order lower
      memory, lower iterations, lower parallelism, then the three upper
      bounds; the salt and key lengths are never checked. */
  function Validate(a: Argon2idHasher): (r: Option<Error>)
    ensures r.None? <==> InBounds(a)
    ensures r == Some(MemoryTooLow) <==> a.memory as int < MinMemory
    ensures r == Some(ParallelismTooHigh) ==>
              MinMemory <= a.memory as int <= MaxMemory && MinIterations <= a.iterations as int <= MaxIterations
  {
    if a.memory as int < MinMemory then Some(MemoryTooLow)
    else if a.iterations as int < MinIterations then Some(IterationsTooLow)
    else if a.parallelism as int < MinIterations then Some(ParallelismTooLow)
    else if a.memory as int > MaxMemory then Some(MemoryTooHigh)
    else if a.iterations as int > MaxIterations then Some(IterationsTooHigh)
    else if a.parallelism as int > MaxParallelism then Some(ParallelismTooHigh)
    else None
  }

  /** The parameters `Hash` records: m, t and p in decimal. */
  function Params(a: Argon2idHasher): map<string, string>
  {
    map["m" := Strconv.IntToString(a.memory as int),
        "t" := Strconv.IntToString(a.iterations as int),
        "p" := Strconv.IntToString(a.parallelism as int)]
  }

  /** The record `Hash` serializes for a salt and a derived key. */
  function Record(a: Argon2idHasher, salt: seq<byte>, key: seq<byte>): EncodedHash
  {
    EncodedHash(ID(), Version, Params(a), salt, key)
  }

  /** What `Hash` returns, as a function of the configuration, the
      password's bytes, the random source and the KDF. */
  ghost function HashResult(a: Argon2idHasher, password: seq<byte>, random: Option<seq<byte>>, kdf: Kdf): Result<string, Error>
  {
    match Validate(a)
    case Some(e) => Err(e)
    case None =>
      match random
      case None => Err(RandomSourceFailure)
      case Some(salt) =>
        Ok(Format(Record(a, salt, kdf(password, salt, a.iterations, a.memory, a.parallelism, a.keyLength))))
  }

  /** A Go map read: the stored value, or "" for a missing key. */
  function Lookup(params: map<string, string>, k: string): string
  {
    if k in params then params[k] else ""
  }

  /** What `Verify` returns: bounds, parse, algorithm, version, then the
      stored m, t, p and digest length, and finally the comparison of the
      key re-derived with the stored parameters against the stored digest. */
  function VerifyResult(a: Argon2idHasher, password: seq<byte>, encoded: string, kdf: Kdf): Result<bool, Error>
  {
    match Validate(a)
    case Some(e) => Err(e)
    case None =>
      match PhcParse.Parsed(encoded)
      case Err(e) => Err(e)
      case Ok(parsed) => Decide(parsed, password, kdf)
  }

  /** The part of `Verify` after a successful parse. */
  function Decide(parsed: EncodedHash, password: seq<byte>, kdf: Kdf): Result<bool, Error>
  {
    if parsed.algorithm != ID() then Ok(false)
    else if parsed.version != Version then Err(UnsupportedVersion)
    else
      match Cast.ConvertStringToUint32(Lookup(parsed.params, "m"))
      case Err(e) => Err(e)
      case Ok(m) =>
        match Cast.ConvertStringToUint32(Lookup(parsed.params, "t"))
        case Err(e) => Err(e)
        case Ok(t) =>
          match Cast.ConvertStringToUint8(Lookup(parsed.params, "p"))
          case Err(e) => Err(e)
          case Ok(p) =>
            match Cast.ConvertIntToUint32(|parsed.hash|)
            case Err(e) => Err(e)
            case Ok(keyLen) =>
              Ok(Subtle.ConstantTimeCompare(kdf(password, parsed.salt, t, m, p, keyLen), parsed.hash))
  }

  /** `NeedsRehash`: parse errors propagate; another algorithm, or an m or
      t that differs from the configured value in decimal, asks for a
      rehash. The parallelism is not compared and the bounds are not
      checked. */
  function NeedsRehash(a: Argon2idHasher, encoded: string): (r: Result<bool, Error>)
    ensures r.Err? <==> PhcParse.Parsed(encoded).Err?
    ensures r.Err? ==> r.error == PhcParse.Parsed(encoded).error
  {
    match PhcParse.Parsed(encoded)
    case Err(e) => Err(e)
    case Ok(parsed) =>
      if parsed.algorithm != ID() then Ok(true)
      else if Lookup(parsed.params, "m") != Strconv.IntToString(a.memory as int) then Ok(true)
      else if Lookup(parsed.params, "t") != Strconv.IntToString(a.iterations as int) then Ok(true)
      else Ok(false)
  }

  /** A byte array holding `s`. */
  method Buffer(s: seq<byte>) returns (b: array<byte>)
    ensures fresh(b) && b[..] == s
  {
    b := new byte[|s|](i requires 0 <= i < |s| => s[i]);
  }

  /** `Hash`: once the bounds pass, the password buffer is zeroed on every
      way out; the salt buffer is filled from the random source, the key
      derived, the record serialized, and then key and salt are zeroed. */
  method Hash(a: Argon2idHasher, password: array?<byte>, random: Option<seq<byte>>, kdf: Kdf)
    returns (r: Result<string, Error>)
    requires random.Some? ==> |random.value| == a.saltLength as int
    modifies password
    ensures r == HashResult(a, old(Zero.Contents(password)), random, kdf)
    ensures Validate(a).Some? ==> Zero.Contents(password) == old(Zero.Contents(password))
    ensures Validate(a).None? && password != null ==> password[..] == Zero.Zeros(password.Length)
  {
    var invalid := Validate(a);
    if invalid.Some? {
      return Err(invalid.value);
    }
    var pw := Zero.Contents(password);
    if random.None? {
      Zero.Bytes(password);
      return Err(RandomSourceFailure);
    }
    var salt := new byte[a.saltLength];
    for i := 0 to a.saltLength as int
      invariant salt[..i] == random.value[..i]
    {
      salt[i] := random.value[i];
      assert salt[..i + 1] == salt[..i] + [salt[i]];
    }
    assert salt[..] == random.value;
    var key := Buffer(kdf(pw, salt[..], a.iterations, a.memory, a.parallelism, a.keyLength));
    var s := PhcFormat.String(Record(a, salt[..], key[..]));
    Zero.Bytes(key);
    Zero.Bytes(salt);
    Zero.Bytes(password);
    return Ok(s);
  }

  /** `Verify`: once the bounds pass, the password buffer is zeroed on
      every way out, and once parsing succeeds the decoded salt and digest
      buffers are zeroed too, after the comparison. */
  method Verify(a: Argon2idHasher, password: array?<byte>, encoded: string, kdf: Kdf)
    returns (r: Result<bool, Error>)
    modifies password
    ensures r == VerifyResult(a, old(Zero.Contents(password)), encoded, kdf)
    ensures Validate(a).Some? ==> Zero.Contents(password) == old(Zero.Contents(password))
    ensures Validate(a).None? && password != null ==> password[..] == Zero.Zeros(password.Length)
  {
    var invalid := Validate(a);
    if invalid.Some? {
      return Err(invalid.value);
    }
    var pw := Zero.Contents(password);
    var parsed := PhcParse.Parse(encoded);
    if parsed.Err? {
      Zero.Bytes(password);
      return Err(parsed.error);
    }
    var e := parsed.value;
    var salt := Buffer(e.salt);
    var hash := Buffer(e.hash);
    r := Check(e, pw, salt, hash, kdf);
    Zero.Bytes(hash);
    Zero.Bytes(salt);
    Zero.Bytes(password);
  }

  /** The part of `Verify` after parsing, on the decoded salt and digest
      buffers: the algorithm and version checks, the parameter conversions,
      and the comparison of a freshly derived key, zeroed afterwards. */
  method Check(e: EncodedHash, password: seq<byte>, salt: array<byte>, hash: array<byte>, kdf: Kdf)
    returns (r: Result<bool, Error>)
    requires salt[..] == e.salt && hash[..] == e.hash
    ensures r == Decide(e, password, kdf)
  {
    if e.algorithm != ID() {
      return Ok(false);
    }
    if e.version != Version {
      return Err(UnsupportedVersion);
    }
    var m := Cast.ConvertStringToUint32(Lookup(e.params, "m"));
    if m.Err? {
      return Err(m.error);
    }
    var t := Cast.ConvertStringToUint32(Lookup(e.params, "t"));
    if t.Err? {
      return Err(t.error);
    }
    var p := Cast.ConvertStringToUint8(Lookup(e.params, "p"));
    if p.Err? {
      return Err(p.error);
    }
    var keyLen := Cast.ConvertIntToUint32(hash.Length);
    if keyLen.Err? {
      return Err(keyLen.error);
    }
    var key := Buffer(kdf(password, salt[..], t.value, m.value, p.value, keyLen.value));
    var same := Subtle.ConstantTimeCompare(key[..], hash[..]);
    Zero.Bytes(key);
    return Ok(same);
  }
}
