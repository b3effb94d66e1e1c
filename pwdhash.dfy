/** The public facade (password.go, options.go, hasher.go, policy.go): a
    current hasher and a registry of hashers keyed by algorithm id;
    verification and rehash checks are routed by the algorithm named in the
    stored string. */
module Pwdhash {
  import opened Wrappers
  import opened Errors
  import opened Ints
  import Zero
  import Argon2
  import Argon2Facts
  import Argon2Policy
  import PhcParse

  /** The `Hasher` interface: the Argon2id hasher of this library, or a
      hasher supplied by the caller, given by its id and its three
      operations on the password's bytes. */
  datatype Hasher =
    | Argon2id(config: Argon2.Argon2idHasher)
    | Custom(
        id: string,
        hash: seq<byte> -> Result<string, Error>,
        verify: (seq<byte>, string) -> Result<bool, Error>,
        needsRehash: string -> Result<bool, Error>)

  function ID(h: Hasher): string
  {
    match h
    case Argon2id(_) => Argon2.ID()
    case Custom(id, _, _, _) => id
  }

  /** `Hasher.Hash`, as a function of the password's bytes. */
  ghost function HasherHash(h: Hasher, password: seq<byte>, random: Option<seq<byte>>, kdf: Argon2.Kdf): Result<string, Error>
  {
    match h
    case Argon2id(config) => Argon2.HashResult(config, password, random, kdf)
    case Custom(_, hash, _, _) => hash(password)
  }

  /** `Hasher.Verify`, as a function of the password's bytes. */
  function HasherVerify(h: Hasher, password: seq<byte>, encoded: string, kdf: Argon2.Kdf): Result<bool, Error>
  {
    match h
    case Argon2id(config) => Argon2.VerifyResult(config, password, encoded, kdf)
    case Custom(_, _, verify, _) => verify(password, encoded)
  }

  /** `Hasher.NeedsRehash`. */
  function HasherNeedsRehash(h: Hasher, encoded: string): Result<bool, Error>
  {
    match h
    case Argon2id(config) => Argon2.NeedsRehash(config, encoded)
    case Custom(_, _, _, needsRehash) => needsRehash(encoded)
  }

  /** The strength presets and the tier number each stands for. */
  datatype Policy = Interactive | Moderate | Sensitive
  {
    function Tier(): int
    {
      match this
      case Interactive => 0
      case Moderate => 1
      case Sensitive => 2
    }
  }

  /** Every preset names a tier the policy table defines, and distinct
      presets name distinct tiers. */
  lemma PolicyTiers(p: Policy, q: Policy)
    ensures Argon2Policy.ParamsForPolicy(p.Tier()).1.None?
    ensures p.Tier() == q.Tier() <==> p == q
  {
  }

  /** A construction option; `WithHasher` is the only one there is. */
  datatype ConfigOption = WithHasher(hasher: Hasher)

  datatype PasswordHasher = PasswordHasher(current: Hasher, registry: map<string, Hasher>)

  /** The hasher a list of options selects: the last `WithHasher`, or the
      default Argon2id hasher when there is none. */
  function Configured(opts: seq<ConfigOption>): Hasher
  {
    if |opts| == 0 then Argon2id(Argon2.Default()) else opts[|opts| - 1].hasher
  }

  /** `New`: starts from the default configuration, applies the options in
      order, and registers the resulting hasher under its id. It never
      fails, and the registry has exactly one entry. */
  method New(opts: seq<ConfigOption>) returns (r: Result<PasswordHasher, Error>)
    ensures r.Ok?
    ensures r.value.current == Configured(opts)
    ensures r.value.registry == map[ID(Configured(opts)) := Configured(opts)]
  {
    var current := Argon2id(Argon2.Default());
    for i := 0 to |opts|
      invariant current == Configured(opts[..i])
    {
      current := opts[i].hasher;
      assert opts[..i + 1][i] == opts[i];
    }
    assert opts[..|opts|] == opts;
    var registry: map<string, Hasher> := map[];
    registry := registry[ID(current) := current];
    return Ok(PasswordHasher(current, registry));
  }

  /** The hashers that wipe the caller's password buffer: an Argon2id
      hasher whose costs pass its bounds check. */
  predicate ZeroesPassword(h: Hasher)
  {
    h.Argon2id? && Argon2.Validate(h.config).None?
  }

  /** `PasswordHasher.Hash`: exactly what the current hasher returns; the
      password buffer is wiped when that hasher wipes it and left as it was
      otherwise. */
  method Hash(p: PasswordHasher, password: array?<byte>, random: Option<seq<byte>>, kdf: Argon2.Kdf)
    returns (r: Result<string, Error>)
    requires p.current.Argon2id? && random.Some? ==> |random.value| == p.current.config.saltLength as int
    modifies password
    ensures r == HasherHash(p.current, old(Zero.Contents(password)), random, kdf)
    ensures ZeroesPassword(p.current) && password != null ==> password[..] == Zero.Zeros(password.Length)
    ensures !ZeroesPassword(p.current) ==> Zero.Contents(password) == old(Zero.Contents(password))
  {
    match p.current
    case Argon2id(config) =>
      r := Argon2.Hash(config, password, random, kdf);
    case Custom(_, hash, _, _) =>
      r := hash(Zero.Contents(password));
  }

  /** What `PasswordHasher.Verify` returns: parse errors propagate, an
      algorithm without a registered hasher is an error, and otherwise the
      registered hasher's answer is returned unchanged. */
  function VerifyResult(p: PasswordHasher, password: seq<byte>, encoded: string, kdf: Argon2.Kdf): Result<bool, Error>
  {
    match PhcParse.Parsed(encoded)
    case Err(e) => Err(e)
    case Ok(parsed) =>
      if parsed.algorithm !in p.registry then Err(UnknownAlgorithm(parsed.algorithm))
      else HasherVerify(p.registry[parsed.algorithm], password, encoded, kdf)
  }

  /** The registered hasher a stored string is routed to, if any. */
  function Routed(p: PasswordHasher, encoded: string): Option<Hasher>
  {
    match PhcParse.Parsed(encoded)
    case Err(_) => None
    case Ok(parsed) => if parsed.algorithm in p.registry then Some(p.registry[parsed.algorithm]) else None
  }

  /** `PasswordHasher.Verify`: parses once to pick the hasher, which then
      works on the full string itself. The password buffer is wiped when
      the string reaches a hasher that wipes it, and left as it was
      otherwise: in particular on a parse error or an unknown algorithm. */
  method Verify(p: PasswordHasher, password: array?<byte>, encoded: string, kdf: Argon2.Kdf)
    returns (r: Result<bool, Error>)
    modifies password
    ensures r == VerifyResult(p, old(Zero.Contents(password)), encoded, kdf)
    ensures Routed(p, encoded).Some? && ZeroesPassword(Routed(p, encoded).value) && password != null ==>
              password[..] == Zero.Zeros(password.Length)
    ensures !(Routed(p, encoded).Some? && ZeroesPassword(Routed(p, encoded).value)) ==>
              Zero.Contents(password) == old(Zero.Contents(password))
  {
    var parsed := PhcParse.Parse(encoded);
    if parsed.Err? {
      return Err(parsed.error);
    }
    var algorithm := parsed.value.algorithm;
    if algorithm !in p.registry {
      return Err(UnknownAlgorithm(algorithm));
    }
    match p.registry[algorithm]
    case Argon2id(config) =>
      r := Argon2.Verify(config, password, encoded, kdf);
    case Custom(_, _, verify, _) =>
      r := verify(Zero.Contents(password), encoded);
  }

  /** `PasswordHasher.NeedsRehash`: parse errors propagate, an algorithm
      without a registered hasher always needs a rehash, and otherwise the
      registered hasher decides. */
  function NeedsRehash(p: PasswordHasher, encoded: string): (r: Result<bool, Error>)
    ensures r.Err? <==> PhcParse.Parsed(encoded).Err? ||
                        (PhcParse.Parsed(encoded).value.algorithm in p.registry &&
                         HasherNeedsRehash(p.registry[PhcParse.Parsed(encoded).value.algorithm], encoded).Err?)
    ensures PhcParse.Parsed(encoded).Ok? && PhcParse.Parsed(encoded).value.algorithm !in p.registry ==> r == Ok(true)
  {
    match PhcParse.Parsed(encoded)
    case Err(e) => Err(e)
    case Ok(parsed) =>
      if parsed.algorithm !in p.registry then Ok(true)
      else HasherNeedsRehash(p.registry[parsed.algorithm], encoded)
  }

  /** Routing by the stored algorithm: parse errors come back as they
      are; an algorithm nobody registered makes `Verify` fail naming it and
      `NeedsRehash` ask for a rehash; a registered one decides alone. */
  lemma Routing(p: PasswordHasher, password: seq<byte>, encoded: string, kdf: Argon2.Kdf)
    ensures PhcParse.Parsed(encoded).Err? ==>
              VerifyResult(p, password, encoded, kdf) == Err(PhcParse.Parsed(encoded).error) &&
              NeedsRehash(p, encoded) == Err(PhcParse.Parsed(encoded).error)
    ensures PhcParse.Parsed(encoded).Ok? && PhcParse.Parsed(encoded).value.algorithm !in p.registry ==>
              VerifyResult(p, password, encoded, kdf) == Err(UnknownAlgorithm(PhcParse.Parsed(encoded).value.algorithm)) &&
              NeedsRehash(p, encoded) == Ok(true)
    ensures PhcParse.Parsed(encoded).Ok? && PhcParse.Parsed(encoded).value.algorithm in p.registry ==>
              VerifyResult(p, password, encoded, kdf) ==
                HasherVerify(p.registry[PhcParse.Parsed(encoded).value.algorithm], password, encoded, kdf) &&
              NeedsRehash(p, encoded) == HasherNeedsRehash(p.registry[PhcParse.Parsed(encoded).value.algorithm], encoded)
  {
  }

  /** End to end with an in-bounds Argon2id hasher as `New` registers it
      (with no options, or with `WithHasher` of such a hasher): a fresh
      hash verifies for the same password and needs no rehash. */
  lemma HashVerifyRehash(a: Argon2.Argon2idHasher, password: seq<byte>, salt: seq<byte>, kdf: Argon2.Kdf)
    requires Argon2.Validate(a).None?
    requires |kdf(password, salt, a.iterations, a.memory, a.parallelism, a.keyLength)| == a.keyLength as int
    ensures HasherHash(Argon2id(a), password, Some(salt), kdf).Ok?
    ensures VerifyResult(PasswordHasher(Argon2id(a), map[Argon2.ID() := Argon2id(a)]),
                         password, HasherHash(Argon2id(a), password, Some(salt), kdf).value, kdf) == Ok(true)
    ensures NeedsRehash(PasswordHasher(Argon2id(a), map[Argon2.ID() := Argon2id(a)]),
                        HasherHash(Argon2id(a), password, Some(salt), kdf).value) == Ok(false)
  {
    var key := kdf(password, salt, a.iterations, a.memory, a.parallelism, a.keyLength);
    Argon2Facts.ParseHashOutput(a, salt, key);
    Argon2Facts.HashThenVerify(a, a, password, salt, kdf);
    Argon2Facts.RehashAfterHash(a, a, password, salt, kdf);
  }
}
