/** The cost presets (argon2/policy.go): tier 0, 1 and 2 map to fixed
    memory, iteration and parallelism values; any other tier is an error
    returned with the all-zero parameters. */
module Argon2Policy {
  import opened Wrappers
  import opened Errors
  import opened Ints
  import Argon2

  datatype PolicyParams = PolicyParams(memory: uint32, iterations: uint32, parallelism: uint8)

  /** `ParamsForPolicy`: the parameters together with the error, as Go
      returns both. */
  function ParamsForPolicy(p: int): (r: (PolicyParams, Option<Error>))
    ensures r.1.None? <==> 0 <= p <= 2
    ensures r.1.Some? ==> r == (PolicyParams(0, 0, 0), Some(UnknownPolicy))
  {
    match p
    case 0 => (PolicyParams(64 * 1024, 3, 4), None)
    case 1 => (PolicyParams(128 * 1024, 4, 4), None)
    case 2 => (PolicyParams(256 * 1024, 5, 8), None)
    case _ => (PolicyParams(0, 0, 0), Some(UnknownPolicy))
  }

  /** The table of the package tests. */
  lemma PolicyTable()
    ensures ParamsForPolicy(0) == (PolicyParams(65536, 3, 4), None)
    ensures ParamsForPolicy(1) == (PolicyParams(131072, 4, 4), None)
    ensures ParamsForPolicy(2) == (PolicyParams(262144, 5, 8), None)
    ensures ParamsForPolicy(3).1 == Some(UnknownPolicy)
  {
  }

  /** A higher tier costs strictly more memory and iterations and never
      fewer lanes. */
  lemma TiersIncrease(i: int, j: int)
    requires 0 <= i < j <= 2
    ensures ParamsForPolicy(i).0.memory < ParamsForPolicy(j).0.memory
    ensures ParamsForPolicy(i).0.iterations < ParamsForPolicy(j).0.iterations
    ensures ParamsForPolicy(i).0.parallelism <= ParamsForPolicy(j).0.parallelism
  {
  }

  /** A hasher configured from any defined tier passes the bounds check,
      whatever its salt and key lengths. */
  lemma TiersInBounds(p: int, saltLength: uint32, keyLength: uint32)
    requires 0 <= p <= 2
    ensures Argon2.Validate(Argon2.Argon2idHasher(ParamsForPolicy(p).0.memory, ParamsForPolicy(p).0.iterations,
                                                  ParamsForPolicy(p).0.parallelism, saltLength, keyLength)).None?
  {
  }

  /** Tier 0 has the costs of `Default()`. */
  lemma TierZeroIsDefault()
    ensures ParamsForPolicy(0).0.memory == Argon2.Default().memory
    ensures ParamsForPolicy(0).0.iterations == Argon2.Default().iterations
    ensures ParamsForPolicy(0).0.parallelism == Argon2.Default().parallelism
  {
  }
}
