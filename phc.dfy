/** The PHC string record and its serializer (internal/encoding/phc.go). */
module PhcFormat {
  import opened Ints
  import opened Strings
  import Sort
  import Strconv
  import Base64

  /** One stored password hash: algorithm id, algorithm version, the
      parameters as strings, and the raw salt and digest. */
  datatype EncodedHash = EncodedHash(
    algorithm: string,
    version: int,
    params: map<string, string>,
    salt: seq<byte>,
    hash: seq<byte>)

  /** The "k=v" clause of each listed key, in the order listed. */
  function Clauses(params: map<string, string>, keys: seq<string>): seq<string>
    requires forall k :: k in keys ==> k in params
  {
    seq(|keys|, i requires 0 <= i < |keys| => keys[i] + "=" + params[keys[i]])
  }

  lemma ClausesExtend(params: map<string, string>, keys: seq<string>, i: nat)
    requires i < |keys| && forall k :: k in keys ==> k in params
    ensures Clauses(params, keys[..i + 1]) == Clauses(params, keys[..i]) + [keys[i] + "=" + params[keys[i]]]
  {
    assert keys[..i + 1] == keys[..i] + [keys[i]];
  }

  /** The parameter segment: the clauses in ascending key order, joined
      by ','. */
  ghost function ParamsSegment(params: map<string, string>): string
  {
    Join(Clauses(params, Sort.SortedSet(params.Keys)), ',')
  }

  /** `$alg$v=N$k1=v1,k2=v2$salt$hash`, salt and digest in unpadded standard
      base64. Being a function of the record, equal records serialize
      identically whatever order the map is iterated in. */
  ghost function Format(e: EncodedHash): string
  {
    "$" + e.algorithm + "$v=" + Strconv.IntToString(e.version) + "$" + ParamsSegment(e.params)
      + "$" + Base64.Encode(e.salt) + "$" + Base64.Encode(e.hash)
  }

  /** The first loop of `String`: appends every key of the map once, in
      map-iteration order. */
  method CollectKeys(params: map<string, string>) returns (keys: seq<string>)
    ensures Sort.Distinct(keys)
    ensures forall k :: k in keys <==> k in params
  {
    keys := [];
    var unvisited := params.Keys;
    while unvisited != {}
      invariant unvisited <= params.Keys
      invariant forall k :: k in keys <==> k in params && k !in unvisited
      invariant Sort.Distinct(keys)
      decreases unvisited
    {
      var k :| k in unvisited;
      keys := keys + [k];
      unvisited := unvisited - {k};
    }
  }

  /** The second loop of `String`: one "k=v" clause per key, in order. */
  method ClauseList(params: map<string, string>, keys: seq<string>) returns (clauses: seq<string>)
    requires forall k :: k in keys ==> k in params
    ensures clauses == Clauses(params, keys)
  {
    clauses := [];
    for i := 0 to |keys|
      invariant clauses == Clauses(params, keys[..i])
    {
      ClausesExtend(params, keys, i);
      clauses := clauses + [keys[i] + "=" + params[keys[i]]];
    }
    assert keys[..|keys|] == keys;
  }

  /** `EncodedHash.String`: collects the keys in map-iteration order (which
      Go leaves unspecified, so it is chosen arbitrarily here), sorts them,
      formats one clause per key and joins everything. */
  method String(e: EncodedHash) returns (s: string)
    ensures s == Format(e)
  {
    var keys := CollectKeys(e.params);
    Sort.SortIsCanonical(keys, e.params.Keys);
    keys := Sort.Sort(keys);
    var params := ClauseList(e.params, keys);
    s := "$" + e.algorithm + "$v=" + Strconv.IntToString(e.version) + "$" + Join(params, ',')
      + "$" + Base64.Encode(e.salt) + "$" + Base64.Encode(e.hash);
  }
}
