/** Parsing a PHC string back into a record (internal/encoding/parse.go). */
module PhcParse {
  import opened Wrappers
  import opened Errors
  import opened Strings
  import opened PhcFormat
  import Strconv
  import Base64

  /** The parameter clauses from left to right, each split at its first
      '=' and stored into `acc`, so a later clause for the same key
      overwrites an earlier one; a clause without '=' is an error. */
  function ParamsFrom(clauses: seq<string>, acc: map<string, string>): (r: Result<map<string, string>, Error>)
    ensures r.Err? ==> r.error == InvalidParam
  {
    if |clauses| == 0 then Ok(acc)
    else
      var kv := SplitAtFirst(clauses[0], '=');
      if |kv| != 2 then Err(InvalidParam)
      else ParamsFrom(clauses[1..], acc[kv[0] := kv[1]])
  }

  /** The parameters are rejected exactly when some clause has no '=',
      whatever was read before. */
  lemma {:induction false} ParamsFromFails(clauses: seq<string>, acc: map<string, string>)
    ensures ParamsFrom(clauses, acc).Err? <==> exists i :: 0 <= i < |clauses| && '=' !in clauses[i]
  {
    if |clauses| > 0 {
      var kv := SplitAtFirst(clauses[0], '=');
      if |kv| == 2 {
        ParamsFromFails(clauses[1..], acc[kv[0] := kv[1]]);
        if exists i :: 1 <= i < |clauses| && '=' !in clauses[i] {
          var i :| 1 <= i < |clauses| && '=' !in clauses[i];
          assert clauses[1..][i - 1] == clauses[i];
        }
        if exists i :: 0 <= i < |clauses[1..]| && '=' !in clauses[1..][i] {
          var i :| 0 <= i < |clauses[1..]| && '=' !in clauses[1..][i];
          assert clauses[i + 1] == clauses[1..][i];
        }
      }
    }
  }

  /** `Parse` as a function of the input: the checks in the order the
      source makes them, each failure with its own error. */
  function Parsed(s: string): (r: Result<EncodedHash, Error>)
  {
    if !HasPrefix(s, "$") then Err(InvalidPhcString)
    else FromParts(Split(s, '$'))
  }

  /** The checks on the '$'-separated parts: at least six of them, of
      which parts 1 to 5 are read, and a version part "v=" + decimal. */
  function FromParts(parts: seq<string>): (r: Result<EncodedHash, Error>)
    ensures r == Err(InvalidPhcFormat) <==> |parts| < 6
  {
    if |parts| < 6 then Err(InvalidPhcFormat)
    else if !HasPrefix(parts[2], "v=") then Err(MissingVersion)
    else
      match Strconv.ParseDecimal(parts[2][2..])
      case None => Err(InvalidVersion)
      case Some(version) => FromFields(parts[1], version, parts[3], parts[4], parts[5])
  }

  /** The parameter clauses, then the salt and the digest. Only these two
      kinds of error are left at this point, and on success the algorithm
      and version are taken over as they are and the salt and digest are
      the decoded bytes. */
  function FromFields(algorithm: string, version: int, params: string, salt: string, hash: string): (r: Result<EncodedHash, Error>)
    ensures r.Err? ==> r.error == InvalidParam || r.error == InvalidBase64
    ensures r.Ok? ==> r.value.algorithm == algorithm && r.value.version == version
                      && Some(r.value.salt) == Base64.Decode(salt) && Some(r.value.hash) == Base64.Decode(hash)
  {
    match ParamsFrom(Split(params, ','), map[])
    case Err(e) => Err(e)
    case Ok(params) =>
      match Base64.Decode(salt)
      case None => Err(InvalidBase64)
      case Some(salt) =>
        match Base64.Decode(hash)
        case None => Err(InvalidBase64)
        case Some(hash) => Ok(EncodedHash(algorithm, version, params, salt, hash))
  }

  /** `Parse`: early returns for the structural checks, then a loop that
      fills the parameter map clause by clause. */
  method Parse(s: string) returns (r: Result<EncodedHash, Error>)
    ensures r == Parsed(s)
  {
    if !HasPrefix(s, "$") {
      return Err(InvalidPhcString);
    }
    var parts := Split(s, '$');
    if |parts| < 6 {
      return Err(InvalidPhcFormat);
    }
    var algo := parts[1];
    var versionPart := parts[2];
    if !HasPrefix(versionPart, "v=") {
      return Err(MissingVersion);
    }
    var version := Strconv.ParseDecimal(versionPart[2..]);
    if version.None? {
      return Err(InvalidVersion);
    }

    var params: map<string, string> := map[];
    var clauses := Split(parts[3], ',');
    for i := 0 to |clauses|
      invariant ParamsFrom(clauses[i..], params) == ParamsFrom(clauses, map[])
    {
      var kv := SplitAtFirst(clauses[i], '=');
      if |kv| != 2 {
        return Err(InvalidParam);
      }
      assert clauses[i..][1..] == clauses[i + 1..];
      params := params[kv[0] := kv[1]];
    }

    var salt := Base64.Decode(parts[4]);
    if salt.None? {
      return Err(InvalidBase64);
    }
    var hash := Base64.Decode(parts[5]);
    if hash.None? {
      return Err(InvalidBase64);
    }
    return Ok(EncodedHash(algo, version.value, params, salt.value, hash.value));
  }
}
