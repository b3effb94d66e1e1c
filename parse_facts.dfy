/** What the parser accepts and rejects beyond the round trip: the error
    for each malformed shape, trailing segments, and how parameter clauses
    are read. */
module PhcParseFacts {
  import opened Wrappers
  import opened Errors
  import opened Strings
  import opened PhcFormat
  import opened PhcParse
  import Strconv

  /** A string that does not start with '$' is rejected before anything
      else is looked at, and that is the only way to get this error. */
  lemma MissingDollarRejected(s: string)
    ensures Parsed(s) == Err(InvalidPhcString) <==> |s| == 0 || s[0] != '$'
  {
    if |s| > 0 && s[0] == '$' {
      assert s[..1] == "$";
    }
  }

  /** A string with '$' in front but fewer than five of them splits into
      fewer than six parts and is rejected with the format error. */
  lemma TooFewPartsRejected(s: string)
    requires |s| > 0 && s[0] == '$'
    ensures Parsed(s) == Err(InvalidPhcFormat) <==> Count(s, '$') < 5
  {
    assert s[..1] == "$";
    var parts := Split(s, '$');
    assert Parsed(s) == FromParts(parts);
    assert |parts| == Count(s, '$') + 1;
  }

  /** The shape of the example in the encoding tests, "$argon2id$": an
      algorithm id between two '$' and nothing else is rejected. */
  lemma TruncatedStringRejected(algorithm: string)
    requires '$' !in algorithm
    ensures Parsed("$" + algorithm + "$") == Err(InvalidPhcFormat)
  {
    var s := "$" + algorithm + "$";
    assert s == "$" + (algorithm + "$");
    CountAppend("$", algorithm + "$", '$');
    CountAppend(algorithm, "$", '$');
    CountAbsent(algorithm, '$');
    TooFewPartsRejected(s);
  }

  /** Only the first six '$'-separated pieces are read: once they exist,
      appending a further segment changes nothing. */
  lemma TrailingSegmentIgnored(s: string, t: string)
    requires |Split(s, '$')| >= 6
    ensures Parsed(s + "$" + t) == Parsed(s)
  {
    SplitAppend(s, '$', t);
    var parts, longer := Split(s, '$'), Split(s + "$" + t, '$');
    assert forall i :: 0 <= i < 6 ==> longer[i] == parts[i];
    assert (s + "$" + t)[..1] == s[..1];
  }

  /** The version segment must start with "v=". */
  lemma VersionPrefixRequired(s: string)
    requires HasPrefix(s, "$") && |Split(s, '$')| >= 6
    requires !HasPrefix(Split(s, '$')[2], "v=")
    ensures Parsed(s) == Err(MissingVersion)
  {
  }

  /** What follows "v=" must be a base-10 integer, optionally signed. */
  lemma VersionSyntax(s: string)
    requires HasPrefix(s, "$") && |Split(s, '$')| >= 6
    requires HasPrefix(Split(s, '$')[2], "v=")
    ensures Parsed(s) == Err(InvalidVersion) <==> !Strconv.IsDecimal(Split(s, '$')[2][2..])
  {
  }

  /** A clause is split at its first '=', so the value keeps any further
      '=': "k=a=b" stores "a=b" under "k". */
  lemma ValueMayContainEquals()
    ensures ParamsFrom(["k=a=b"], map[]) == Ok(map["k" := "a=b"])
  {
    var c := "k=a=b";
    assert c == "k" + "=" + "a=b";
    SplitAtFirstOf("k", '=', "a=b");
    assert ["k=a=b"][1..] == [];
  }

  /** For a repeated key the last clause wins: whatever came before, a
      final clause "k=v" leaves `v` under `k`. */
  lemma {:induction false} LastClauseWins(clauses: seq<string>, k: string, v: string, acc: map<string, string>)
    requires '=' !in k
    ensures ParamsFrom(clauses + [k + "=" + v], acc).Ok? ==>
              k in ParamsFrom(clauses + [k + "=" + v], acc).value &&
              ParamsFrom(clauses + [k + "=" + v], acc).value[k] == v
  {
    var all := clauses + [k + "=" + v];
    SplitAtFirstOf(k, '=', v);
    if |clauses| == 0 {
      assert all == [k + "=" + v];
      assert all[1..] == [];
    } else {
      var kv := SplitAtFirst(clauses[0], '=');
      assert all[1..] == clauses[1..] + [k + "=" + v];
      if |kv| == 2 {
        LastClauseWins(clauses[1..], k, v, acc[kv[0] := kv[1]]);
      }
    }
  }

  /** Every clause of an accepted parameter segment has an '=', and an
      empty segment is one clause without one. */
  lemma EmptySegmentRejected(acc: map<string, string>)
    ensures ParamsFrom(Split("", ','), acc) == Err(InvalidParam)
  {
    assert Split("", ',') == [""];
  }
}
