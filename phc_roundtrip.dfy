/** What the serializer and the parser promise together: the shape of a
    PHC string, and that parsing a serialized record gives it back. */
module PhcRoundTrip {
  import opened Wrappers
  import opened Errors
  import opened Strings
  import opened PhcFormat
  import opened PhcParse
  import Sort
  import Strconv
  import Base64
  import Ints

  /** No '$' in the algorithm, the keys or the values. */
  predicate DollarFree(e: EncodedHash)
  {
    && '$' !in e.algorithm
    && forall k :: k in e.params ==> '$' !in k && '$' !in e.params[k]
  }

  /** The side conditions of the round trip: at least one parameter, no
      '$' in the algorithm, keys or values, no ',' in keys or values and no
      '=' in keys (values may contain '='). */
  predicate RoundTrips(e: EncodedHash)
  {
    && DollarFree(e)
    && e.params != map[]
    && forall k :: k in e.params ==> ',' !in k && '=' !in k && ',' !in e.params[k]
  }

  /** The six '$'-separated parts of a serialized record. */
  ghost function Segments(e: EncodedHash): seq<string>
  {
    ["", e.algorithm, "v=" + Strconv.IntToString(e.version), ParamsSegment(e.params),
     Base64.Encode(e.salt), Base64.Encode(e.hash)]
  }

  lemma JoinSix(a: string, b: string, c: string, d: string, f: string, g: string, sep: char)
    ensures Join([a, b, c, d, f, g], sep) == a + [sep] + b + [sep] + c + [sep] + d + [sep] + f + [sep] + g
  {
    var p := [a, b, c, d, f, g];
    assert [f, g][1..] == [g];
    assert Join([f, g], sep) == f + [sep] + g;
    assert [d, f, g][1..] == [f, g];
    assert Join([d, f, g], sep) == d + [sep] + (f + [sep] + g);
    assert [c, d, f, g][1..] == [d, f, g];
    assert Join([c, d, f, g], sep) == c + [sep] + (d + [sep] + (f + [sep] + g));
    assert [b, c, d, f, g][1..] == [c, d, f, g];
    assert Join([b, c, d, f, g], sep) == b + [sep] + (c + [sep] + (d + [sep] + (f + [sep] + g)));
    assert p[1..] == [b, c, d, f, g];
  }

  lemma FormatIsJoin(e: EncodedHash)
    ensures Format(e) == Join(Segments(e), '$')
  {
    var v := Strconv.IntToString(e.version);
    var head := "" + ['$'] + e.algorithm;
    assert head == "$" + e.algorithm;
    assert head + "$v=" + v == head + ['$'] + ("v=" + v) by {
      assert "$v=" + v == ['$'] + ("v=" + v);
    }
    JoinSix("", e.algorithm, "v=" + v, ParamsSegment(e.params), Base64.Encode(e.salt), Base64.Encode(e.hash), '$');
  }

  lemma {:induction false} NoCharInJoin(parts: seq<string>, sep: char, c: char)
    requires c != sep
    requires forall i :: 0 <= i < |parts| ==> c !in parts[i]
    ensures c !in Join(parts, sep)
  {
    if |parts| > 1 {
      NoCharInJoin(parts[1..], sep, c);
    }
  }

  lemma NoCharInDecimal(i: int)
    ensures '$' !in Strconv.IntToString(i) && ',' !in Strconv.IntToString(i)
  {
    var s := Strconv.IntToString(i);
    if i < 0 {
      assert s == "-" + Strconv.NatToString(-i);
      assert forall j :: 1 <= j < |s| ==> s[j] == Strconv.NatToString(-i)[j - 1];
    }
  }

  lemma NoDollarInEncoding(b: seq<Ints.byte>)
    ensures '$' !in Base64.Encode(b)
  {
    var s := Base64.Encode(b);
    forall i | 0 <= i < |s| ensures s[i] != '$' {
      assert Base64.Sextet(s[i]).Some?;
    }
  }

  /** A character that is not '=' and occurs in no listed key and no
      value occurs in no clause. */
  lemma ClausesFree(params: map<string, string>, keys: seq<string>, c: char)
    requires c != '='
    requires forall k :: k in keys ==> k in params && c !in k && c !in params[k]
    ensures forall i :: 0 <= i < |Clauses(params, keys)| ==> c !in Clauses(params, keys)[i]
  {
    var clauses := Clauses(params, keys);
    forall i | 0 <= i < |clauses| ensures c !in clauses[i] {
      assert keys[i] in keys;
      assert clauses[i] == keys[i] + "=" + params[keys[i]];
    }
  }

  /** Every segment of a record without '$' in its fields is free of '$'. */
  lemma SegmentsSeparatorFree(e: EncodedHash)
    requires DollarFree(e)
    ensures forall i :: 0 <= i < 6 ==> '$' !in Segments(e)[i]
  {
    var keys := Sort.SortedSet(e.params.Keys);
    ClausesFree(e.params, keys, '$');
    NoCharInJoin(Clauses(e.params, keys), ',', '$');
    NoCharInDecimal(e.version);
    NoDollarInEncoding(e.salt);
    NoDollarInEncoding(e.hash);
  }

  /** A serialized record starts with '$' and has exactly five of them. */
  lemma FormatShape(e: EncodedHash)
    requires DollarFree(e)
    ensures Split(Format(e), '$') == Segments(e)
    ensures Format(e)[0] == '$'
    ensures Count(Format(e), '$') == 5
  {
    FormatIsJoin(e);
    SegmentsSeparatorFree(e);
    SplitJoin(Segments(e), '$');
  }

  /** Parsing a serialization gets past the structural and version checks
      to the parameter, salt and digest fields. */
  lemma ParsedFields(e: EncodedHash)
    requires DollarFree(e)
    ensures Parsed(Format(e)) ==
            FromFields(e.algorithm, e.version, ParamsSegment(e.params), Base64.Encode(e.salt), Base64.Encode(e.hash))
  {
    FormatShape(e);
    var s := Format(e);
    assert HasPrefix(s, "$") by {
      assert s[..1] == "$";
    }
    assert Parsed(s) == FromParts(Segments(e));
    var version := Segments(e)[2];
    assert HasPrefix(version, "v=") && version[2..] == Strconv.IntToString(e.version);
    Strconv.ParseIntToString(e.version);
  }

  /** The entries of `m` whose keys are listed. */
  function Restrict(m: map<string, string>, keys: seq<string>): map<string, string>
  {
    map k | k in keys && k in m :: m[k]
  }

  lemma RestrictCons(m: map<string, string>, keys: seq<string>, acc: map<string, string>)
    requires |keys| > 0 && keys[0] in m
    ensures acc[keys[0] := m[keys[0]]] + Restrict(m, keys[1..]) == acc + Restrict(m, keys)
  {
    assert forall k :: k in keys <==> k == keys[0] || k in keys[1..];
  }

  /** Reading the clauses of the listed keys back stores each key's value. */
  lemma {:induction false} ParamsFromClauses(m: map<string, string>, keys: seq<string>, acc: map<string, string>)
    requires forall k :: k in keys ==> k in m && '=' !in k
    ensures ParamsFrom(Clauses(m, keys), acc) == Ok(acc + Restrict(m, keys))
  {
    var clauses := Clauses(m, keys);
    if |keys| == 0 {
      assert clauses == [];
      assert acc + Restrict(m, keys) == acc;
    } else {
      var k := keys[0];
      assert k in keys;
      SplitAtFirstOf(k, '=', m[k]);
      assert clauses[0] == k + "=" + m[k];
      assert clauses[1..] == Clauses(m, keys[1..]);
      assert ParamsFrom(clauses, acc) == ParamsFrom(clauses[1..], acc[k := m[k]]);
      ParamsFromClauses(m, keys[1..], acc[k := m[k]]);
      RestrictCons(m, keys, acc);
    }
  }

  /** The parameter segment of a non-empty map reads back as that map. */
  lemma ParamsSegmentRoundTrip(e: EncodedHash)
    requires RoundTrips(e)
    ensures ParamsFrom(Split(ParamsSegment(e.params), ','), map[]) == Ok(e.params)
  {
    var keys := Sort.SortedSet(e.params.Keys);
    var clauses := Clauses(e.params, keys);
    ClausesFree(e.params, keys, ',');
    assert |clauses| == |e.params.Keys| > 0;
    SplitJoin(clauses, ',');
    ParamsFromClauses(e.params, keys, map[]);
    assert map[] + Restrict(e.params, keys) == e.params;
  }

  /** Round trip: parsing the serialization of a record that meets the
      side conditions gives back the same algorithm, version, parameters,
      salt and digest. */
  lemma ParseFormat(e: EncodedHash)
    requires RoundTrips(e)
    ensures Parsed(Format(e)) == Ok(e)
  {
    ParsedFields(e);
    ParamsSegmentRoundTrip(e);
    Base64.DecodeEncode(e.salt);
    Base64.DecodeEncode(e.hash);
  }

  /** Records that meet the side conditions serialize to distinct strings. */
  lemma FormatInjective(e1: EncodedHash, e2: EncodedHash)
    requires RoundTrips(e1) && RoundTrips(e2)
    ensures Format(e1) == Format(e2) <==> e1 == e2
  {
    ParseFormat(e1);
    ParseFormat(e2);
  }

  /** Without parameters the segment is empty, which the parser rejects:
      the round trip needs at least one parameter. */
  lemma EmptyParamsRejected(e: EncodedHash)
    requires '$' !in e.algorithm && e.params == map[]
    ensures Parsed(Format(e)) == Err(InvalidParam)
  {
    assert Sort.SortedSet(e.params.Keys) == [];
    assert ParamsSegment(e.params) == "";
    ParsedFields(e);
    assert Split("", ',') == [""];
  }

  /** A record with a single parameter k=v serializes with the clause
      "k=v" alone in the parameter segment. */
  lemma SingleParamFormat(e: EncodedHash, k: string, v: string)
    requires e.params == map[k := v]
    ensures Format(e) == "$" + e.algorithm + "$v=" + Strconv.IntToString(e.version) + "$" + k + "=" + v
                         + "$" + Base64.Encode(e.salt) + "$" + Base64.Encode(e.hash)
  {
    var keys := Sort.SortedSet(e.params.Keys);
    assert keys == [k] by {
      assert k in keys;
    }
    var clauses := Clauses(e.params, keys);
    assert clauses == [k + "=" + v] by {
      assert |clauses| == 1 && clauses[0] == k + "=" + v;
    }
    assert ParamsSegment(e.params) == k + "=" + v;
  }

  /** The record of the encoding tests with the single parameter m=65536
      serializes to "$argon2id$v=19$m=65536$" followed by salt and digest. */
  lemma MetadataExample(e: EncodedHash)
    requires e.algorithm == "argon2id" && e.version == 19 && e.params == map["m" := "65536"]
    ensures Format(e) == "$argon2id$v=19$m=65536$" + Base64.Encode(e.salt) + "$" + Base64.Encode(e.hash)
  {
    SingleParamFormat(e, "m", "65536");
    NineteenDigits();
  }

  lemma NineteenDigits()
    ensures Strconv.IntToString(19) == "19"
  {
    assert Strconv.NatToString(19) == Strconv.NatToString(1) + [Strconv.DigitChar(9)];
  }
}
