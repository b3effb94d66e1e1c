/** Go's `base64.RawStdEncoding`: the standard alphabet of section 4 of
    RFC 4648 with the padding of section 3.2 omitted. The decoder is Go's
    default (non-strict) one: it skips '\r' and '\n', rejects '=' and every
    other character outside the alphabet, rejects a final group of a single
    character, and ignores the unused low bits of a final group of two or
    three characters. */
module Base64 {
  import opened Ints
  import opened Wrappers

  /** The character for a 6-bit value: A-Z, a-z, 0-9, '+', '/'. */
  function CharOf(i: int): (c: char)
    requires 0 <= i < 64
    ensures Sextet(c) == Some(i)
  {
    if i < 26 then ('A' as int + i) as char
    else if i < 52 then ('a' as int + (i - 26)) as char
    else if i < 62 then ('0' as int + (i - 52)) as char
    else if i == 62 then '+'
    else '/'
  }

  /** The 6-bit value of an alphabet character, `None` for any other. */
  function Sextet(c: char): (r: Option<int>)
    ensures r.Some? ==> 0 <= r.value < 64
    ensures r.Some? <==> ('A' <= c <= 'Z' || 'a' <= c <= 'z' || '0' <= c <= '9' || c == '+' || c == '/')
  {
    if 'A' <= c <= 'Z' then Some(c as int - 'A' as int)
    else if 'a' <= c <= 'z' then Some(c as int - 'a' as int + 26)
    else if '0' <= c <= '9' then Some(c as int - '0' as int + 52)
    else if c == '+' then Some(62)
    else if c == '/' then Some(63)
    else None
  }

  predicate AllSextets(v: seq<int>) { forall i :: 0 <= i < |v| ==> 0 <= v[i] < 64 }

  /** Three bytes become four 6-bit groups; a final one or two bytes become
      two or three groups, the last one padded with zero bits. */
  function ToSextets(b: seq<byte>): (v: seq<int>)
    ensures AllSextets(v)
    ensures |v| == (4 * |b| + 2) / 3
  {
    if |b| == 0 then []
    else if |b| == 1 then [b[0] / 4, b[0] % 4 * 16]
    else if |b| == 2 then [b[0] / 4, b[0] % 4 * 16 + b[1] / 16, b[1] % 16 * 4]
    else [b[0] / 4, b[0] % 4 * 16 + b[1] / 16, b[1] % 16 * 4 + b[2] / 64, b[2] % 64] + ToSextets(b[3..])
  }

  function CharsOf(v: seq<int>): (s: string)
    requires AllSextets(v)
  {
    seq(|v|, i requires 0 <= i < |v| => CharOf(v[i]))
  }

  /** `EncodeToString`: its length is ceil(4n/3) for n bytes and it uses
      alphabet characters only. */
  function Encode(b: seq<byte>): (s: string)
    ensures |s| == (4 * |b| + 2) / 3
    ensures forall i :: 0 <= i < |s| ==> Sextet(s[i]).Some?
  {
    CharsOf(ToSextets(b))
  }

  /** The 6-bit values of the characters, `None` at the first one that is
      not in the alphabet. */
  function Sextets(s: string): (r: Option<seq<int>>)
    ensures r.Some? ==> |r.value| == |s| && AllSextets(r.value)
    ensures r.None? <==> exists i :: 0 <= i < |s| && Sextet(s[i]).None?
  {
    if |s| == 0 then Some([])
    else
      var rest := Sextets(s[1..]);
      assert rest.None? <==> exists i :: 1 <= i < |s| && Sextet(s[i]).None? by {
        if rest.None? {
          var i :| 0 <= i < |s[1..]| && Sextet(s[1..][i]).None?;
          assert Sextet(s[i + 1]).None?;
        }
        if exists i :: 1 <= i < |s| && Sextet(s[i]).None? {
          var i :| 1 <= i < |s| && Sextet(s[i]).None?;
          assert Sextet(s[1..][i - 1]).None?;
        }
      }
      match (Sextet(s[0]), rest)
      case (Some(d), Some(tail)) => Some([d] + tail)
      case _ => None
  }

  /** Reassembles bytes from 6-bit groups; the low bits a final partial
      group does not need are dropped. */
  function Assemble(v: seq<int>): (b: seq<byte>)
    requires AllSextets(v) && |v| % 4 != 1
  {
    if |v| == 0 then []
    else if |v| == 2 then [v[0] * 4 + v[1] / 16]
    else if |v| == 3 then [v[0] * 4 + v[1] / 16, v[1] % 16 * 16 + v[2] / 4]
    else [v[0] * 4 + v[1] / 16, v[1] % 16 * 16 + v[2] / 4, v[2] % 4 * 64 + v[3]] + Assemble(v[4..])
  }

  function RemoveNewlines(s: string): (r: string)
    ensures '\n' !in r && '\r' !in r
  {
    if |s| == 0 then ""
    else (if s[0] == '\n' || s[0] == '\r' then "" else [s[0]]) + RemoveNewlines(s[1..])
  }

  /** `DecodeString`: `None` is Go's `CorruptInputError`. Apart from '\r'
      and '\n', which are skipped, every character must be in the alphabet
      (so '=' padding is refused), and a final group of one character is
      refused; otherwise n characters give 3n/4 bytes. */
  function Decode(s: string): (r: Option<seq<byte>>)
    ensures r.None? <==> (exists i :: 0 <= i < |RemoveNewlines(s)| && Sextet(RemoveNewlines(s)[i]).None?)
                         || |RemoveNewlines(s)| % 4 == 1
    ensures r.Some? ==> |r.value| == 3 * |RemoveNewlines(s)| / 4
  {
    var clean := RemoveNewlines(s);
    match Sextets(clean)
    case None => None
    case Some(v) =>
      if |v| % 4 == 1 then None
      else
        AssembleLength(v);
        Some(Assemble(v))
  }

  /** Every four characters give three bytes, a final two or three give
      one or two. */
  lemma {:induction false} AssembleLength(v: seq<int>)
    requires AllSextets(v) && |v| % 4 != 1
    ensures |Assemble(v)| == 3 * |v| / 4
  {
    if |v| >= 4 {
      AssembleLength(v[4..]);
    }
  }

  lemma {:induction false} RemoveNewlinesNoop(s: string)
    requires '\n' !in s && '\r' !in s
    ensures RemoveNewlines(s) == s
  {
    if |s| > 0 {
      RemoveNewlinesNoop(s[1..]);
      assert [s[0]] + s[1..] == s;
    }
  }

  lemma {:induction false} SextetsOfChars(v: seq<int>)
    requires AllSextets(v)
    ensures Sextets(CharsOf(v)) == Some(v)
  {
    if |v| > 0 {
      assert CharsOf(v)[1..] == CharsOf(v[1..]);
      SextetsOfChars(v[1..]);
      assert [v[0]] + v[1..] == v;
    }
  }

  /** The bytes of a group survive being split into 6-bit groups and
      reassembled. */
  lemma Quantum(b0: byte, b1: byte, b2: byte)
    ensures b0 / 4 * 4 + (b0 % 4 * 16 + b1 / 16) / 16 == b0
    ensures (b0 % 4 * 16 + b1 / 16) % 16 * 16 + (b1 % 16 * 4 + b2 / 64) / 4 == b1
    ensures (b1 % 16 * 4 + b2 / 64) % 4 * 64 + b2 % 64 == b2
  {
    var q0, r0 := b0 / 4, b0 % 4;
    var q1, r1 := b1 / 16, b1 % 16;
    var q2, r2 := b2 / 64, b2 % 64;
    assert (r0 * 16 + q1) / 16 == r0 && (r0 * 16 + q1) % 16 == q1;
    assert (r1 * 4 + q2) / 4 == r1 && (r1 * 4 + q2) % 4 == q2;
  }

  lemma {:induction false} AssembleToSextets(b: seq<byte>)
    ensures |ToSextets(b)| % 4 != 1
    ensures Assemble(ToSextets(b)) == b
  {
    if |b| == 1 {
      Quantum(b[0], 0, 0);
    } else if |b| == 2 {
      Quantum(b[0], b[1], 0);
    } else if |b| >= 3 {
      AssembleToSextets(b[3..]);
      AssembleFirstQuantum(b);
      assert b == b[..3] + b[3..];
    }
  }

  lemma AssembleFirstQuantum(b: seq<byte>)
    requires |b| >= 3 && |ToSextets(b[3..])| % 4 != 1
    ensures |ToSextets(b)| % 4 != 1
    ensures Assemble(ToSextets(b)) == b[..3] + Assemble(ToSextets(b[3..]))
  {
    var head, tail := ToSextets(b[..3]), ToSextets(b[3..]);
    ThreeBytes(b[..3]);
    assert b[..3][3..] == [];
    assert ToSextets(b) == head + tail;
    AssembleAppend(head, tail);
  }

  /** Three bytes become one group of four characters and back. */
  lemma ThreeBytes(x: seq<byte>)
    requires |x| == 3
    ensures |ToSextets(x)| == 4
    ensures Assemble(ToSextets(x)) == x
  {
    assert x[3..] == [];
    Quantum(x[0], x[1], x[2]);
  }

  /** Reassembling works group by group. */
  lemma AssembleAppend(w: seq<int>, tail: seq<int>)
    requires |w| == 4 && AllSextets(w) && AllSextets(tail) && |tail| % 4 != 1
    ensures |w + tail| % 4 != 1
    ensures Assemble(w + tail) == Assemble(w) + Assemble(tail)
  {
    var v := w + tail;
    PlusFour(|tail|);
    assert v[4..] == tail && w[4..] == [];
    assert v[0] == w[0] && v[1] == w[1] && v[2] == w[2] && v[3] == w[3];
  }

  lemma {:induction false} RemoveNewlinesKeeps(s: string, c: char)
    requires c in s && c != '\n' && c != '\r'
    ensures c in RemoveNewlines(s)
  {
    if s[0] != c {
      assert c in s[1..];
      RemoveNewlinesKeeps(s[1..], c);
    }
  }

  /** The decoder has no padding: a '=' anywhere makes the input corrupt. */
  lemma PaddingRejected(s: string)
    requires '=' in s
    ensures Decode(s).None?
  {
    RemoveNewlinesKeeps(s, '=');
    var clean := RemoveNewlines(s);
    var i :| 0 <= i < |clean| && clean[i] == '=';
    assert Sextet(clean[i]).None?;
  }

  lemma PlusFour(n: nat)
    ensures (n + 4) % 4 == n % 4 && 3 * (n + 4) / 4 == 3 * n / 4 + 3
  {
  }

  /** Round trip: decoding an encoding gives the bytes back. */
  lemma DecodeEncode(b: seq<byte>)
    ensures Decode(Encode(b)) == Some(b)
  {
    var s := Encode(b);
    assert '\n' !in s && '\r' !in s by {
      forall i | 0 <= i < |s| ensures s[i] != '\n' && s[i] != '\r' {
        assert Sextet(s[i]).Some?;
      }
    }
    RemoveNewlinesNoop(s);
    SextetsOfChars(ToSextets(b));
    AssembleToSextets(b);
  }
}
