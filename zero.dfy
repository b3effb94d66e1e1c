/** In-place zeroing of a secret buffer (internal/zero/zero.go). Whether a
    compiler keeps the stores is outside the model; the model states the
    buffer's contents afterwards. */
module Zero {
  import opened Ints

  predicate Zeroed(s: seq<byte>)
  {
    forall i :: 0 <= i < |s| ==> s[i] == 0
  }

  /** What a possibly-nil buffer holds; nil holds nothing. */
  function Contents(b: array?<byte>): seq<byte>
    reads b
  {
    if b == null then [] else b[..]
  }

  /** `n` zero bytes. */
  function Zeros(n: nat): (z: seq<byte>)
    ensures |z| == n
  {
    seq(n, _ => 0)
  }

  /** A buffer holds only zeros exactly when it equals the zero buffer of
      its length: zeroing a zeroed buffer changes nothing. */
  lemma ZeroedIsZeros(s: seq<byte>)
    ensures Zeroed(s) <==> s == Zeros(|s|)
  {
    if Zeroed(s) {
      assert forall i :: 0 <= i < |s| ==> s[i] == Zeros(|s|)[i];
    }
  }

  /** `Bytes`: a nil buffer is left alone; otherwise every element is
      overwritten with 0, one index at a time. */
  method Bytes(b: array?<byte>)
    modifies b
    ensures b != null ==> b[..] == Zeros(b.Length)
  {
    if b == null {
      return;
    }
    for i := 0 to b.Length
      invariant b[..i] == Zeros(i)
    {
      b[i] := 0;
      assert b[..i + 1] == b[..i] + [0];
    }
    assert b[..] == b[..b.Length];
  }
}
