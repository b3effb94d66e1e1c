/** Byte-slice comparison (internal/subtle/compare.go). Only the result is
    modelled; running time is not something the model can state. */
module Subtle {
  import opened Ints

  /** Position-by-position agreement of two equally long byte strings. */
  predicate SameBytes(a: seq<byte>, b: seq<byte>)
    requires |a| == |b|
  {
    forall i :: 0 <= i < |a| ==> a[i] == b[i]
  }

  /** `ConstantTimeCompare`: false for different lengths, otherwise true
      exactly when every byte agrees; altogether, plain equality. */
  function ConstantTimeCompare(a: seq<byte>, b: seq<byte>): (r: bool)
    ensures r <==> a == b
  {
    if |a| != |b| then false else SameBytes(a, b)
  }

  /** The bytes of a string of 8-bit characters. */
  function Latin1(s: string): (b: seq<byte>)
    requires forall i :: 0 <= i < |s| ==> s[i] as int < 256
    ensures |b| == |s|
  {
    seq(|s|, i requires 0 <= i < |s| => s[i] as int as byte)
  }

  /** The cases of the package tests: equal contents compare equal, and
      "same-length" differs from "different". */
  lemma TestVectors()
    ensures ConstantTimeCompare(Latin1("same-length"), Latin1("same-length"))
    ensures !ConstantTimeCompare(Latin1("same-length"), Latin1("different"))
  {
  }
}
