/** Range-checked integer conversions (internal/cast/cast.go): parse with
    `strconv.ParseInt(s, 10, 32)`, then narrow with `safecast.Convert`,
    which fails for any value outside the target type. */
module Cast {
  import opened Wrappers
  import opened Errors
  import opened Ints
  import Strconv

  /** `strconv.ParseInt(s, 10, 32)`: base-10 syntax, then the signed 32-bit
      range; the syntax error comes first. */
  function ParseInt32(s: string): (r: Result<int, Error>)
    ensures r.Ok? <==> Strconv.ParseDecimal(s).Some? && MinInt32 <= Strconv.ParseDecimal(s).value <= MaxInt32
    ensures r.Ok? ==> Strconv.ParseDecimal(s) == Some(r.value)
    ensures r.Err? && r.error == SyntaxError <==> !Strconv.IsDecimal(s)
    ensures r.Err? ==> r.error == SyntaxError || r.error == RangeError
  {
    match Strconv.ParseDecimal(s)
    case None => Err(SyntaxError)
    case Some(i) => if i < MinInt32 || MaxInt32 < i then Err(RangeError) else Ok(i)
  }

  /** `ConvertStringToUint32`: succeeds exactly for the decimal forms of
      0 .. 2^31-1. Values from 2^31 up fit a uint32 but are already
      refused by the 32-bit signed parse. */
  function ConvertStringToUint32(s: string): (r: Result<uint32, Error>)
    ensures r.Ok? <==> Strconv.ParseDecimal(s).Some? && 0 <= Strconv.ParseDecimal(s).value <= MaxInt32
    ensures r.Ok? ==> Strconv.ParseDecimal(s) == Some(r.value as int)
  {
    match ParseInt32(s)
    case Err(e) => Err(e)
    case Ok(i) => ConvertIntToUint32(i)
  }

  /** `ConvertStringToUint8`: succeeds exactly for the decimal forms of
      0 .. 255. */
  function ConvertStringToUint8(s: string): (r: Result<uint8, Error>)
    ensures r.Ok? <==> Strconv.ParseDecimal(s).Some? && 0 <= Strconv.ParseDecimal(s).value <= MaxUint8
    ensures r.Ok? ==> Strconv.ParseDecimal(s) == Some(r.value as int)
  {
    match ParseInt32(s)
    case Err(e) => Err(e)
    case Ok(i) => if 0 <= i <= MaxUint8 then Ok(i as uint8) else Err(ConversionError)
  }

  /** `ConvertIntToUint32`: the identity on 0 .. 2^32-1, an error elsewhere. */
  function ConvertIntToUint32(i: int): (r: Result<uint32, Error>)
    ensures r.Ok? <==> 0 <= i <= MaxUint32
    ensures r.Ok? ==> r.value as int == i
    ensures r.Err? ==> r.error == ConversionError
  {
    if 0 <= i <= MaxUint32 then Ok(i as uint32) else Err(ConversionError)
  }

  /** Round trip with `strconv.Itoa`: every value up to 2^31-1 reads back;
      every larger one is a range error. */
  lemma Uint32RoundTrip(n: nat)
    ensures n <= MaxInt32 ==> ConvertStringToUint32(Strconv.NatToString(n)) == Ok(n as uint32)
    ensures n > MaxInt32 ==> ConvertStringToUint32(Strconv.NatToString(n)) == Err(RangeError)
  {
    Strconv.ParseNatToString(n);
  }

  /** Round trip with `strconv.Itoa` for bytes, and the error above 255. */
  lemma Uint8RoundTrip(n: nat)
    ensures n <= MaxUint8 ==> ConvertStringToUint8(Strconv.NatToString(n)) == Ok(n as uint8)
    ensures MaxUint8 < n <= MaxInt32 ==> ConvertStringToUint8(Strconv.NatToString(n)) == Err(ConversionError)
  {
    Strconv.ParseNatToString(n);
  }

  /** A minus sign in front of a positive number is never accepted. */
  lemma NegativeRejected(n: nat)
    requires 0 < n
    ensures ConvertStringToUint32("-" + Strconv.NatToString(n)).Err?
    ensures ConvertStringToUint8("-" + Strconv.NatToString(n)).Err?
  {
    var i := -(n as int);
    Strconv.ParseIntToString(i);
    assert Strconv.IntToString(i) == "-" + Strconv.NatToString(n);
  }

  /** The decimal form of 2^31 fits a uint32 but is refused. */
  lemma TwoToThe31Rejected()
    ensures ConvertStringToUint32(Strconv.NatToString(0x8000_0000)) == Err(RangeError)
  {
    Uint32RoundTrip(0x8000_0000);
  }

  lemma NatToString12345()
    ensures Strconv.NatToString(12345) == "12345"
  {
    assert Strconv.NatToString(1) == "1";
    assert Strconv.NatToString(12) == "12";
    assert Strconv.NatToString(123) == "123";
    assert Strconv.NatToString(1234) == "1234";
  }

  /** The cases of the package tests: "12345", "abc", "-1", "255",
      "hello", "512", and the integers 0, 65535 and -1. */
  lemma TestVectors()
    ensures ConvertStringToUint32("12345") == Ok(12345)
    ensures ConvertStringToUint32("abc").Err?
    ensures ConvertStringToUint32("-1").Err?
    ensures ConvertStringToUint8("255") == Ok(255)
    ensures ConvertStringToUint8("hello").Err?
    ensures ConvertStringToUint8("512").Err?
    ensures ConvertIntToUint32(0) == Ok(0)
    ensures ConvertIntToUint32(65535) == Ok(65535)
    ensures ConvertIntToUint32(-1).Err?
  {
    NatToString12345();
    Uint32RoundTrip(12345);
    assert !Strconv.IsDecimal("abc") by { assert !Strconv.IsDigit('a'); }
    assert !Strconv.IsDecimal("hello") by { assert !Strconv.IsDigit('h'); }
    assert Strconv.NatToString(1) == "1";
    NegativeRejected(1);
    assert "-" + "1" == "-1";
    assert Strconv.NatToString(255) == "255" by {
      assert Strconv.NatToString(25) == "25";
    }
    Uint8RoundTrip(255);
    assert Strconv.NatToString(512) == "512" by {
      assert Strconv.NatToString(51) == "51";
    }
    Uint8RoundTrip(512);
  }
}
