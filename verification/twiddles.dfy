/** The USDA data files enclose text fields in `~` characters ("twiddles").
    The loader checks a field for them and strips them off. Both helpers index
    and slice the field's bytes, so a field is modelled as its byte sequence;
    a multi-byte character is simply several bytes here, as it is to the
    program. */
module Twiddles {
  import opened Results

  newtype byte = b: int | 0 <= b < 256

  type Bytes = seq<byte>

  /** The byte of `~` (0x7E). */
  const Twiddle: byte := 0x7E

  /** The field as it appears in the data file. */
  function Enclose(s: Bytes): (field: Bytes)
    ensures |field| == |s| + 2 && field[0] == Twiddle && field[|field| - 1] == Twiddle
    ensures field[1..|field| - 1] == s
  {
    [Twiddle] + s + [Twiddle]
  }

  /** The check as written: index the first and last byte, which aborts on an
      empty field, and compare both with `~`. */
  function CheckTwiddles(input: Bytes): (r: Result<Bytes>)
    ensures |input| == 0 ==> r == Failure(OutOfRange)
    ensures r.Success? <==> |input| > 0 && input[0] == Twiddle && input[|input| - 1] == Twiddle
    ensures r.Success? ==> r.value == input
    ensures r.Failure? && |input| > 0 ==> r == Failure(MissingTwiddles)
  {
    if |input| == 0 then Failure(OutOfRange)
    else if input[0] != Twiddle || input[|input| - 1] != Twiddle then Failure(MissingTwiddles)
    else Success(input)
  }

  /** The check as evidently intended: the field must be long enough to hold
      both twiddles, so that stripping them cannot abort. */
  function CheckTwiddlesStrict(input: Bytes): (r: Result<Bytes>)
    ensures r.Success? <==> |input| >= 2 && input[0] == Twiddle && input[|input| - 1] == Twiddle
    ensures r.Success? ==> r.value == input
  {
    if |input| < 2 then Failure(MissingTwiddles)
    else CheckTwiddles(input)
  }

  /** Drop the first and last byte, whatever they are; slicing past either end
      aborts. */
  function StripTwiddles(input: Bytes): (r: Result<Bytes>)
    ensures r.Success? <==> |input| >= 2
    ensures r.Success? ==>
      (|r.value| == |input| - 2 && forall i :: 0 <= i < |r.value| ==> r.value[i] == input[i + 1])
  {
    if |input| < 2 then Failure(OutOfRange)
    else Success(input[1..|input| - 1])
  }

  /** Checking then stripping an enclosed field gives back the text. */
  lemma EncloseRoundTrip(s: Bytes)
    ensures CheckTwiddles(Enclose(s)) == Success(Enclose(s))
    ensures StripTwiddles(Enclose(s)) == Success(s)
  {
  }

  /** Every field the strict check accepts is an enclosed text: the one that
      stripping returns. */
  lemma StrictCheckedFieldsAreEnclosed(input: Bytes)
    requires CheckTwiddlesStrict(input).Success?
    ensures StripTwiddles(input).Success?
    ensures Enclose(StripTwiddles(input).value) == input
  {
    var inner := StripTwiddles(input).value;
    assert Enclose(inner) == [input[0]] + input[1..|input| - 1] + [input[|input| - 1]];
    assert input == [input[0]] + input[1..|input| - 1] + [input[|input| - 1]];
  }

  /** The check as written lets a lone `~` through, and stripping it then
      aborts: the first and last byte are the same one. */
  lemma LoneTwiddlePassesCheck()
    ensures CheckTwiddles([Twiddle]) == Success([Twiddle])
    ensures StripTwiddles([Twiddle]) == Failure(OutOfRange)
    ensures CheckTwiddlesStrict([Twiddle]).Failure?
  {
  }

  /** An unchecked field holding one two-byte character (`é` is 0xC3 0xA9 in
      UTF-8) strips to the empty field; a lone one-byte character aborts. */
  lemma StripWholeBytes()
    ensures StripTwiddles([0xC3, 0xA9]) == Success([])
    ensures StripTwiddles([0x41]) == Failure(OutOfRange)
  {
  }
}
