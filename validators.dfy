/**
 * The two argument validators of news_cli.py: `verify_str_length` (a length
 * check over a sequence of strings) and `verify_int_range` (text to integer,
 * then a range check). Each validator factory becomes a bounds record; the
 * checking closure becomes a function of the bounds and the candidate value.
 */
module Validators {
  import opened Wrappers
  import Decimal

  /** Bounds of the string-length validator; both are strict. */
  datatype LengthBounds = LengthBounds(lower: int, upper: int)

  /** verify_str_length() with its default arguments, as the topic option uses it. */
  const DefaultLengthBounds := LengthBounds(0, 255)

  /** Which element was refused, and which of the two checks refused it. */
  datatype LengthError =
    | TooShort(index: nat, text: string)
    | TooLong(index: nat, text: string)

  predicate LengthWithin(b: LengthBounds, s: string) {
    b.lower < |s| < b.upper
  }

  predicate AllWithin(b: LengthBounds, xs: seq<string>) {
    forall i :: 0 <= i < |xs| ==> LengthWithin(b, xs[i])
  }

  /**
   * The `inner` closure of verify_str_length: the sequence itself when every
   * element has a length strictly between the bounds; otherwise the first
   * offending element, refused by the lower-bound check when it fails and by
   * the upper-bound check only when the lower one passes.
   */
  function CheckLengths(b: LengthBounds, xs: seq<string>): (r: Result<seq<string>, LengthError>)
    ensures r.Success? <==> AllWithin(b, xs)
    ensures r.Success? ==> r.value == xs
    ensures r.Failure? ==>
      var i := r.error.index;
      && i < |xs|
      && r.error.text == xs[i]
      && AllWithin(b, xs[..i])
      && !LengthWithin(b, xs[i])
      && (r.error.TooShort? <==> |xs[i]| <= b.lower)
  {
    if |xs| == 0 then Success(xs)
    else if |xs[0]| <= b.lower then Failure(TooShort(0, xs[0]))
    else if |xs[0]| >= b.upper then Failure(TooLong(0, xs[0]))
    else
      match CheckLengths(b, xs[1..])
      case Success(_) => Success(xs)
      case Failure(e) =>
        assert forall j :: 0 <= j < e.index ==> xs[1..][..e.index][j] == xs[..e.index + 1][j + 1];
        Failure(e.(index := e.index + 1))
  }

  /** The elements the validator loop visits when argparse hands it one string: its characters. */
  function Characters(s: string): (cs: seq<string>)
    ensures |cs| == |s|
    ensures forall i :: 0 <= i < |s| ==> cs[i] == [s[i]]
  {
    seq(|s|, i requires 0 <= i < |s| => [s[i]])
  }

  /**
   * The topic validator as the program applies it: argparse passes one topic
   * string, so the length check runs over its one-character strings, and the
   * topic itself is returned unchanged on success. The topic's own length never
   * matters; only whether a length of 1 lies between the bounds.
   */
  function ValidateTopic(b: LengthBounds, topic: string): (r: Result<string, LengthError>)
    ensures r.Success? <==> (|topic| == 0 || b.lower < 1 < b.upper)
    ensures r.Success? ==> r.value == topic
    ensures r.Failure? ==> r.error.index == 0 && r.error.text == topic[..1]
    ensures r.Failure? ==> (r.error.TooShort? <==> 1 <= b.lower)
  {
    var cs := Characters(topic);
    match CheckLengths(b, cs)
    case Success(_) => Success(topic)
    case Failure(e) =>
      assert e.index == 0;
      assert cs[0] == topic[..1];
      Failure(e)
  }

  /** With the default bounds every topic passes unchanged, the empty one and very long ones included. */
  lemma DefaultTopicAlwaysAccepted(topic: string)
    ensures ValidateTopic(DefaultLengthBounds, topic) == Success(topic)
  {
  }

  /** The check evidently intended: the whole topic's length must lie strictly between the bounds. */
  function ValidateTopicIntended(b: LengthBounds, topic: string): (r: Result<string, LengthError>)
    ensures r.Success? <==> LengthWithin(b, topic)
    ensures r.Success? ==> r.value == topic
    ensures r.Failure? ==> r.error.text == topic && (r.error.TooShort? <==> |topic| <= b.lower)
  {
    match CheckLengths(b, [topic])
    case Success(_) => Success(topic)
    case Failure(e) => Failure(e)
  }

  /** Under the intended check, the default bounds admit exactly topics of 1 to 254 characters. */
  lemma IntendedTopicBounds(topic: string)
    ensures ValidateTopicIntended(DefaultLengthBounds, topic).Success? <==> 1 <= |topic| <= 254
  {
  }

  /** The empty topic and a 300-character topic separate the two checks. */
  lemma TopicCheckDiscrepancy()
    ensures ValidateTopic(DefaultLengthBounds, "") == Success("")
    ensures ValidateTopicIntended(DefaultLengthBounds, "").Failure?
    ensures var long := seq(300, _ => 'x');
      ValidateTopic(DefaultLengthBounds, long).Success? && ValidateTopicIntended(DefaultLengthBounds, long).Failure?
  {
  }

  /** Bounds of the integer-range validator; both are strict. */
  datatype RangeBounds = RangeBounds(lower: int, upper: int)

  /** verify_int_range() with its default arguments, as --article_count uses it. */
  const CountBounds := RangeBounds(0, 10)

  /** verify_int_range(upper=60), as --timeout uses it. */
  const TimeoutBounds := RangeBounds(0, 60)

  datatype RangeError =
    | NotAnInteger(text: string)
    | TooSmall(value: int)
    | TooLarge(value: int)

  /**
   * The `inner` closure of verify_int_range: conversion first, then the lower
   * bound, then the upper bound, each refusing with its own error.
   */
  function CheckRange(b: RangeBounds, text: string): (r: Result<int, RangeError>)
    ensures r.Success? <==>
      Decimal.ParseInt(text).Some? && b.lower < Decimal.ParseInt(text).value < b.upper
    ensures r.Success? ==> Decimal.ParseInt(text) == Some(r.value)
    ensures r == Failure(NotAnInteger(text)) <==> Decimal.ParseInt(text).None?
    ensures r.Failure? && r.error.NotAnInteger? ==> r.error.text == text
    ensures r.Failure? && r.error.TooSmall? ==>
      Decimal.ParseInt(text) == Some(r.error.value) && r.error.value <= b.lower
    ensures r.Failure? && r.error.TooLarge? ==>
      Decimal.ParseInt(text) == Some(r.error.value) && b.lower < r.error.value && b.upper <= r.error.value
  {
    match Decimal.ParseInt(text)
    case None => Failure(NotAnInteger(text))
    case Some(n) =>
      if n <= b.lower then Failure(TooSmall(n))
      else if n >= b.upper then Failure(TooLarge(n))
      else Success(n)
  }

  /** The article count accepts exactly the numerals of 1 to 9, although the docstring says the bounds are inclusive. */
  lemma CountRange(text: string, n: int)
    ensures CheckRange(CountBounds, text) == Success(n) <==> Decimal.ParseInt(text) == Some(n) && 1 <= n <= 9
  {
  }

  /** The timeout accepts exactly the numerals of 1 to 59. */
  lemma TimeoutRange(text: string, n: int)
    ensures CheckRange(TimeoutBounds, text) == Success(n) <==> Decimal.ParseInt(text) == Some(n) && 1 <= n <= 59
  {
  }

  /** Text with a letter in it is refused at the conversion step, whatever the bounds. */
  lemma NonNumericRefused(b: RangeBounds, text: string, k: nat)
    requires k < |text| && !Decimal.IsDigit(text[k]) && text[k] != '+' && text[k] != '-'
    ensures CheckRange(b, text) == Failure(NotAnInteger(text))
  {
  }
}
