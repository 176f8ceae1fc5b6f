/** The concrete accept/refuse cases of the test suite, stated against the parser model. */
module CliExamples {
  import opened Cli
  import V = Validators
  import Decimal
  import opened Wrappers

  /** `-t test --timeout 1` and `--timeout 20` set the timeout and keep the default count. */
  lemma TimeoutAccepted(value: string, n: int)
    requires (value, n) in [("1", 1), ("20", 20)]
    ensures Parse(["-t", "test", "--timeout", value]) == Parsed(Args(["test"], 10, n))
  {
    assert Decimal.Unsigned(value) == value && Decimal.IsDigits(value);
    if value == "20" {
      assert value[..1] == "2";
      assert Decimal.DigitsValue(value) == 20;
    } else {
      assert Decimal.DigitsValue(value) == 1;
    }
    assert Decimal.ParseInt(value) == Some(n);
    TimeoutOption("test", value);
  }

  /** `-t test -c 1` and `-c 5` set the count and keep the default timeout. */
  lemma CountAccepted(value: string, n: int)
    requires (value, n) in [("1", 1), ("5", 5)]
    ensures Parse(["-t", "test", "-c", value]) == Parsed(Args(["test"], n, 10))
  {
    assert Decimal.ParseInt(value) == Some(n);
    CountOption("test", value);
  }

  /** "a", "a1" and "1a" are refused by the conversion step, for the count and for the timeout. */
  lemma NonNumericValuesRefused(value: string)
    requires value in ["a", "a1", "1a"]
    ensures Parse(["-t", "test", "-c", value]) == UsageError(BadCount(V.NotAnInteger(value)))
    ensures Parse(["-t", "test", "--timeout", value]) == UsageError(BadTimeout(V.NotAnInteger(value)))
  {
    var k := if value == "1a" then 1 else 0;
    V.NonNumericRefused(V.CountBounds, value, k);
    V.NonNumericRefused(V.TimeoutBounds, value, k);
    CountOption("test", value);
    TimeoutOption("test", value);
  }

  /** Timeouts 61, 1000 and -200 are out of range. */
  lemma TimeoutOutOfRangeRefused(value: string)
    requires value in ["61", "1000", "-200"]
    ensures Parse(["-t", "test", "--timeout", value]).UsageError?
  {
    assert Decimal.IsDigits(value[1..]);
    NumeralIsValue(value);
    assert V.CheckRange(V.TimeoutBounds, value).Failure?;
    TimeoutOption("test", value);
  }

  /** Counts 26, 1000 and -200 are out of range. */
  lemma CountOutOfRangeRefused(value: string)
    requires value in ["26", "1000", "-200"]
    ensures Parse(["-t", "test", "-c", value]).UsageError?
  {
    assert Decimal.IsDigits(value[1..]);
    NumeralIsValue(value);
    assert V.CheckRange(V.CountBounds, value).Failure?;
    CountOption("test", value);
  }

  /** No arguments at all: the required topic is missing. */
  lemma NoTopicRefused()
    ensures Parse([]) == UsageError(TopicRequired)
  {
  }

  /** Two topics in each mix of `-t` and `--topic` come back as ["a", "b"]. */
  lemma TwoTopicsInOrder()
    ensures Parse(["-t", "a", "-t", "b"]) == Parsed(Args(["a", "b"], 10, 10))
    ensures Parse(["--topic", "a", "-t", "b"]) == Parsed(Args(["a", "b"], 10, 10))
    ensures Parse(["-t", "a", "--topic", "b"]) == Parsed(Args(["a", "b"], 10, 10))
    ensures Parse(["--topic", "a", "--topic", "b"]) == Parsed(Args(["a", "b"], 10, 10))
  {
  }
}
