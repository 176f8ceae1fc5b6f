/**
 * The command-line contract declared by `create_parser`: a required,
 * repeatable --topic/-t, --article_count/-c (default 10), --timeout
 * (default 10) and --version/-v, with the argparse behaviour the program
 * relies on: tokens are read left to right, each value is validated as it is
 * read, and the required-option and leftover-token checks run at the end.
 */
module Cli {
  import opened Wrappers
  import Decimal
  import Text
  import V = Validators

  const DefaultArticleCount := 10
  const DefaultTimeout := 10

  /** The parsed namespace: topics in occurrence order, the article count and the timeout. */
  datatype Args = Args(topics: seq<string>, articleCount: int, timeout: int)

  datatype CliError =
    | MissingValue(flag: string)
    | BadTopic(topicError: V.LengthError)
    | BadCount(countError: V.RangeError)
    | BadTimeout(timeoutError: V.RangeError)
    | TopicRequired
    | Unrecognized(extras: seq<string>)

  /**
   * What parse_args does: return the namespace, print the help (argparse's
   * default -h/--help) or the version and exit, or report a usage error and exit.
   */
  datatype Outcome =
    | Parsed(args: Args)
    | HelpShown
    | VersionShown
    | UsageError(error: CliError)

  /** Which length check the topic option applies (see Validators.ValidateTopic and ValidateTopicIntended). */
  datatype TopicRule = PerCharacter | WholeString

  predicate IsTopicFlag(t: string) { t == "--topic" || t == "-t" }
  predicate IsCountFlag(t: string) { t == "--article_count" || t == "-c" }
  predicate IsTimeoutFlag(t: string) { t == "--timeout" }
  predicate IsVersionFlag(t: string) { t == "--version" || t == "-v" }
  predicate IsHelpFlag(t: string) { t == "--help" || t == "-h" }

  predicate TakesValue(t: string) {
    IsTopicFlag(t) || IsCountFlag(t) || IsTimeoutFlag(t)
  }

  /** The option strings the parser declares, the long and the short spellings (-h/--help is argparse's own). */
  const LongFlags: seq<string> := ["--topic", "--version", "--article_count", "--timeout", "--help"]
  const ShortFlags: seq<string> := ["-t", "-v", "-c", "-h"]

  /**
   * argparse's negative-number pattern: '-' then digits, or '-' then digits,
   * '.', digits. Digits hold no '.', so the only candidate '.' is the first one.
   */
  predicate IsNegativeNumeral(t: string) {
    && |t| >= 2
    && t[0] == '-'
    && var body := t[1..];
       var dot := Text.IndexOf(body, '.');
       || Decimal.IsDigits(body)
       || (dot < |body| - 1 && Decimal.IsDigits(body[..dot]) && Decimal.IsDigits(body[dot + 1..]))
  }

  /** The pattern's `$` also matches just before one final newline, so "-5\n" counts as well. */
  predicate IsNegativeNumber(t: string) {
    || IsNegativeNumeral(t)
    || (|t| > 0 && t[|t| - 1] == '\n' && IsNegativeNumeral(t[..|t| - 1]))
  }

  /** The text of a token up to its first '=', which argparse compares with the option strings. */
  function BeforeEquals(t: string): (s: string)
    ensures s <= t && '=' !in s
    ensures |s| < |t| ==> t[|s|] == '='
  {
    t[..Text.IndexOf(t, '=')]
  }

  /** Some long option string starts with `p`: `p` is that option, or an abbreviation of one. */
  predicate StartsLongFlag(p: string) {
    || p <= LongFlags[0] || p <= LongFlags[1] || p <= LongFlags[2]
    || p <= LongFlags[3] || p <= LongFlags[4]
  }

  /**
   * argparse matches a '-'-prefixed token against the declared options before
   * anything else: a single-dash token whose first two characters are a short
   * flag (`-tx`, `-c 5`), or a double-dash token whose text before any '='
   * starts a long flag (`--topic=a b`, `--art`). Several matches make an
   * ambiguity error, so such a token is never a value either.
   */
  predicate MatchesDeclaredFlag(t: string) {
    && |t| >= 2
    && t[0] == '-'
    && if t[1] != '-' then t[..2] in ShortFlags else StartsLongFlag(BeforeEquals(t))
  }

  /**
   * A token argparse reads as an option string rather than a value: a declared
   * flag, one that matches a declared flag, or any other '-'-prefixed token of
   * two or more characters that is neither a negative number (no declared
   * option looks like one) nor contains a space.
   */
  predicate LooksLikeOption(t: string) {
    || TakesValue(t)
    || IsVersionFlag(t)
    || IsHelpFlag(t)
    || (&& |t| >= 2
        && t[0] == '-'
        && (MatchesDeclaredFlag(t) || (!IsNegativeNumber(t) && ' ' !in t)))
  }

  /** An integer numeral, signed or not, is always taken as a value, never as an option. */
  lemma NumeralIsValue(t: string)
    requires Decimal.IsNumeral(t)
    ensures !LooksLikeOption(t)
  {
    if t[0] == '-' {
      assert Decimal.IsDigit(t[1]);
      assert IsNegativeNumeral(t);
    }
  }

  /** A long flag with a value attached by '=' (`--topic=x`) is an option string, whatever the value holds. */
  lemma AttachedValueIsOption(flag: string, value: string)
    requires flag in LongFlags
    ensures LooksLikeOption(flag + "=" + value)
  {
    var t := flag + "=" + value;
    var i := Text.IndexOf(t, '=');
    assert t[|flag|] == '=';
    if i < |flag| {
      assert t[i] == flag[i];
    }
    assert BeforeEquals(t) == flag;
  }

  function CheckTopic(rule: TopicRule, topic: string): (r: Result<string, V.LengthError>) {
    match rule
    case PerCharacter => V.ValidateTopic(V.DefaultLengthBounds, topic)
    case WholeString => V.ValidateTopicIntended(V.DefaultLengthBounds, topic)
  }

  /** The checks after all tokens are read: the required topic first, then leftover tokens. */
  function Finish(acc: Args, extras: seq<string>): (r: Outcome)
    ensures r.Parsed? <==> |acc.topics| > 0 && extras == []
    ensures r.Parsed? ==> r.args == acc
    ensures !r.VersionShown? && !r.HelpShown?
    ensures |acc.topics| == 0 ==> r == UsageError(TopicRequired)
    ensures |acc.topics| > 0 && extras != [] ==> r == UsageError(Unrecognized(extras))
  {
    if |acc.topics| == 0 then UsageError(TopicRequired)
    else if |extras| > 0 then UsageError(Unrecognized(extras))
    else Parsed(acc)
  }

  /**
   * Reads the tokens left to right. `acc` holds the namespace built so far
   * (topics appended, count and timeout overwritten by each occurrence) and
   * `extras` the tokens no option consumed. A successful parse needs no
   * leftover token and only appends to the topics; the topic check as
   * written never refuses a topic.
   */
  function Consume(rule: TopicRule, tokens: seq<string>, acc: Args, extras: seq<string>): (r: Outcome)
    ensures r.Parsed? ==> extras == []
    ensures r.Parsed? ==> acc.topics <= r.args.topics
    ensures rule == PerCharacter ==> !(r.UsageError? && r.error.BadTopic?)
    decreases |tokens|
  {
    if |tokens| == 0 then Finish(acc, extras)
    else
      var flag := tokens[0];
      if IsHelpFlag(flag) then HelpShown
      else if IsVersionFlag(flag) then VersionShown
      else if !TakesValue(flag) then Consume(rule, tokens[1..], acc, extras + [flag])
      else if |tokens| == 1 || LooksLikeOption(tokens[1]) then UsageError(MissingValue(flag))
      else
        var value, rest := tokens[1], tokens[2..];
        if IsTopicFlag(flag) then
          match CheckTopic(rule, value)
          case Failure(e) => UsageError(BadTopic(e))
          case Success(t) => Consume(rule, rest, acc.(topics := acc.topics + [t]), extras)
        else if IsCountFlag(flag) then
          match V.CheckRange(V.CountBounds, value)
          case Failure(e) => UsageError(BadCount(e))
          case Success(n) => Consume(rule, rest, acc.(articleCount := n), extras)
        else
          match V.CheckRange(V.TimeoutBounds, value)
          case Failure(e) => UsageError(BadTimeout(e))
          case Success(n) => Consume(rule, rest, acc.(timeout := n), extras)
  }

  /** Under the intended rule, every topic has a length strictly between the default bounds. */
  predicate TopicsAdmitted(rule: TopicRule, a: Args) {
    rule == WholeString ==> forall k :: 0 <= k < |a.topics| ==> V.LengthWithin(V.DefaultLengthBounds, a.topics[k])
  }

  /**
   * parse_args from the parser's initial namespace. A successful parse has at
   * least one topic, a count of 1 to 10 and a timeout of 1 to 59.
   */
  function ParseWith(rule: TopicRule, tokens: seq<string>): (r: Outcome)
    ensures r.Parsed? ==> |r.args.topics| > 0 && InRange(r.args)
    ensures r.Parsed? ==> 1 <= r.args.articleCount <= 10 && 1 <= r.args.timeout <= 59
    ensures r.Parsed? ==> TopicsAdmitted(rule, r.args)
  {
    var start := Args([], DefaultArticleCount, DefaultTimeout);
    ConsumeInRange(rule, tokens, start, []);
    Consume(rule, tokens, start, [])
  }

  /** parse_args on the parser create_parser builds, as the program is written: no topic is ever refused. */
  function Parse(tokens: seq<string>): (r: Outcome)
    ensures !(r.UsageError? && r.error.BadTopic?)
    ensures r.Parsed? ==> |r.args.topics| > 0 && 1 <= r.args.articleCount <= 10 && 1 <= r.args.timeout <= 59
  {
    ParseWith(PerCharacter, tokens)
  }

  /** The same parser with the whole-topic length check the documentation describes: topics of 1 to 254 characters. */
  function ParseIntended(tokens: seq<string>): (r: Outcome)
    ensures r.Parsed? ==> forall k :: 0 <= k < |r.args.topics| ==> 1 <= |r.args.topics[k]| <= 254
  {
    ParseWith(WholeString, tokens)
  }

  /** Count and timeout are either their defaults or values the validators admitted. */
  predicate InRange(a: Args) {
    && (a.articleCount == DefaultArticleCount || 1 <= a.articleCount <= 9)
    && (a.timeout == DefaultTimeout || 1 <= a.timeout <= 59)
  }

  /**
   * Reading tokens keeps count and timeout in range and, under the intended
   * rule, every topic within the length bounds; success implies a topic.
   */
  lemma {:induction false} ConsumeInRange(rule: TopicRule, tokens: seq<string>, acc: Args, extras: seq<string>)
    requires InRange(acc) && TopicsAdmitted(rule, acc)
    ensures Consume(rule, tokens, acc, extras).Parsed? ==>
      var a := Consume(rule, tokens, acc, extras).args;
      InRange(a) && TopicsAdmitted(rule, a) && |a.topics| > 0
    decreases |tokens|
  {
    if |tokens| > 0 && !IsHelpFlag(tokens[0]) && !IsVersionFlag(tokens[0]) {
      if !TakesValue(tokens[0]) {
        ConsumeInRange(rule, tokens[1..], acc, extras + [tokens[0]]);
      } else if |tokens| > 1 && !LooksLikeOption(tokens[1]) {
        var flag, value, rest := tokens[0], tokens[1], tokens[2..];
        if IsTopicFlag(flag) {
          match CheckTopic(rule, value)
          case Failure(_) =>
          case Success(t) => ConsumeInRange(rule, rest, acc.(topics := acc.topics + [t]), extras);
        } else if IsCountFlag(flag) {
          match V.CheckRange(V.CountBounds, value)
          case Failure(_) =>
          case Success(n) => ConsumeInRange(rule, rest, acc.(articleCount := n), extras);
        } else {
          match V.CheckRange(V.TimeoutBounds, value)
          case Failure(_) =>
          case Success(n) => ConsumeInRange(rule, rest, acc.(timeout := n), extras);
        }
      }
    }
  }

  /** A help or version flag anywhere in the tokens, at any index `i`, rules out a successful parse. */
  lemma {:induction false} ParsedHasNoHelpOrVersion(rule: TopicRule, tokens: seq<string>, acc: Args, extras: seq<string>, i: nat)
    requires i < |tokens| && (IsHelpFlag(tokens[i]) || IsVersionFlag(tokens[i]))
    ensures !Consume(rule, tokens, acc, extras).Parsed?
    decreases |tokens|
  {
    if i > 0 && !IsHelpFlag(tokens[0]) && !IsVersionFlag(tokens[0]) {
      if !TakesValue(tokens[0]) {
        ParsedHasNoHelpOrVersion(rule, tokens[1..], acc, extras + [tokens[0]], i - 1);
      } else if i == 1 {
        assert LooksLikeOption(tokens[1]);
      } else if !LooksLikeOption(tokens[1]) {
        var flag, value, rest := tokens[0], tokens[1], tokens[2..];
        if IsTopicFlag(flag) {
          match CheckTopic(rule, value)
          case Failure(_) =>
          case Success(t) => ParsedHasNoHelpOrVersion(rule, rest, acc.(topics := acc.topics + [t]), extras, i - 2);
        } else if IsCountFlag(flag) {
          match V.CheckRange(V.CountBounds, value)
          case Failure(_) =>
          case Success(n) => ParsedHasNoHelpOrVersion(rule, rest, acc.(articleCount := n), extras, i - 2);
        } else {
          match V.CheckRange(V.TimeoutBounds, value)
          case Failure(_) =>
          case Success(n) => ParsedHasNoHelpOrVersion(rule, rest, acc.(timeout := n), extras, i - 2);
        }
      }
    }
  }

  lemma {:induction false} ConsumeWithoutTopicFlag(rule: TopicRule, tokens: seq<string>, acc: Args, extras: seq<string>)
    requires forall i :: 0 <= i < |tokens| ==> !IsTopicFlag(tokens[i])
    requires acc.topics == []
    ensures !Consume(rule, tokens, acc, extras).Parsed?
    decreases |tokens|
  {
    if |tokens| > 0 && !IsHelpFlag(tokens[0]) && !IsVersionFlag(tokens[0]) {
      if !TakesValue(tokens[0]) {
        ConsumeWithoutTopicFlag(rule, tokens[1..], acc, extras + [tokens[0]]);
      } else if |tokens| > 1 && !LooksLikeOption(tokens[1]) {
        var flag, value, rest := tokens[0], tokens[1], tokens[2..];
        if IsCountFlag(flag) {
          match V.CheckRange(V.CountBounds, value)
          case Failure(_) =>
          case Success(n) => ConsumeWithoutTopicFlag(rule, rest, acc.(articleCount := n), extras);
        } else if IsTimeoutFlag(flag) {
          match V.CheckRange(V.TimeoutBounds, value)
          case Failure(_) =>
          case Success(n) => ConsumeWithoutTopicFlag(rule, rest, acc.(timeout := n), extras);
        }
      }
    }
  }

  /** Without a --topic/-t token the parse never succeeds: the topic option is required. */
  lemma TopicRequiredForParse(rule: TopicRule, tokens: seq<string>)
    requires forall i :: 0 <= i < |tokens| ==> !IsTopicFlag(tokens[i])
    ensures !ParseWith(rule, tokens).Parsed?
  {
    ConsumeWithoutTopicFlag(rule, tokens, Args([], DefaultArticleCount, DefaultTimeout), []);
  }

  /** `--topic v0 -t v1 ...`: each value preceded by one of the two spellings (true: the long one). */
  function TopicTokens(values: seq<string>, long: seq<bool>): (tokens: seq<string>)
    requires |values| == |long|
    ensures |tokens| == 2 * |values|
  {
    if |values| == 0 then []
    else [if long[0] then "--topic" else "-t", values[0]] + TopicTokens(values[1..], long[1..])
  }

  /** One `flag value` pair for the topic option, with a value the topic check admits. */
  lemma TopicStep(rule: TopicRule, flag: string, value: string, rest: seq<string>, acc: Args, extras: seq<string>)
    requires IsTopicFlag(flag) && !LooksLikeOption(value)
    requires CheckTopic(rule, value) == Success(value)
    ensures Consume(rule, [flag, value] + rest, acc, extras)
         == Consume(rule, rest, acc.(topics := acc.topics + [value]), extras)
  {
  }

  /** One `flag value` pair for the count or timeout option. */
  lemma NumberStep(rule: TopicRule, flag: string, value: string, rest: seq<string>, acc: Args, extras: seq<string>)
    requires (IsCountFlag(flag) || IsTimeoutFlag(flag)) && !LooksLikeOption(value)
    ensures IsCountFlag(flag) ==>
      var c := V.CheckRange(V.CountBounds, value);
      Consume(rule, [flag, value] + rest, acc, extras) ==
        (if c.Success? then Consume(rule, rest, acc.(articleCount := c.value), extras)
         else UsageError(BadCount(c.error)))
    ensures IsTimeoutFlag(flag) ==>
      var c := V.CheckRange(V.TimeoutBounds, value);
      Consume(rule, [flag, value] + rest, acc, extras) ==
        (if c.Success? then Consume(rule, rest, acc.(timeout := c.value), extras)
         else UsageError(BadTimeout(c.error)))
  {
  }

  /** A run of topic options, and nothing else, appends its values in order and then finishes. */
  lemma {:induction false} ConsumeTopics(values: seq<string>, long: seq<bool>, acc: Args, extras: seq<string>)
    requires |values| == |long|
    requires forall i :: 0 <= i < |values| ==> !LooksLikeOption(values[i])
    ensures Consume(PerCharacter, TopicTokens(values, long), acc, extras)
         == Finish(acc.(topics := acc.topics + values), extras)
  {
    if |values| == 0 {
      assert acc.(topics := acc.topics + values) == acc;
    } else {
      var tokens := TopicTokens(values, long);
      var next := acc.(topics := acc.topics + [values[0]]);
      var flag := if long[0] then "--topic" else "-t";
      assert tokens == [flag, values[0]] + TopicTokens(values[1..], long[1..]);
      V.DefaultTopicAlwaysAccepted(values[0]);
      TopicStep(PerCharacter, flag, values[0], TopicTokens(values[1..], long[1..]), acc, extras);
      assert forall i :: 0 <= i < |values[1..]| ==> !LooksLikeOption(values[1..][i]);
      ConsumeTopics(values[1..], long[1..], next, extras);
      assert next.topics + values[1..] == acc.topics + values;
    }
  }

  /**
   * Repeated topic options, in any mix of spellings, yield every topic in
   * occurrence order, with count and timeout at their defaults.
   */
  lemma TopicsInOrder(values: seq<string>, long: seq<bool>)
    requires |values| == |long| > 0
    requires forall i :: 0 <= i < |values| ==> !LooksLikeOption(values[i])
    ensures Parse(TopicTokens(values, long)) == Parsed(Args(values, DefaultArticleCount, DefaultTimeout))
  {
    ConsumeTopics(values, long, Args([], DefaultArticleCount, DefaultTimeout), []);
    assert [] + values == values;
  }

  /** `-t topic -c value`: accepted exactly when the count validator admits the value, which then becomes the count. */
  lemma CountOption(topic: string, value: string)
    requires !LooksLikeOption(topic) && !LooksLikeOption(value)
    ensures Parse(["-t", topic, "-c", value]).Parsed? <==> V.CheckRange(V.CountBounds, value).Success?
    ensures Parse(["-t", topic, "-c", value]).Parsed? ==>
      Parse(["-t", topic, "-c", value]).args == Args([topic], V.CheckRange(V.CountBounds, value).value, DefaultTimeout)
    ensures V.CheckRange(V.CountBounds, value).Failure? ==>
      Parse(["-t", topic, "-c", value]) == UsageError(BadCount(V.CheckRange(V.CountBounds, value).error))
  {
    var start := Args([], DefaultArticleCount, DefaultTimeout);
    assert ["-t", topic, "-c", value] == ["-t", topic] + ["-c", value];
    assert ["-c", value] == ["-c", value] + [];
    V.DefaultTopicAlwaysAccepted(topic);
    TopicStep(PerCharacter, "-t", topic, ["-c", value], start, []);
    NumberStep(PerCharacter, "-c", value, [], start.(topics := [topic]), []);
  }

  /** `-t topic --timeout value`: accepted exactly when the timeout validator admits the value. */
  lemma TimeoutOption(topic: string, value: string)
    requires !LooksLikeOption(topic) && !LooksLikeOption(value)
    ensures Parse(["-t", topic, "--timeout", value]).Parsed? <==> V.CheckRange(V.TimeoutBounds, value).Success?
    ensures Parse(["-t", topic, "--timeout", value]).Parsed? ==>
      Parse(["-t", topic, "--timeout", value]).args == Args([topic], DefaultArticleCount, V.CheckRange(V.TimeoutBounds, value).value)
    ensures V.CheckRange(V.TimeoutBounds, value).Failure? ==>
      Parse(["-t", topic, "--timeout", value]) == UsageError(BadTimeout(V.CheckRange(V.TimeoutBounds, value).error))
  {
    var start := Args([], DefaultArticleCount, DefaultTimeout);
    assert ["-t", topic, "--timeout", value] == ["-t", topic] + ["--timeout", value];
    assert ["--timeout", value] == ["--timeout", value] + [];
    V.DefaultTopicAlwaysAccepted(topic);
    TopicStep(PerCharacter, "-t", topic, ["--timeout", value], start, []);
    NumberStep(PerCharacter, "--timeout", value, [], start.(topics := [topic]), []);
  }

  /** The default count of 10 is itself refused when written out: `-c 10` fails the strict upper bound. */
  lemma DefaultCountNotWritable(topic: string)
    requires !LooksLikeOption(topic)
    ensures Parse(["-t", topic]) == Parsed(Args([topic], DefaultArticleCount, DefaultTimeout))
    ensures Parse(["-t", topic, "-c", "10"]) == UsageError(BadCount(V.TooLarge(10)))
  {
    TopicsInOrder([topic], [false]);
    assert Decimal.IntToString(10) == "10" by {
      assert Decimal.NatToDigits(1) == "1";
    }
    CountOption(topic, "10");
  }

  /** Under the intended check an empty topic is refused, where the program as written accepts it. */
  lemma EmptyTopicDiscrepancy()
    ensures Parse(["-t", ""]) == Parsed(Args([""], DefaultArticleCount, DefaultTimeout))
    ensures ParseIntended(["-t", ""]).UsageError?
  {
  }

  /** A topic with a space in it is a value, since it matches no declared flag. */
  lemma SpacedTopicAccepted()
    ensures Parse(["-t", "new york"]) == Parsed(Args(["new york"], DefaultArticleCount, DefaultTimeout))
  {
    assert !LooksLikeOption("new york");
    TopicsInOrder(["new york"], [false]);
    assert TopicTokens(["new york"], [false]) == ["-t", "new york"];
  }

  /** A value that starts with a short flag is an option string, space or not, so the topic goes missing. */
  lemma ShortFlagTopicRefused()
    ensures Parse(["-t", "-c x"]) == UsageError(MissingValue("-t"))
  {
    assert LooksLikeOption("-c x") by {
      assert "-c x"[..2] == "-c";
    }
  }

  /** So is a value whose text before '=' is a long flag. */
  lemma LongFlagTopicRefused()
    ensures Parse(["-t", "--topic=a b"]) == UsageError(MissingValue("-t"))
  {
    AttachedValueIsOption(LongFlags[0], "a b");
    assert LongFlags[0] + "=" + "a b" == "--topic=a b";
  }

  /** A negative number is a value even before one final newline, as the pattern's `$` allows. */
  lemma NegativeTopicAccepted()
    ensures Parse(["-t", "-5\n"]) == Parsed(Args(["-5\n"], DefaultArticleCount, DefaultTimeout))
  {
    assert !LooksLikeOption("-5\n") by {
      assert "-5\n"[..2] == "-5";
      assert IsNegativeNumeral("-5");
    }
    TopicsInOrder(["-5\n"], [false]);
    assert TopicTokens(["-5\n"], [false]) == ["-t", "-5\n"];
  }
}
