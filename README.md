# news_cli: the argument contract, modelled in Dafny

news_cli is a one-shot command-line program. It takes one or more topics, an
article count and a timeout, and checks that the `NEWS_KEY` API key is in the
environment. It then sends one GET request to a news-search endpoint and prints
the JSON it gets back. The logic worth verifying sits in front of that request:

- the string-length validator `verify_str_length`;
- the integer-range validator `verify_int_range`;
- the option contract that `create_parser` declares;
- the key check and the query/payload construction in `main`.

This project models those four parts as pure functions, and proves lemmas about them.

Modules, one per component:

- `Wrappers` (wrappers.dfy): `Option` and `Result`.
- `Decimal` (decimal.dfy): the text-to-integer step, as Python's `int()` on ASCII text
  (optional sign, then digits), and `str()` on an integer. `str()` is proved to give the
  one canonical numeral of each integer, and the two conversions are proved to round-trip.
- `Text` (text.dfy): `" ".join`, with splitting at single spaces as its inverse.
- `Validators` (validators.dfy): each validator factory becomes a bounds record plus a
  check function. `CheckLengths` is the loop of `verify_str_length`. `ValidateTopic` is
  that loop applied the way argparse applies it: to ONE topic string, and so to its characters.
  `CheckRange` is `verify_int_range`.
- `Cli` (cli.dfy): parse_args on the parser `create_parser` builds. Tokens are read left
  to right. Each option value is validated when it is read. A value must not look like an
  option, as argparse decides it. A token is an option if it is a declared flag, or
  starts with a short flag (`-c x`), or has a long flag or an abbreviation of one before
  any '=' (`--topic=a b`). Otherwise a '-'-prefixed token is an option unless it is a
  negative number or contains a space. The help flag (argparse's default
  `-h/--help`) and the version flag end parsing and exit 0.
  Once every token is read, the required topic is checked, then any unconsumed tokens.
  Defaults (count 10, timeout 10) are not passed through the validators.
- `CliExamples` (cli_examples.dfy): the accept/refuse cases of tests.py.
- `Request` (request.dfy): the key check (exit 22) and the payload `q`, `lang="en"`,
  `country="us"`, `max`, `apikey`, with the environment passed as a map. `Run` composes
  parsing and the payload, and returns the process exit or the GET it would send.

Behaviour the code fixes, where a prose description of the program says otherwise:

- Both validators use strict bounds. The integer docstring says "inclusively", but the
  article count accepts 1 to 9 and the timeout 1 to 59. The default count, 10, is refused
  when given explicitly (`Cli.DefaultCountNotWritable`).
- `requests.get` is called without a timeout, so `--timeout` is only validated.
- The topic length check never looks at the topic's length (see Findings).

## Model

| member | source | states |
|---|---|---|
| `Decimal.ParseInt` | news_cli.py:77-82 | conversion succeeds exactly on an optional sign followed by one or more ASCII digits, and the result is the digits' positional value, negated after a '-' |
| `Decimal.NatToDigits` | news_cli.py:159-161 | the decimal text of a natural number is non-empty, all digits, has no leading zero, and reads back as the number |
| `Decimal.IntToString` | news_cli.py:159-161 | `str(n)` is canonical (no '+', no leading zero, no "-0"), parses back to n, and starts with '-' exactly when n is negative |
| `Decimal.CanonicalDigits` | news_cli.py:159-161 | digits without a superfluous leading zero are exactly the digits str() prints for their value |
| `Decimal.CanonicalRoundTrip` | news_cli.py:159-161 | every canonical numeral is what str() prints for the integer it parses to, so str() is a bijection onto the canonical numerals |
| `Decimal.NonDigitRefused` | news_cli.py:77-82 | text holding any character other than a digit or sign is refused by the conversion |
| `Text.Join` | news_cli.py:153 | the joined query is the topics' total length plus one separator per gap, begins with the first topic, and has the separator right after it |
| `Text.SplitJoin` | news_cli.py:153 | splitting the space-joined topics at spaces gives back the topics, when there is at least one topic and none contains a space |
| `Validators.CheckLengths` | news_cli.py:44-53 | the input is returned unchanged iff every element's length is strictly between the bounds; otherwise the error names the first offending element and its index, and reports the lower-bound failure before the upper-bound one |
| `Validators.ValidateTopic` | news_cli.py:111-118 | one topic passed to the length validator is accepted, unchanged, iff it is empty or a length of 1 lies between the bounds; a refusal names its first character |
| `Validators.DefaultTopicAlwaysAccepted` | news_cli.py:14-15 | with the default bounds (0, 255) every topic is accepted unchanged, the empty one included |
| `Validators.ValidateTopicIntended` | news_cli.py:99-103 | the whole-topic check accepts, unchanged, exactly the topics whose length is strictly between the bounds, and refuses the rest with the matching bound |
| `Validators.IntendedTopicBounds` | news_cli.py:101-102 | the docstring says 1 to 255 characters; the strict bounds (0, 255) applied to the whole topic admit exactly 1 to 254 |
| `Validators.TopicCheckDiscrepancy` | news_cli.py:115 | the empty topic and a 300-character topic pass the check as written and fail the whole-topic check |
| `Validators.CheckRange` | news_cli.py:74-93 | returns n iff the text converts to n with lower < n < upper. It fails at conversion, naming the text itself, exactly when the text is not a numeral. A numeral at or below the lower bound is TooSmall, and one above it but at or over the upper bound is TooLarge, each carrying the converted value |
| `Validators.CountRange` | news_cli.py:123 | the article-count validator accepts exactly the numerals of 1 to 9 |
| `Validators.TimeoutRange` | news_cli.py:131 | the timeout validator accepts exactly the numerals of 1 to 59 |
| `Validators.NonNumericRefused` | news_cli.py:77-82 | text with a letter in it is refused at conversion, before any bound, for any bounds |
| `Cli.Finish` | news_cli.py:117 | after all tokens, parsing succeeds iff some topic was given and no token is left unconsumed, and then yields the collected arguments. A missing topic is reported first, as TopicRequired. With a topic, leftover tokens are reported as Unrecognized. It never shows help or version |
| `Cli.Consume` | news_cli.py:110-134 | a successful parse leaves no unconsumed token and only appends to the topics; under the topic check as written no topic is ever refused |
| `Cli.ParseWith` | news_cli.py:110-134 | every successful parse has a topic, a count of 1 to 10 (default or validated) and a timeout of 1 to 59 (default or validated); under the whole-topic check every topic is within its bounds |
| `Cli.Parse` | news_cli.py:110-134 | parse_args on create_parser's parser as written: never fails on a topic value, and a success has a topic, a count of 1 to 10 and a timeout of 1 to 59 |
| `Cli.ParseIntended` | news_cli.py:99-103 | the same parser with the whole-topic check: every parsed topic has 1 to 254 characters |
| `Cli.ConsumeInRange` | news_cli.py:120-134 | reading tokens keeps count and timeout at their defaults or within their validators' ranges, and under the whole-topic check keeps every topic within bounds; success implies at least one topic |
| `Cli.ParsedHasNoHelpOrVersion` | news_cli.py:110-119 | a `-h`, `--help`, `-v` or `--version` token at any index rules out a successful parse |
| `Cli.NumeralIsValue` | news_cli.py:120-134 | an integer numeral, with or without a sign, is never an option string, so it is always taken as the count or timeout value |
| `Cli.AttachedValueIsOption` | news_cli.py:111-134 | a long flag with a value attached by '=' (`--topic=x`) is an option string, whatever the value holds |
| `Cli.SpacedTopicAccepted` | news_cli.py:111-118 | `-t "new york"` parses to the one topic "new york" |
| `Cli.ShortFlagTopicRefused` | news_cli.py:111-123 | `-t "-c x"` fails with the topic's value missing, because the value starts with the short flag `-c` |
| `Cli.LongFlagTopicRefused` | news_cli.py:111-118 | `-t "--topic=a b"` fails with the topic's value missing |
| `Cli.NegativeTopicAccepted` | news_cli.py:111-118 | `-t` followed by "-5" and a newline parses to that topic, because the negative-number pattern's `$` matches before a final newline |
| `Cli.ConsumeWithoutTopicFlag` | news_cli.py:111-118 | from a state with no topics, tokens without a topic flag never lead to success |
| `Cli.TopicRequiredForParse` | news_cli.py:117 | a command line with no token spelled exactly `--topic` or `-t` never parses |
| `Cli.TopicStep` | news_cli.py:111-118 | step equation (one unfolding of `Consume`): a topic flag followed by an admitted value appends that value to the topics and continues |
| `Cli.NumberStep` | news_cli.py:120-134 | step equation (one unfolding of `Consume`): a count or timeout flag followed by a value either fails with that validator's error or overwrites that field and continues |
| `Cli.ConsumeTopics` | news_cli.py:111-118 | a command line made only of topic options, in any spellings, appends their values in order and then finishes |
| `Cli.TopicsInOrder` | news_cli.py:111-118 | repeated `-t`/`--topic` options in any spelling mix give every topic in occurrence order, with count and timeout at 10 |
| `Cli.CountOption` | news_cli.py:120-127 | `-t x -c v` parses iff the count validator admits v, giving count v and timeout 10, and otherwise fails with that validator's error |
| `Cli.TimeoutOption` | news_cli.py:128-134 | `-t x --timeout v` parses iff the timeout validator admits v, giving timeout v and count 10, and otherwise fails with that validator's error |
| `Cli.DefaultCountNotWritable` | news_cli.py:123-125 | the default count 10 is what an omitted `-c` yields, yet `-c 10` is refused as too large |
| `Cli.EmptyTopicDiscrepancy` | news_cli.py:115 | `-t ""` parses to the topic "" as written, and fails under the whole-topic check |
| `CliExamples.TimeoutAccepted` | tests.py:18-39 | `--timeout 1` and `--timeout 20` are accepted with count 10 |
| `CliExamples.CountAccepted` | tests.py:41-62 | `-c 1` and `-c 5` are accepted with timeout 10 |
| `CliExamples.NonNumericValuesRefused` | tests.py:64-76 | "a", "a1" and "1a" are refused at conversion for both count and timeout |
| `CliExamples.TimeoutOutOfRangeRefused` | tests.py:78-86 | timeouts 61, 1000 and -200 are refused |
| `CliExamples.CountOutOfRangeRefused` | tests.py:88-94 | counts 26, 1000 and -200 are refused |
| `CliExamples.NoTopicRefused` | tests.py:96-99 | an empty command line fails with the missing required topic |
| `CliExamples.TwoTopicsInOrder` | tests.py:101-141 | all four spelling mixes of two topic options give ["a", "b"] |
| `Request.BuildRequest` | news_cli.py:143-163 | exits with 22 iff NEWS_KEY is absent; otherwise one GET to the search endpoint with q the topics joined by single spaces, lang "en", country "us", max the canonical decimal text of the article count, and the key unchanged; q splits back into the topics when none contains a space |
| `Request.Run` | news_cli.py:138-163 | a usage error ends with status 2, help or version with 0, a valid command line without NEWS_KEY with 22, and only a valid one with the key reaches the GET, whose q, max and apikey come from the parsed arguments and the environment |
| `Request.RunRequestWellFormed` | news_cli.py:138-163 | a request is sent only after a successful parse and with the key present, and then asks for 1 to 10 articles |
| `Request.MissingKeyExits` | news_cli.py:143-151 | a valid command line without NEWS_KEY ends with status 22 and no request |
| `Request.ExamplePayload` | news_cli.py:153-163 | `-t a -t b` with a key gives q "a b", lang "en", country "us", max "10" and that key |
| `Request.HelpExits` | news_cli.py:110 | `-h` alone, or `--help` after a topic, exits 0 with no request, whether or not the key is set |

## Findings

| source | as written | input that shows it | evidently intended | confidence | as-written member | corrected member |
|---|---|---|---|---|---|---|
| news_cli.py:115 | the topic option's length validator loops over a list, but argparse hands it one topic string, so it checks each character (length 1) and never the topic's length | `-t ""` and a 300-character topic are both accepted | a length check on each whole topic: the create_parser docstring (news_cli.py:101-102) says 1 to 255 characters, and the validator's strict default bounds (0, 255) applied to the whole topic give 1 to 254 | high, not executed | `Validators.TopicCheckDiscrepancy` | `Validators.ValidateTopicIntended` |

The program as written is modelled by `Cli.Parse` and `Request.Run`, which use `Validators.ValidateTopic`.
`Cli.ParseIntended` is the same parser with the whole-topic check; `Cli.EmptyTopicDiscrepancy` compares the two.

## Left out

- The HTTP request, `raise_for_status`, `response.json()` and `pprint` (news_cli.py:165-172): network I/O and library calls. `Request.Run` stops at the GET it would send.
- The debug print of the arguments (news_cli.py:141) and the text of the missing-key message (news_cli.py:144-150): output only.
- Error message texts, including their `lower-1`/`upper+1` numbers: a tagged error value stands for each.
- The `--version` output text and the help/usage text. The help and version flags are modelled only as "stop parsing, exit 0".
- Cli.Parse: where a flag is expected, argparse's attached-value forms (`--topic=x`, `-tx`, `-h x`), combined short flags (`-vh`) and abbreviated long options (`--art 5`) are treated as unrecognized tokens. argparse expands these or reports them at once, but that is library behaviour outside news_cli.py. Where a value is expected, the same tokens are classified as argparse classifies them (they are options).
- Cli.Parse: an ambiguous abbreviation (`--t`) in a value position is reported as the missing value, where argparse reports the ambiguity; both are usage errors with exit 2.
- Cli.Parse: the `--` separator is treated as an unrecognized token where a flag is expected and as an option where a value is expected. argparse instead takes every later token as a value.
- Cli.Parse: argparse's digit tests match Unicode digits; the model accepts ASCII digits only.
- Decimal.ParseInt: Python's `int()` also allows surrounding whitespace, `_` between digits and non-ASCII digits. The model accepts only an optional sign followed by ASCII digits.
- Decimal.ParseInt: CPython 3.11 and later (and the 3.7.14–3.10.7 security releases) refuse numerals of more than 4300 digits by default. The model accepts numerals of any length, so such a numeral passes conversion in the model, and the program then refuses it with a conversion error. That limit is an interpreter setting, not part of news_cli.py.
- Exit statuses 2 (usage error) and 0 (help or version) are argparse conventions, written as constants.
- Any timeout behaviour: `requests.get` (news_cli.py:165) is never given the parsed timeout.
- The ambient `os.environ` is an explicit `map<string, string>` parameter.
