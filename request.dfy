/**
 * The part of `main` between argument parsing and the HTTP call: the API-key
 * check and the construction of the request's query parameters. The process
 * environment is an explicit map; the request itself is returned as data.
 */
module Request {
  import opened Wrappers
  import Decimal
  import Text
  import Cli
  import Validators

  const BaseUrl := "https://gnews.io/api/v4/search"
  const KeyVariable := "NEWS_KEY"

  /** errno 22 (EINVAL), the status when the key is missing. */
  const MissingKeyStatus := 22
  /** argparse's status for a usage error. */
  const UsageStatus := 2
  /** argparse's status after printing the help or the version. */
  const InfoStatus := 0

  /** The query parameters sent to the search endpoint. */
  datatype Payload = Payload(q: string, lang: string, country: string, max: string, apikey: string)

  /** What the run ends in: a process exit before any request, or one GET with these parameters. */
  datatype Action =
    | Exit(status: int)
    | HttpGet(url: string, params: Payload)

  /**
   * The key check and the payload. The key is required; the query is the topics
   * joined by single spaces, so when no topic contains a space it splits back
   * into exactly the topics; `max` is str() of the article count: its canonical
   * decimal text, which reads back as the count.
   */
  function BuildRequest(args: Cli.Args, env: map<string, string>): (r: Action)
    ensures r.Exit? <==> KeyVariable !in env
    ensures r.Exit? ==> r.status == MissingKeyStatus
    ensures r.HttpGet? ==>
      && r.url == BaseUrl
      && r.params.lang == "en"
      && r.params.country == "us"
      && r.params.apikey == env[KeyVariable]
      && r.params.q == Text.Join(args.topics, ' ')
      && r.params.max == Decimal.IntToString(args.articleCount)
      && Decimal.IsCanonical(r.params.max)
      && Decimal.ParseInt(r.params.max) == Some(args.articleCount)
    ensures r.HttpGet? && |args.topics| > 0 && (forall k :: 0 <= k < |args.topics| ==> ' ' !in args.topics[k]) ==>
      Text.Split(r.params.q, ' ') == args.topics
  {
    if KeyVariable !in env then Exit(MissingKeyStatus)
    else
      var query := Text.Join(args.topics, ' ');
      assert |args.topics| > 0 && (forall k :: 0 <= k < |args.topics| ==> ' ' !in args.topics[k]) ==>
        Text.Split(query, ' ') == args.topics
      by {
        if |args.topics| > 0 && (forall k :: 0 <= k < |args.topics| ==> ' ' !in args.topics[k]) {
          Text.SplitJoin(args.topics, ' ');
        }
      }
      HttpGet(BaseUrl, Payload(query, "en", "us", Decimal.IntToString(args.articleCount), env[KeyVariable]))
  }

  /**
   * Parsing, then the key check, then the payload: argument errors, help and
   * version end the run before the key is looked at.
   */
  function Run(tokens: seq<string>, env: map<string, string>): (r: Action)
    ensures r == Exit(UsageStatus) <==> Cli.Parse(tokens).UsageError?
    ensures r == Exit(InfoStatus) <==> Cli.Parse(tokens).HelpShown? || Cli.Parse(tokens).VersionShown?
    ensures r == Exit(MissingKeyStatus) <==> Cli.Parse(tokens).Parsed? && KeyVariable !in env
    ensures r.HttpGet? <==> Cli.Parse(tokens).Parsed? && KeyVariable in env
    ensures r.HttpGet? ==>
      && r.params.q == Text.Join(Cli.Parse(tokens).args.topics, ' ')
      && r.params.max == Decimal.IntToString(Cli.Parse(tokens).args.articleCount)
      && r.params.apikey == env[KeyVariable]
  {
    match Cli.Parse(tokens)
    case UsageError(_) => Exit(UsageStatus)
    case HelpShown => Exit(InfoStatus)
    case VersionShown => Exit(InfoStatus)
    case Parsed(args) => BuildRequest(args, env)
  }

  /**
   * A run reaches the network only with a successful parse and a key; the
   * request then asks for 1 to 10 articles and carries the key unchanged.
   */
  lemma RunRequestWellFormed(tokens: seq<string>, env: map<string, string>)
    ensures Run(tokens, env).HttpGet? ==>
      && Cli.Parse(tokens).Parsed?
      && KeyVariable in env
      && Run(tokens, env).params.apikey == env[KeyVariable]
      && Decimal.ParseInt(Run(tokens, env).params.max).Some?
      && 1 <= Decimal.ParseInt(Run(tokens, env).params.max).value <= 10
  {
  }

  /** A valid command line without the key ends with status 22 and no request. */
  lemma MissingKeyExits(tokens: seq<string>, env: map<string, string>)
    requires Cli.Parse(tokens).Parsed? && KeyVariable !in env
    ensures Run(tokens, env) == Exit(MissingKeyStatus)
  {
  }

  /** With the key present, the payload for topics "a" and "b" and the default count. */
  lemma ExamplePayload(key: string)
    ensures Run(["-t", "a", "-t", "b"], map[KeyVariable := key])
         == HttpGet(BaseUrl, Payload("a b", "en", "us", "10", key))
  {
    assert Cli.TopicTokens(["a", "b"], [false, false]) == ["-t", "a", "-t", "b"];
    Cli.TopicsInOrder(["a", "b"], [false, false]);
    assert Decimal.NatToDigits(1) == "1";
    assert Decimal.IntToString(10) == "10";
    assert ["a", "b"][1..] == ["b"];
    assert Text.Join(["a", "b"], ' ') == "a b";
  }

  /** `-h` alone, and `--help` after a topic, print the help and exit 0, whether or not the key is set. */
  lemma HelpExits(env: map<string, string>)
    ensures Run(["-h"], env) == Exit(InfoStatus)
    ensures Run(["-t", "a", "--help"], env) == Exit(InfoStatus)
  {
    var tokens := ["-t", "a", "--help"];
    assert tokens == ["-t", "a"] + ["--help"];
    Validators.DefaultTopicAlwaysAccepted("a");
    Cli.TopicStep(Cli.PerCharacter, "-t", "a", ["--help"], Cli.Args([], Cli.DefaultArticleCount, Cli.DefaultTimeout), []);
  }
}
