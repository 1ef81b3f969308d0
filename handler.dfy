/** The `/fetch` handler (app.js:20-77): validate the `url` field, fetch the page,
    rewrite it, and answer with the rewritten page or an error. The network fetch
    is a parameter: a function from the URL to what the transport produced. */
module Handler {
  import opened Rewriter
  import opened Dom

  datatype Option<T> = None | Some(value: T)

  /** What `axios.get(url)` produced: a page (a 2xx answer, already parsed), an
      upstream answer with a non-2xx status (an error with `error.response`),
      or a failure without any answer (network, DNS, an invalid URL). */
  datatype FetchResult = Ok(page: Node) | HttpErr(status: nat) | NetErr

  /** The JSON body of the answer. */
  datatype Payload =
    | Failure(error: string)
    | Success(success: bool, content: Node, title: string, originalUrl: string)

  datatype Response = Response(status: nat, body: Payload)

  const UrlRequired := "URL is required"
  const FetchFailed := "Failed to fetch content"

  /** The decimal spelling of a status code, as `${status}` writes it. */
  function Decimal(n: nat): (s: string)
    ensures |s| > 0 && forall i :: 0 <= i < |s| ==> '0' <= s[i] <= '9'
    ensures |s| > 1 ==> s[0] != '0'
    decreases n
  {
    if n < 10 then [DigitChar(n)] else Decimal(n / 10) + [DigitChar(n % 10)]
  }

  function DigitChar(d: nat): char
    requires d < 10
  {
    (48 + d) as char
  }

  /** The number a string of decimal digits denotes. */
  function DecimalValue(s: string): nat
    requires forall i :: 0 <= i < |s| ==> '0' <= s[i] <= '9'
    decreases |s|
  {
    if s == [] then 0 else 10 * DecimalValue(s[..|s| - 1]) + (s[|s| - 1] as int - 48)
  }

  /** The status in the error message reads back as the status. */
  lemma {:induction false} DecimalRoundTrip(n: nat)
    ensures DecimalValue(Decimal(n)) == n
    decreases n
  {
    if n >= 10 {
      var s := Decimal(n);
      assert s[..|s| - 1] == Decimal(n / 10);
      DecimalRoundTrip(n / 10);
    }
  }

  lemma {:induction false} DecimalValuePositive(s: string)
    requires |s| > 0 && s[0] != '0' && forall i :: 0 <= i < |s| ==> '0' <= s[i] <= '9'
    ensures DecimalValue(s) > 0
    decreases |s|
  {
    if |s| > 1 {
      DecimalValuePositive(s[..|s| - 1]);
    }
  }

  /** `Decimal` is the only spelling without leading zeros: a digit string without
      one is the spelling of the number it denotes. */
  lemma {:induction false} DecimalUnique(s: string)
    requires |s| > 0 && forall i :: 0 <= i < |s| ==> '0' <= s[i] <= '9'
    requires |s| > 1 ==> s[0] != '0'
    ensures Decimal(DecimalValue(s)) == s
    decreases |s|
  {
    var n := DecimalValue(s);
    if |s| > 1 {
      var u := s[..|s| - 1];
      DecimalValuePositive(u);
      DecimalUnique(u);
      assert n / 10 == DecimalValue(u) && n % 10 == s[|s| - 1] as int - 48;
      assert s == u + [s[|s| - 1]];
    }
  }

  /** The error message for a failed fetch (app.js:72-74). */
  function FetchErrorMessage(f: FetchResult): (m: string)
    requires !f.Ok?
    ensures |m| >= |FetchFailed| && m[..|FetchFailed|] == FetchFailed
    ensures m == FetchFailed <==> f.NetErr?
  {
    match f
    case HttpErr(status) => FetchFailed + ": HTTP " + Decimal(status)
    case NetErr => FetchFailed
  }

  /** The handler: a missing or empty `url` is answered with 400 before any fetch;
      a failed fetch with 500; otherwise the page is rewritten and answered with 200. */
  function Handle(w: WordPair, url: Option<string>, fetch: string -> FetchResult): (r: Response)
    requires |w.target| > 0
  {
    if url.None? || url.value == "" then Response(400, Failure(UrlRequired))
    else
      match fetch(url.value)
      case Ok(root) =>
        var page := RewritePage(w, root);
        Response(200, Success(true, page.content, page.title, url.value))
      case HttpErr(status) => Response(500, Failure(FetchErrorMessage(HttpErr(status))))
      case NetErr => Response(500, Failure(FetchErrorMessage(NetErr)))
  }

  /** The answer to a request without a usable `url` is 400 "URL is required",
      whatever the fetcher would have done: the fetch is never made. */
  lemma MissingUrl(w: WordPair, url: Option<string>, f: string -> FetchResult, g: string -> FetchResult)
    requires |w.target| > 0 && (url.None? || url == Some(""))
    ensures Handle(w, url, f) == Handle(w, url, g) == Response(400, Failure("URL is required"))
  {
  }

  /** With a usable `url`, the answer depends on the fetcher only through what it
      returns for that very URL. */
  lemma FetchOnce(w: WordPair, url: string, f: string -> FetchResult, g: string -> FetchResult)
    requires |w.target| > 0 && url != "" && f(url) == g(url)
    ensures Handle(w, Some(url), f) == Handle(w, Some(url), g)
  {
  }

  /** Every outcome of a request with a usable `url`: 200 with the rewritten page,
      its title and the URL as given; 500 "Failed to fetch content: HTTP <status>"
      when the upstream answered with an error status; 500 "Failed to fetch content"
      when there was no answer. */
  lemma HandleOutcomes(w: WordPair, url: string, f: string -> FetchResult)
    requires |w.target| > 0 && url != ""
    ensures f(url).Ok? ==>
      var page := RewritePage(w, f(url).page);
      Handle(w, Some(url), f) == Response(200, Success(true, page.content, page.title, url))
    ensures f(url).HttpErr? ==>
      var r := Handle(w, Some(url), f);
      && r.status == 500
      && r.body == Failure("Failed to fetch content: HTTP " + Decimal(f(url).status))
      && DecimalValue(r.body.error[|"Failed to fetch content: HTTP "|..]) == f(url).status
    ensures f(url) == NetErr ==> Handle(w, Some(url), f) == Response(500, Failure("Failed to fetch content"))
  {
    if f(url).HttpErr? {
      var r := Handle(w, Some(url), f);
      var prefix := "Failed to fetch content: HTTP ";
      assert r.body.error == prefix + Decimal(f(url).status);
      assert FetchFailed + ": HTTP " == prefix;
      assert r.body.error[|prefix|..] == Decimal(f(url).status);
      DecimalRoundTrip(f(url).status);
    }
  }

  /** Only a 200 answer carries a page, and it always has the success flag set. */
  lemma HandleStatus(w: WordPair, url: Option<string>, f: string -> FetchResult)
    requires |w.target| > 0
    ensures var r := Handle(w, url, f);
      && r.status in {200, 400, 500}
      && (r.status == 200 <==> r.body.Success?)
      && (r.body.Success? ==> r.body.success && url.Some? && r.body.originalUrl == url.value)
  {
  }
}
