/**
 * `getGithubGraphWeeks` and the default request handler (api/graph.ts, lines 4-85).
 * The headless browser is an input: what it does when launched, asked for a page,
 * sent to a URL and asked to evaluate the extraction. The pipeline returns the calls
 * it made, in order, beside its outcome.
 */
module Graph {
  import opened Wrappers
  import opened Handle
  import opened Url
  import opened Calendar

  /** Why a request failed; the handler answers every one of them the same way. */
  datatype Error =
    | InvalidName       // `throw Error()` on a missing or empty name
    | LaunchFailed      // `puppeteer.launch` rejected
    | PageFailed        // `browser.newPage` rejected
    | NavigationFailed  // `page.goto` rejected
    | CalendarMissing   // the calendar selector matched nothing, so `evaluate` threw

  /** A call into the headless browser. */
  datatype Action = Launch | NewPage | Goto(url: string) | Evaluate | Close

  /**
   * How the browser behaves: whether each step succeeds, and the calendar groups the
   * loaded page holds (None when `.js-calendar-graph svg g` is not in the page).
   */
  datatype Browser = Browser(launches: bool, opensPage: bool, loads: bool, calendar: Option<seq<seq<Cell>>>)

  predicate Healthy(browser: Browser) {
    browser.launches && browser.opensPage && browser.loads && browser.calendar.Some?
  }

  /** The request's query parameters. */
  datatype Query = Query(name: Option<string>, from: Option<string>, to: Option<string>)

  datatype Body = Sent(graph: Extraction) | ErrorBody(error: bool)

  datatype Response = Response(status: int, body: Body)

  /** The `Options` object; the pipeline rewrites its `name` in place. */
  class Options {
    var name: Option<string>
    var from: Option<string>
    var to: Option<string>

    constructor (name: Option<string>, from: Option<string>, to: Option<string>)
      ensures this.name == name && this.from == from && this.to == to
    {
      this.name := name;
      this.from := from;
      this.to := to;
    }
  }

  /** The target URL for a handle that has already been stripped. */
  function Target(handle: string, from: Option<string>, to: Option<string>): (r: string)
    ensures Truthy(from) && Truthy(to) ==>
      r == "https://github.com/" + handle + "?tab=overview&from=" + from.value + "&to=" + to.value
    ensures !(Truthy(from) && Truthy(to)) ==> r == "https://github.com/" + handle + "?tab=overview"
  {
    TargetShape(handle, from, to);
    ProfileUrl(handle, QueryFor(from, to))
  }

  lemma TargetShape(handle: string, from: Option<string>, to: Option<string>)
    ensures Truthy(from) && Truthy(to) ==>
      ProfileUrl(handle, QueryFor(from, to)) == "https://github.com/" + handle + "?tab=overview&from=" + from.value + "&to=" + to.value
    ensures !(Truthy(from) && Truthy(to)) ==>
      ProfileUrl(handle, QueryFor(from, to)) == "https://github.com/" + handle + "?tab=overview"
  {
    var query := Serialize(QueryFor(from, to));
    SerializedQuery(from, to);
    var base := ProfilePrefix + handle + "?";
    assert ProfileUrl(handle, QueryFor(from, to)) == base + query;
    if Truthy(from) && Truthy(to) {
      assert base + query == "https://github.com/" + handle + "?tab=overview&from=" + from.value + "&to=" + to.value;
    } else {
      assert base + query == "https://github.com/" + handle + "?tab=overview";
    }
  }

  /**
   * `getGithubGraphWeeks`: checks the raw name, strips it in place, then launches the
   * browser, opens a page, navigates, extracts and closes. The browser is closed only
   * when every step before it succeeded.
   */
  method GetGithubGraphWeeks(options: Options, browser: Browser) returns (r: Result<Extraction, Error>, trace: seq<Action>)
    modifies options
    ensures options.from == old(options.from) && options.to == old(options.to)
    ensures !Truthy(old(options.name)) ==>
      r == Failure(InvalidName) && trace == [] && options.name == old(options.name)
    ensures Truthy(old(options.name)) ==> options.name == Some(StripAt(old(options.name).value))
    ensures Truthy(old(options.name)) && !browser.launches ==>
      r == Failure(LaunchFailed) && trace == [Launch]
    ensures Truthy(old(options.name)) && browser.launches && !browser.opensPage ==>
      r == Failure(PageFailed) && trace == [Launch, NewPage]
    ensures Truthy(old(options.name)) && browser.launches && browser.opensPage ==>
      var url := Target(options.name.value, options.from, options.to);
      && (!browser.loads ==> r == Failure(NavigationFailed) && trace == [Launch, NewPage, Goto(url)])
      && (browser.loads && browser.calendar.None? ==>
            r == Failure(CalendarMissing) && trace == [Launch, NewPage, Goto(url), Evaluate])
      && (Healthy(browser) ==>
            r.Success? && Extracted(browser.calendar.value, r.value)
            && trace == [Launch, NewPage, Goto(url), Evaluate, Close])
  {
    trace := [];
    if !Truthy(options.name) {
      return Failure(InvalidName), trace;
    }
    options.name := Some(StripAt(options.name.value));

    trace := trace + [Launch];
    if !browser.launches {
      return Failure(LaunchFailed), trace;
    }
    trace := trace + [NewPage];
    if !browser.opensPage {
      return Failure(PageFailed), trace;
    }

    var params := BuildParams(options.from, options.to);
    var url := ProfileUrl(options.name.value, params.entries);

    trace := trace + [Goto(url)];
    if !browser.loads {
      return Failure(NavigationFailed), trace;
    }
    trace := trace + [Evaluate];
    if browser.calendar.None? {
      return Failure(CalendarMissing), trace;
    }
    var weeks := Extract(browser.calendar.value);

    trace := trace + [Close];
    r := Success(weeks);
  }

  /**
   * The default export: runs the pipeline on the query's parameters, sends the
   * result on success (with the default status 200), and answers any thrown error
   * with status 400 and `{error: true}`.
   */
  method Handler(query: Query, browser: Browser) returns (res: Response, trace: seq<Action>)
    ensures Truthy(query.name) && Healthy(browser) ==>
      res.status == 200 && res.body.Sent? && Extracted(browser.calendar.value, res.body.graph)
    ensures !(Truthy(query.name) && Healthy(browser)) ==> res == Response(400, ErrorBody(true))
    ensures !Truthy(query.name) ==> trace == []
    ensures Truthy(query.name) && browser.launches && browser.opensPage ==>
      |trace| >= 3 && trace[2] == Goto(Target(StripAt(query.name.value), query.from, query.to))
    ensures Close in trace <==> Truthy(query.name) && Healthy(browser)
  {
    var options := new Options(query.name, query.from, query.to);
    var r;
    r, trace := GetGithubGraphWeeks(options, browser);
    match r
    case Success(weeks) =>
      res := Response(200, Sent(weeks));
    case Failure(_) =>
      res := Response(400, ErrorBody(true));
  }

  /** A handle given with a leading `@` is navigated to without it, on the overview tab. */
  lemma SigilStrippedInTarget(handle: string)
    requires '@' !in handle
    ensures Target(StripAt("@" + handle), None, None) == "https://github.com/" + handle + "?tab=overview"
  {
    StripAtConcat("@", handle);
    assert StripAt("@") == [];
    StripAtFixedPoint(handle);
    SerializedQuery(None, None);
  }

  /** One week with counts 0,1,0,3,0,0,2 gives highest 3 and lowest 0. */
  lemma OneWeekScenario(attrs: seq<map<string, string>>)
    requires |attrs| == 7
    ensures
      var week := [Cell(attrs[0], Some(0)), Cell(attrs[1], Some(1)), Cell(attrs[2], Some(0)),
                   Cell(attrs[3], Some(3)), Cell(attrs[4], Some(0)), Cell(attrs[5], Some(0)),
                   Cell(attrs[6], Some(2))];
      GridMax([week]) == 3 && GridMin([week]) == 0
  {
    var week := [Cell(attrs[0], Some(0)), Cell(attrs[1], Some(1)), Cell(attrs[2], Some(0)),
                 Cell(attrs[3], Some(3)), Cell(attrs[4], Some(0)), Cell(attrs[5], Some(0)),
                 Cell(attrs[6], Some(2))];
    assert |week[6..][1..]| == 0;
    assert RowMax(week[6..]) == 2;
    assert week[5..][1..] == week[6..];
    assert RowMax(week[5..]) == 2;
    assert week[4..][1..] == week[5..];
    assert RowMax(week[4..]) == 2;
    assert week[3..][1..] == week[4..];
    assert RowMax(week[3..]) == 3;
    assert week[2..][1..] == week[3..];
    assert RowMax(week[2..]) == 3;
    assert week[1..][1..] == week[2..];
    assert RowMax(week[1..]) == 3;
    assert RowMax(week) == 3;
    var grid: seq<seq<Cell>> := [week];
    assert |grid[1..]| == 0;
    NonNegativeCountsKeepLowestZero(grid);
  }
}
