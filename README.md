# github-graph-3d: the contribution-graph service, in Dafny

This project models `api/graph.ts` of github-graph-3d, the serverless endpoint that takes
an account handle, opens the account's GitHub profile in a headless browser and reads the
contribution calendar out of the page. The browser is not modelled as a program: what it
does when launched, asked for a page, sent to a URL and asked to evaluate the extraction
is an input (`Graph.Browser`), and the pipeline returns the list of browser calls it made
beside its outcome. Everything else is modelled as the code does it:

- `handle.dfy` (module `Handle`): JavaScript truthiness of a query value and
  `name.replace(/@/g, '')`, with lemmas saying what the stripped handle is.
- `url.dfy` (module `Url`): `URLSearchParams` as a class whose `Append` extends a list of
  pairs, the parameter list built by successive appends (always `tab=overview`, then `from`
  and `to` only when both are truthy), its serialisation, the profile URL, and a reader for
  URLs and query strings that undoes them.
- `calendar.dfy` (module `Calendar`): the extraction run inside the page, as two nested
  loops over the calendar's groups and cells that copy each cell's data attributes and keep
  a running `highest` and `lowest`. It is proved against the folds max(0, counts) and
  min(0, counts).
- `graph.dfy` (module `Graph`): the `Options` object whose `name` is rewritten in place, the
  pipeline `getGithubGraphWeeks`, and the request handler that sends the result or answers
  400 with `{error: true}`.
- `wrappers.dfy` (module `Wrappers`): `Option` (for `undefined`) and `Result` (for thrown errors).

A page's calendar is a `seq<seq<Cell>>`: one inner sequence per `g` group, in document
order, and one `Cell` per `rect`, holding its `dataset` as a map and `+dataset.count` as
an `Option<int>` (None for NaN, which fails every comparison and so never moves
`highest` or `lowest`).

Behaviours of the code that are easy to assume otherwise:

- The name is checked before stripping, on the raw value. A name made only of `@` passes the check
  and gives an empty handle (`Handle.SigilOnlyNamePasses`). There is no "empty after
  normalisation" error.
- Every `@` is removed, not only a leading one.
- A day record is a copy of the cell's data attributes, as strings. The code has no
  `{date, level, count}` parse step and raises no parse error. A non-numeric count is silently
  ignored by the running extremes.
- The browser is closed only on the success path: no `finally` protects `browser.close`, so a
  failing `newPage`, `goto` or `evaluate` leaves it open (`Graph.Handler`: `Close` is among the
  calls exactly when the request succeeds).
- Nothing checks that a week has seven days.

## Model

| member | source | states |
|---|---|---|
| `Handle.Truthy` | api/graph.ts:11-13 | definition of JavaScript truthiness for `string \| undefined`; the contracts of `Url.QueryFor`, `Graph.GetGithubGraphWeeks` and `Graph.Handler` are stated with it |
| `Handle.StripAt` | api/graph.ts:16 | the stripped handle holds no `@` and is no longer than the name |
| `Handle.StripAtConcat` | api/graph.ts:16 | stripping distributes over concatenation, so the kept characters stay in their order |
| `Handle.StripAtMultiset` | api/graph.ts:16 | every character other than `@` is kept with its multiplicity, and every `@` is dropped |
| `Handle.StripAtFixedPoint` | api/graph.ts:16 | a handle is unchanged by stripping if and only if it contains no `@` |
| `Handle.StripAtIdempotent` | api/graph.ts:16 | stripping twice equals stripping once |
| `Handle.SigilOnlyNamePasses` | api/graph.ts:11-16 | a non-empty name made only of `@` passes the raw-name check and leaves an empty handle |
| `Url.QueryFor` | api/graph.ts:27-32 | the parameters start with `("tab","overview")`; `("from",from)` then `("to",to)` follow exactly when both are truthy, otherwise nothing follows |
| `Url.SearchParams.constructor` | api/graph.ts:27 | a new parameter list is empty |
| `Url.SearchParams.Append` | api/graph.ts:28-31 | `append` adds one pair at the end and keeps the earlier pairs |
| `Url.BuildParams` | api/graph.ts:27-32 | the successive appends produce exactly the parameter list `QueryFor` describes |
| `Url.Serialize` | api/graph.ts:34-36 | `${params}` is empty for no pairs, `name=value` for one pair, and otherwise the first pair as `name=value` followed by `&` and the rest (third case: `SerializeCons`) |
| `Url.SerializeCons` | api/graph.ts:34-36 | with more than one pair, the serialised query is the first `name=value`, then `&`, then the serialisation of the remaining pairs |
| `Url.ProfileUrl` | api/graph.ts:36 | the target is `https://github.com/`, then the handle as it is, then `?`, then the serialised parameters, each at its fixed position |
| `Url.SerializedQuery` | api/graph.ts:27-36 | the query string is `tab=overview&from=F&to=T` when both dates are truthy and `tab=overview` otherwise |
| `Url.ParseSerialize` | api/graph.ts:34-36 | reading the serialised query back gives the same pairs in the same order (for values made of characters the serialiser does not escape) |
| `Url.ParseProfileUrlRoundTrip` | api/graph.ts:34-36 | the URL `https://github.com/<handle>?<params>` determines the handle and the parameters, when the handle has no `?` |
| `Url.SplitJoin` | api/graph.ts:34-36 | splitting a joined list at its separator gives the parts back when no part holds the separator |
| `Url.JoinSplit` | api/graph.ts:34-36 | joining the pieces of any string at a separator gives the string back |
| `Calendar.Extract` | api/graph.ts:38-61 | one week per group and one day per cell, each day the cell's attributes, in document order; `highest` is max(0, counts) and `lowest` is min(0, counts) |
| `Calendar.RowMaxIsHighest` | api/graph.ts:46-49 | within one group, the fold max(0, counts) is at least 0 and every count, and is 0 or one of the counts |
| `Calendar.RowMinIsLowest` | api/graph.ts:46-52 | within one group, the fold min(0, counts) is at most 0 and every count, and is 0 or one of the counts |
| `Calendar.GridMaxIsHighest` | api/graph.ts:39-49 | max(0, counts) over the calendar is at least 0 and every numeric count, and equals 0 or some count |
| `Calendar.GridMinIsLowest` | api/graph.ts:40-52 | min(0, counts) over the calendar is at most 0 and every numeric count, and equals 0 or some count |
| `Calendar.HighestIsMax` | api/graph.ts:39-49 | any value with the properties of `highest` is max(0, counts) |
| `Calendar.LowestIsMin` | api/graph.ts:40-52 | any value with the properties of `lowest` is min(0, counts) |
| `Calendar.NonNegativeCountsKeepLowestZero` | api/graph.ts:40-52 | when no count is negative, `lowest` stays at its starting value 0 |
| `Calendar.ExtractedIsUnique` | api/graph.ts:38-61 | a calendar has exactly one extraction result: the extraction is deterministic |
| `Graph.Options.constructor` | api/graph.ts:72-76 | the options object carries the query's `name`, `from` and `to` |
| `Graph.Target` | api/graph.ts:27-36 | the URL for a stripped handle is `https://github.com/<handle>?tab=overview&from=F&to=T` when both dates are truthy and `https://github.com/<handle>?tab=overview` otherwise |
| `Graph.GetGithubGraphWeeks` | api/graph.ts:10-66 | a falsy name throws before any browser call and leaves `name` alone; otherwise `name` is stripped in place, then launch, new page, navigation to the profile URL of the stripped handle, evaluation and close happen in order, each failure stopping the pipeline with the browser left open, and success returns the extraction of the page's calendar |
| `Graph.Handler` | api/graph.ts:68-85 | the extraction result is sent unchanged with status 200 when the name is truthy and every browser step succeeds; every other request gets status 400 and exactly `{error: true}`; a falsy name makes no browser call; navigation goes to the stripped handle's URL; the browser is closed exactly on success |
| `Graph.SigilStrippedInTarget` | api/graph.ts:16-36 | `@octocat` is navigated to as `https://github.com/octocat?tab=overview` (and likewise for any `@`-free handle behind one `@`) |
| `Graph.OneWeekScenario` | api/graph.ts:38-60 | one week with counts 0,1,0,3,0,0,2 gives `highest` 3 and `lowest` 0 |

## Left out

- Browser and network I/O: the `chrome-aws-lambda` launch options (extra arguments, viewport,
  executable path, headless mode, certificate errors), `newPage`, `goto`, the boundary that
  `page.evaluate` crosses, `browser.close` and the Vercel request and response objects. They are
  foreign calls; the model keeps only their outcomes (`Graph.Browser`) and the order of the calls.
- `console.log` of the target URL (line 34): output only.
- A `browser.close` that itself fails: the model takes it to succeed.
- Percent-encoding: `URLSearchParams` writes pairs in the application/x-www-form-urlencoded
  form of section 5.2 of the WHATWG URL Standard, escaping every character outside
  ASCII letters, digits and `*-._`. `Url.Serialize` writes names and values as they are, so it
  agrees with the real serialiser only on such characters. `Url.ParseSerialize` and
  `Url.ParseProfileUrlRoundTrip` are stated for those values only.
- The reader `Url.ParseQuery` does not decode percent-escapes or `+`: it only needs to undo `Url.Serialize`.
- Numeric coercion: the JavaScript `+dataset.count` conversion is taken as already done. Counts
  are integers or None (NaN); fractional and infinite counts are not modelled. The parsed count
  of a `Calendar.Cell` is an independent input, not derived from the copied `dataset` map: the
  model admits cells whose `dataset` holds a `count` string that does not read as that number,
  and it states `highest` and `lowest` over the parsed counts, not over the strings in the day
  records it returns.
- Query values that arrive as arrays (a repeated `name` parameter): every query value is a
  string or absent.
- The order of keys inside a copied `dataset` object: a day record is a map.
- `main.ts` (rendering with three.js, forms, fetch), `helpers.ts` (floating-point
  normalisation, `Math.random`, canvas textures) and `types/helpers.d.ts` (declarations only)
  are not part of this model.
