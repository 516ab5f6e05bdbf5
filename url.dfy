/**
 * The navigation target: the query parameters built with `URLSearchParams`
 * (api/graph.ts, lines 27-32) and the profile URL they are interpolated into
 * (lines 34-36).
 */
module Url {
  import opened Wrappers
  import opened Handle

  /** One name/value pair of a query string. */
  type Entry = (string, string)

  const ProfilePrefix: string := "https://github.com/"

  /**
   * The pairs the service appends: always the overview tab, then `from` and `to`,
   * in that order, when both are truthy, and neither of them otherwise.
   */
  function QueryFor(from: Option<string>, to: Option<string>): (r: seq<Entry>)
    ensures |r| >= 1 && r[0] == ("tab", "overview")
    ensures |r| == 3 <==> Truthy(from) && Truthy(to)
    ensures |r| != 3 ==> |r| == 1
    ensures |r| == 3 ==> r[1] == ("from", from.value) && r[2] == ("to", to.value)
  {
    [("tab", "overview")] + if Truthy(from) && Truthy(to) then [("from", from.value), ("to", to.value)] else []
  }

  /** A `URLSearchParams` object: a list of pairs that `append` extends at the end. */
  class SearchParams {
    var entries: seq<Entry>

    constructor ()
      ensures entries == []
    {
      entries := [];
    }

    method Append(name: string, value: string)
      modifies this
      ensures entries == old(entries) + [(name, value)]
    {
      entries := entries + [(name, value)];
    }
  }

  /** Builds the parameters by successive `append` calls, as the service does. */
  method BuildParams(from: Option<string>, to: Option<string>) returns (params: SearchParams)
    ensures params.entries == QueryFor(from, to)
  {
    params := new SearchParams();
    params.Append("tab", "overview");
    if Truthy(from) && Truthy(to) {
      params.Append("from", from.value);
      params.Append("to", to.value);
    }
  }

  /** The parts, with `sep` between each two neighbours. */
  function Join(parts: seq<string>, sep: char): (r: string)
  {
    if parts == [] then []
    else if |parts| == 1 then parts[0]
    else parts[0] + [sep] + Join(parts[1..], sep)
  }

  /** The pieces of `s` between the occurrences of `sep`. */
  function Split(s: string, sep: char): (parts: seq<string>)
    ensures |parts| >= 1
  {
    if s == [] then [[]]
    else if s[0] == sep then [[]] + Split(s[1..], sep)
    else
      var rest := Split(s[1..], sep);
      [[s[0]] + rest[0]] + rest[1..]
  }

  /** Characters the form-urlencoded serializer writes out as they are. */
  predicate UrlSafeChar(c: char) {
    ('a' <= c <= 'z') || ('A' <= c <= 'Z') || ('0' <= c <= '9') || c in "*-._"
  }

  predicate UrlSafe(s: string) {
    forall k | 0 <= k < |s| :: UrlSafeChar(s[k])
  }

  predicate UrlSafeEntries(entries: seq<Entry>) {
    forall k | 0 <= k < |entries| :: UrlSafe(entries[k].0) && UrlSafe(entries[k].1)
  }

  function Pairs(entries: seq<Entry>): (r: seq<string>)
    ensures |r| == |entries|
  {
    if entries == [] then [] else [entries[0].0 + "=" + entries[0].1] + Pairs(entries[1..])
  }

  /** `String(params)`: the pairs as `name=value`, joined by `&` (no percent-encoding). */
  function Serialize(entries: seq<Entry>): (r: string)
    ensures entries == [] ==> r == ""
    ensures |entries| == 1 ==> r == entries[0].0 + "=" + entries[0].1
  {
    var pieces := Pairs(entries);
    assert |entries| > 0 ==> pieces[1..] == Pairs(entries[1..]);
    Join(pieces, '&')
  }

  /** After the first pair, the query continues with `&` and the rest of the pairs. */
  lemma SerializeCons(entries: seq<Entry>)
    requires |entries| > 1
    ensures Serialize(entries) == entries[0].0 + "=" + entries[0].1 + "&" + Serialize(entries[1..])
  {
    assert Pairs(entries)[1..] == Pairs(entries[1..]);
  }

  /** The URL handed to `page.goto`: the handle is interpolated raw. */
  function ProfileUrl(handle: string, entries: seq<Entry>): (r: string)
    ensures |r| == |ProfilePrefix| + |handle| + 1 + |Serialize(entries)|
    ensures r[..|ProfilePrefix|] == ProfilePrefix
    ensures r[|ProfilePrefix|..|ProfilePrefix| + |handle|] == handle
    ensures r[|ProfilePrefix| + |handle|] == '?'
    ensures r[|ProfilePrefix| + |handle| + 1..] == Serialize(entries)
  {
    ProfilePrefix + handle + "?" + Serialize(entries)
  }

  /** A name/value pair read back: the name up to the first `=`, the value after it. */
  function ParsePair(p: string): (e: Entry) {
    var kv := Split(p, '=');
    (kv[0], Join(kv[1..], '='))
  }

  /** Reads back the non-empty `&`-separated pieces of a query string. */
  function ParsePieces(pieces: seq<string>): (r: seq<Entry>) {
    if pieces == [] then []
    else if pieces[0] == [] then ParsePieces(pieces[1..])
    else [ParsePair(pieces[0])] + ParsePieces(pieces[1..])
  }

  function ParseQuery(q: string): (r: seq<Entry>) {
    ParsePieces(Split(q, '&'))
  }

  /** Reads a profile URL back into its handle and its query pairs. */
  function ParseProfileUrl(url: string): (r: Option<(string, seq<Entry>)>) {
    if |url| < |ProfilePrefix| || url[..|ProfilePrefix|] != ProfilePrefix then None
    else
      var parts := Split(url[|ProfilePrefix|..], '?');
      Some((parts[0], ParseQuery(Join(parts[1..], '?'))))
  }

  lemma {:induction false} SplitWithoutSep(a: string, sep: char)
    requires sep !in a
    ensures Split(a, sep) == [a]
  {
    if a != [] {
      SplitWithoutSep(a[1..], sep);
      assert [a[0]] + a[1..] == a;
    }
  }

  lemma {:induction false} SplitAtFirst(a: string, sep: char, b: string)
    requires sep !in a
    ensures Split(a + [sep] + b, sep) == [a] + Split(b, sep)
  {
    var s := a + [sep] + b;
    if a == [] {
      assert s[1..] == b;
    } else {
      assert s[0] == a[0];
      assert s[1..] == a[1..] + [sep] + b;
      SplitAtFirst(a[1..], sep, b);
      assert [a[0]] + a[1..] == a;
    }
  }

  /** Splitting undoes joining when no part holds the separator. */
  lemma {:induction false} SplitJoin(parts: seq<string>, sep: char)
    requires |parts| >= 1
    requires forall k | 0 <= k < |parts| :: sep !in parts[k]
    ensures Split(Join(parts, sep), sep) == parts
  {
    if |parts| == 1 {
      SplitWithoutSep(parts[0], sep);
    } else {
      SplitJoin(parts[1..], sep);
      SplitAtFirst(parts[0], sep, Join(parts[1..], sep));
      assert [parts[0]] + parts[1..] == parts;
    }
  }

  /** Joining undoes splitting, for every string. */
  lemma {:induction false} JoinSplit(s: string, sep: char)
    ensures Join(Split(s, sep), sep) == s
  {
    if s != [] {
      JoinSplit(s[1..], sep);
      var rest := Split(s[1..], sep);
      if s[0] == sep {
        assert Split(s, sep) == [[]] + rest;
        assert ([[]] + rest)[1..] == rest;
        assert Join(Split(s, sep), sep) == [] + [sep] + Join(rest, sep);
        assert [s[0]] + s[1..] == s;
      } else {
        var parts := [[s[0]] + rest[0]] + rest[1..];
        assert Split(s, sep) == parts;
        assert parts[1..] == rest[1..];
        if |rest| == 1 {
          assert Join(parts, sep) == [s[0]] + rest[0];
        } else {
          assert Join(rest, sep) == rest[0] + [sep] + Join(rest[1..], sep);
          assert Join(parts, sep) == [s[0]] + rest[0] + [sep] + Join(rest[1..], sep);
        }
        assert [s[0]] + s[1..] == s;
      }
    }
  }

  lemma UrlSafeLacks(s: string, c: char)
    requires UrlSafe(s)
    requires !UrlSafeChar(c)
    ensures c !in s
  {
  }

  lemma ParsePairOfPair(name: string, value: string)
    requires UrlSafe(name) && UrlSafe(value)
    ensures ParsePair(name + "=" + value) == (name, value)
  {
    UrlSafeLacks(name, '=');
    UrlSafeLacks(value, '=');
    SplitAtFirst(name, '=', value);
    assert name + "=" + value == name + ['='] + value;
    SplitWithoutSep(value, '=');
  }

  lemma {:induction false} ParsePiecesOfPairs(entries: seq<Entry>)
    requires UrlSafeEntries(entries)
    ensures ParsePieces(Pairs(entries)) == entries
  {
    if entries != [] {
      var e := entries[0];
      assert UrlSafe(e.0) && UrlSafe(e.1);
      ParsePairOfPair(e.0, e.1);
      assert UrlSafeEntries(entries[1..]) by {
        forall k | 0 <= k < |entries[1..]|
          ensures UrlSafe(entries[1..][k].0) && UrlSafe(entries[1..][k].1)
        {
          assert entries[1..][k] == entries[k + 1];
        }
      }
      ParsePiecesOfPairs(entries[1..]);
      var pieces := Pairs(entries);
      assert pieces[0] == e.0 + "=" + e.1;
      assert pieces[0] != [];
      assert pieces[1..] == Pairs(entries[1..]);
      assert [e] + entries[1..] == entries;
    }
  }

  lemma {:induction false} PairsLackAmpersand(entries: seq<Entry>)
    requires UrlSafeEntries(entries)
    ensures forall k | 0 <= k < |Pairs(entries)| :: '&' !in Pairs(entries)[k]
  {
    if entries != [] {
      assert UrlSafeEntries(entries[1..]) by {
        forall k | 0 <= k < |entries[1..]|
          ensures UrlSafe(entries[1..][k].0) && UrlSafe(entries[1..][k].1)
        {
          assert entries[1..][k] == entries[k + 1];
        }
      }
      PairsLackAmpersand(entries[1..]);
      assert UrlSafe(entries[0].0) && UrlSafe(entries[0].1);
      UrlSafeLacks(entries[0].0, '&');
      UrlSafeLacks(entries[0].1, '&');
    }
  }

  /** Reading the serialized pairs back gives them again, in order. */
  lemma ParseSerialize(entries: seq<Entry>)
    requires UrlSafeEntries(entries)
    ensures ParseQuery(Serialize(entries)) == entries
  {
    if entries == [] {
      assert Split([], '&') == [[]];
    } else {
      PairsLackAmpersand(entries);
      SplitJoin(Pairs(entries), '&');
      ParsePiecesOfPairs(entries);
    }
  }

  /**
   * The profile URL determines its handle and its query pairs, as long as the
   * handle holds no `?` (it is interpolated without escaping).
   */
  lemma ParseProfileUrlRoundTrip(handle: string, entries: seq<Entry>)
    requires '?' !in handle
    requires UrlSafeEntries(entries)
    ensures ParseProfileUrl(ProfileUrl(handle, entries)) == Some((handle, entries))
  {
    var q := Serialize(entries);
    var url := ProfileUrl(handle, entries);
    assert url[..|ProfilePrefix|] == ProfilePrefix;
    assert url[|ProfilePrefix|..] == handle + ['?'] + q;
    SplitAtFirst(handle, '?', q);
    var parts := Split(url[|ProfilePrefix|..], '?');
    assert parts[1..] == Split(q, '?');
    JoinSplit(q, '?');
    ParseSerialize(entries);
  }

  /** The query is `tab=overview`, followed by `&from=…&to=…` exactly when both are truthy. */
  lemma SerializedQuery(from: Option<string>, to: Option<string>)
    ensures Truthy(from) && Truthy(to) ==>
      Serialize(QueryFor(from, to)) == "tab=overview&from=" + from.value + "&to=" + to.value
    ensures !(Truthy(from) && Truthy(to)) ==> Serialize(QueryFor(from, to)) == "tab=overview"
  {
    var entries := QueryFor(from, to);
    assert Pairs(entries)[0] == "tab" + "=" + "overview" == "tab=overview";
    if Truthy(from) && Truthy(to) {
      var rest := entries[1..];
      assert rest == [("from", from.value), ("to", to.value)];
      assert rest[1..] == [("to", to.value)];
      assert Pairs(rest[1..][1..]) == [];
      assert Pairs(rest[1..]) == ["to" + "=" + to.value];
      assert Pairs(rest) == ["from" + "=" + from.value, "to" + "=" + to.value];
      assert Pairs(entries) == ["tab=overview"] + Pairs(rest);
      assert Join(Pairs(rest)[1..], '&') == "to=" + to.value;
      assert Join(Pairs(rest), '&') == "from=" + from.value + "&to=" + to.value;
    } else {
      assert entries[1..] == [];
      assert Pairs(entries) == ["tab=overview"];
    }
  }
}
