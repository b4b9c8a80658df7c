/**
 * The lazy SVG cache behind `getIcon` in the v2 and v3 icon systems: a hit
 * is answered from the `icons` map without a request; a miss issues one
 * request for `<base URL><name>.svg`, and only an ok response is stored.
 */
module IconCache {
  import opened Wrappers

  /** What `fetch` of one SVG file gives: an ok response with its text, a non-ok status, or a thrown error. */
  datatype FetchOutcome = Ok(body: string) | NotOk(status: int) | NetworkError


  /** The repository the v2 and v3 systems fetch SVG files from: `<RepoUrl><name>.svg`. */
  const RepoUrl := "https://raw.githubusercontent.com/gravity-ui/icons/main/svgs/"

  function SvgUrl(baseUrl: string, name: string): string {
    baseUrl + name + ".svg"
  }

  /** One `getIcon(name)` call: what it returns, the request it issues (if any) and the cache afterwards. */
  datatype CacheStep = CacheStep(svg: Option<string>, request: Option<string>, icons: map<string, string>)

  /**
   * `getIcon(name)` against the cache `icons`; `response` is what the network
   * answers if a request is issued.
   */
  function LookupOrFetch(icons: map<string, string>, baseUrl: string, name: string, response: FetchOutcome): (r: CacheStep)
    ensures r.request.Some? <==> name !in icons
    ensures r.request.Some? ==> r.request.value == SvgUrl(baseUrl, name)
    ensures r.icons.Keys == icons.Keys + (if name !in icons && response.Ok? then {name} else {})
    ensures forall k :: k in icons ==> r.icons[k] == icons[k]
    ensures name in r.icons && name !in icons ==> r.icons[name] == response.body
    ensures r.svg == if name in r.icons then Some(r.icons[name]) else None
  {
    if name in icons then CacheStep(Some(icons[name]), None, icons)
    else
      match response
      case Ok(body) => CacheStep(Some(body), Some(SvgUrl(baseUrl, name)), icons[name := body])
      case _ => CacheStep(None, Some(SvgUrl(baseUrl, name)), icons)
  }

  /** A call after a successful one for the same name issues no request and returns the same text. */
  lemma SecondCallHitsCache(icons: map<string, string>, baseUrl: string, name: string, first: FetchOutcome, second: FetchOutcome)
    requires LookupOrFetch(icons, baseUrl, name, first).svg.Some?
    ensures var s1 := LookupOrFetch(icons, baseUrl, name, first);
            var s2 := LookupOrFetch(s1.icons, baseUrl, name, second);
            s2.request.None? && s2.svg == s1.svg && s2.icons == s1.icons
  {
  }

  /** A failed call leaves no entry, so the next call for that name requests it again. */
  lemma FailureIsRetried(icons: map<string, string>, baseUrl: string, name: string, first: FetchOutcome, second: FetchOutcome)
    requires LookupOrFetch(icons, baseUrl, name, first).svg.None?
    ensures var s1 := LookupOrFetch(icons, baseUrl, name, first);
            s1.icons == icons && LookupOrFetch(s1.icons, baseUrl, name, second).request == Some(SvgUrl(baseUrl, name))
  {
  }

  /** The requests issued by a session of `getIcon` calls, each with its outcome, and the final cache. */
  datatype Session = Session(fetches: seq<(string, FetchOutcome)>, icons: map<string, string>)

  /** A session of sequential `getIcon` calls, each given as a name and what the network would answer. */
  function Run(icons: map<string, string>, baseUrl: string, calls: seq<(string, FetchOutcome)>): Session
    decreases |calls|
  {
    if calls == [] then Session([], icons)
    else
      var step := LookupOrFetch(icons, baseUrl, calls[0].0, calls[0].1);
      var rest := Run(step.icons, baseUrl, calls[1..]);
      Session((if step.request.Some? then [calls[0]] else []) + rest.fetches, rest.icons)
  }

  /** What one more call at the end of a session adds: its request, if it makes one, and its effect on the cache. */
  lemma {:induction false} RunSnoc(icons: map<string, string>, baseUrl: string, calls: seq<(string, FetchOutcome)>, c: (string, FetchOutcome))
    ensures var before := Run(icons, baseUrl, calls);
            var step := LookupOrFetch(before.icons, baseUrl, c.0, c.1);
            Run(icons, baseUrl, calls + [c]) == Session(before.fetches + (if step.request.Some? then [c] else []), step.icons)
    decreases |calls|
  {
    if calls == [] {
      assert calls + [c] == [c];
      assert [c][1..] == [];
    } else {
      var step := LookupOrFetch(icons, baseUrl, calls[0].0, calls[0].1);
      assert (calls + [c])[0] == calls[0] && (calls + [c])[1..] == calls[1..] + [c];
      RunSnoc(step.icons, baseUrl, calls[1..], c);
    }
  }

  /** How many of the fetches were ok downloads of `name`. */
  function OkDownloads(fetches: seq<(string, FetchOutcome)>, name: string): nat {
    if fetches == [] then 0
    else (if fetches[0].0 == name && fetches[0].1.Ok? then 1 else 0) + OkDownloads(fetches[1..], name)
  }

  /**
   * Over any session, each name is downloaded successfully at most once, and
   * never when it was cached to begin with.
   */
  lemma {:induction false} AtMostOneDownloadPerName(icons: map<string, string>, baseUrl: string, calls: seq<(string, FetchOutcome)>, name: string)
    ensures OkDownloads(Run(icons, baseUrl, calls).fetches, name) <= if name in icons then 0 else 1
    decreases |calls|
  {
    if calls != [] {
      var step := LookupOrFetch(icons, baseUrl, calls[0].0, calls[0].1);
      AtMostOneDownloadPerName(step.icons, baseUrl, calls[1..], name);
      var head: seq<(string, FetchOutcome)> := if step.request.Some? then [calls[0]] else [];
      OkDownloadsAppend(head, Run(step.icons, baseUrl, calls[1..]).fetches, name);
    }
  }

  lemma {:induction false} OkDownloadsAppend(a: seq<(string, FetchOutcome)>, b: seq<(string, FetchOutcome)>, name: string)
    ensures OkDownloads(a + b, name) == OkDownloads(a, name) + OkDownloads(b, name)
    decreases |a|
  {
    if a == [] {
      assert a + b == b;
    } else {
      assert (a + b)[0] == a[0] && (a + b)[1..] == a[1..] + b;
      OkDownloadsAppend(a[1..], b, name);
    }
  }

  /**
   * Failures are never cached: every entry at the end of a session was cached
   * at the start or came from an ok response to one of its calls.
   */
  lemma {:induction false} CacheHoldsOnlySuccesses(icons: map<string, string>, baseUrl: string, calls: seq<(string, FetchOutcome)>, name: string)
    requires name in Run(icons, baseUrl, calls).icons
    ensures name in icons || exists i :: 0 <= i < |calls| && calls[i].0 == name && calls[i].1.Ok?
    decreases |calls|
  {
    if calls != [] {
      var step := LookupOrFetch(icons, baseUrl, calls[0].0, calls[0].1);
      CacheHoldsOnlySuccesses(step.icons, baseUrl, calls[1..], name);
      if name !in icons && name !in step.icons {
        var i :| 0 <= i < |calls[1..]| && calls[1..][i].0 == name && calls[1..][i].1.Ok?;
        assert calls[i + 1] == calls[1..][i];
      }
    }
  }
}
