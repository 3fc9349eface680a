/** `crawl_site`, which behaves identically in both scripts apart from its default depth:
    a bounded breadth-first crawl that resolves every link against the seed
    URL and keeps only the links that start with the seed. The network is
    the `Getter` oracle and `urljoin` the uninterpreted `Joiner`. */
module Crawler {
  import opened Wrappers
  import opened Catalog

  type Url = string

  /** `urljoin(base, href)`. */
  type Joiner = (Url, string) -> Url

  function Elems(s: seq<Url>): set<Url>
  {
    set x | x in s
  }

  lemma ElemsAppend(a: seq<Url>, b: seq<Url>)
    ensures Elems(a + b) == Elems(a) + Elems(b)
  {
  }

  /** The links one page contributes: each href joined to the seed, kept when
      the seed is a prefix of the joined string, in document order and with
      repetitions. */
  function KeptLinks(seed: Url, hrefs: seq<string>, join: Joiner): (kept: seq<Url>)
    ensures |kept| <= |hrefs|
    decreases |hrefs|
  {
    if hrefs == [] then []
    else
      var u := join(seed, hrefs[|hrefs| - 1]);
      KeptLinks(seed, hrefs[..|hrefs| - 1], join) + (if seed <= u then [u] else [])
  }

  /** A link is kept exactly when it is the seed joined with one of the page's
      hrefs and the seed is a prefix of it. */
  lemma {:induction false} KeptLinksExactly(seed: Url, hrefs: seq<string>, join: Joiner, u: Url)
    ensures u in KeptLinks(seed, hrefs, join) <==>
      seed <= u && exists h :: h in hrefs && join(seed, h) == u
    decreases |hrefs|
  {
    if hrefs != [] {
      var init := hrefs[..|hrefs| - 1];
      var last := hrefs[|hrefs| - 1];
      KeptLinksExactly(seed, init, join, u);
      assert hrefs == init + [last];
      if seed <= u && exists h :: h in hrefs && join(seed, h) == u {
        var h :| h in hrefs && join(seed, h) == u;
        if h != last {
          assert h in init;
        }
      }
    }
  }

  /** The crawl's state: `visited`, `found_urls`, the list being built for the
      next round (`new_links`, which becomes `to_visit`) and, as the trace of
      the network side effect, every URL passed to `requests.get`. */
  datatype CrawlState = CrawlState(visited: set<Url>, found: set<Url>, frontier: seq<Url>, requests: seq<Url>)

  /** One iteration of the inner `for link in to_visit` loop. A visited link
      is skipped without a request; a request that raises leaves the link
      unvisited; a successful one marks it visited and adds its kept links. */
  function Visit(st: CrawlState, link: Url, seed: Url, get: Getter, join: Joiner): CrawlState
  {
    if link in st.visited then st
    else match get(link)
      case None => st.(requests := st.requests + [link])
      case Some(resp) =>
        var kept := KeptLinks(seed, resp.hrefs, join);
        CrawlState(st.visited + {link}, st.found + Elems(kept), st.frontier + kept, st.requests + [link])
  }

  /** The inner loop over a whole list of links. */
  function Pass(st: CrawlState, links: seq<Url>, seed: Url, get: Getter, join: Joiner): CrawlState
    decreases |links|
  {
    if links == [] then st
    else Visit(Pass(st, links[..|links| - 1], seed, get, join), links[|links| - 1], seed, get, join)
  }

  /** The state after `rounds` iterations of the outer loop; before the first,
      `to_visit` is `[seed]` and nothing is visited or found. */
  function Crawl(seed: Url, rounds: nat, get: Getter, join: Joiner): CrawlState
    decreases rounds
  {
    if rounds == 0 then CrawlState({}, {}, [seed], [])
    else
      var prev := Crawl(seed, rounds - 1, get, join);
      Pass(prev.(frontier := []), prev.frontier, seed, get, join)
  }

  /** `range(max_depth)` runs no round for a negative depth. */
  function Rounds(maxDepth: int): nat
  {
    if maxDepth < 0 then 0 else maxDepth
  }

  /** The in-scope links of the seed page, or nothing when its request
      raised. */
  function FirstHop(seed: Url, get: Getter, join: Joiner): set<Url>
  {
    match get(seed)
    case None => {}
    case Some(resp) => Elems(KeptLinks(seed, resp.hrefs, join))
  }

  /** One round requests the seed alone and finds exactly its first hop. */
  lemma CrawlOneRound(seed: Url, get: Getter, join: Joiner)
    ensures Crawl(seed, 1, get, join).requests == [seed]
    ensures Crawl(seed, 1, get, join).found == FirstHop(seed, get, join)
  {
    var start := CrawlState({}, {}, [], []);
    assert [seed][..0] == [];
    assert Crawl(seed, 1, get, join) == Visit(Pass(start, [], seed, get, join), seed, seed, get, join);
  }

  /** One more href extends the kept links by that href's link, if kept. */
  lemma KeptLinksStep(seed: Url, hrefs: seq<string>, k: nat, join: Joiner)
    requires k < |hrefs|
    ensures KeptLinks(seed, hrefs[..k + 1], join) ==
      KeptLinks(seed, hrefs[..k], join) + (if seed <= join(seed, hrefs[k]) then [join(seed, hrefs[k])] else [])
  {
    assert hrefs[..k + 1][..k] == hrefs[..k];
  }

  /** One more link extends a pass by one visit. */
  lemma PassStep(st: CrawlState, links: seq<Url>, i: nat, seed: Url, get: Getter, join: Joiner)
    requires i < |links|
    ensures Pass(st, links[..i + 1], seed, get, join) == Visit(Pass(st, links[..i], seed, get, join), links[i], seed, get, join)
  {
    assert links[..i + 1][..i] == links[..i];
  }

  /** The loop of `crawl_site` over the `<a href>` tags of one fetched page:
      each href joined to the seed is added to `found_urls` and appended to
      `new_links` when the seed is a prefix of it. */
  method AddPageLinks(url: Url, hrefs: seq<string>, join: Joiner, found0: set<Url>, links0: seq<Url>)
    returns (foundUrls: set<Url>, newLinks: seq<Url>)
    ensures foundUrls == found0 + Elems(KeptLinks(url, hrefs, join))
    ensures newLinks == links0 + KeptLinks(url, hrefs, join)
  {
    foundUrls, newLinks := found0, links0;
    for k := 0 to |hrefs|
      invariant foundUrls == found0 + Elems(KeptLinks(url, hrefs[..k], join))
      invariant newLinks == links0 + KeptLinks(url, hrefs[..k], join)
    {
      KeptLinksStep(url, hrefs, k, join);
      var absoluteUrl := join(url, hrefs[k]);
      if url <= absoluteUrl {
        foundUrls := foundUrls + {absoluteUrl};
        newLinks := newLinks + [absoluteUrl];
      }
    }
    assert hrefs[..|hrefs|] == hrefs;
  }

  /** `crawl_site(url, max_depth)`. Besides the found URLs it returns the
      sequence of URLs it requested. */
  method CrawlSite(url: Url, maxDepth: int, get: Getter, join: Joiner)
    returns (foundUrls: set<Url>, requests: seq<Url>)
    ensures foundUrls == Crawl(url, Rounds(maxDepth), get, join).found
    ensures requests == Crawl(url, Rounds(maxDepth), get, join).requests
    ensures maxDepth <= 0 ==> foundUrls == {} && requests == []
    ensures maxDepth == 1 ==> requests == [url] && foundUrls == FirstHop(url, get, join)
  {
    var visited: set<Url> := {};
    var toVisit: seq<Url> := [url];
    foundUrls, requests := {}, [];
    for round := 0 to Rounds(maxDepth)
      invariant Crawl(url, round, get, join) == CrawlState(visited, foundUrls, toVisit, requests)
    {
      var newLinks: seq<Url> := [];
      ghost var start := CrawlState(visited, foundUrls, [], requests);
      for i := 0 to |toVisit|
        invariant Pass(start, toVisit[..i], url, get, join) == CrawlState(visited, foundUrls, newLinks, requests)
      {
        var link := toVisit[i];
        PassStep(start, toVisit, i, url, get, join);
        if link in visited {
          continue;
        }
        var response := get(link);
        requests := requests + [link];
        if response.None? {
          continue;
        }
        visited := visited + {link};
        foundUrls, newLinks := AddPageLinks(url, response.value.hrefs, join, foundUrls, newLinks);
      }
      assert toVisit[..|toVisit|] == toVisit;
      toVisit := newLinks;
    }
    if maxDepth == 1 {
      CrawlOneRound(url, get, join);
    }
  }

  /** `page` was fetched successfully and one of its hrefs, joined to the
      seed, is `u`. */
  ghost predicate LinksTo(seed: Url, page: Url, u: Url, get: Getter, join: Joiner)
  {
    get(page).Some? && exists h :: h in get(page).value.hrefs && join(seed, h) == u
  }

  /** What every reachable crawl state satisfies. */
  ghost predicate Consistent(st: CrawlState, seed: Url, get: Getter, join: Joiner)
  {
    && (forall p :: p in st.visited <==> p in st.requests && get(p).Some?)
    && (forall i, j :: 0 <= i < j < |st.requests| && st.requests[i] == st.requests[j] ==>
          get(st.requests[i]).None?)
    && (forall u :: u in st.found ==>
          seed <= u && exists p :: p in st.visited && LinksTo(seed, p, u, get, join))
    && (forall u :: u in st.frontier ==> u == seed || u in st.found)
    && (forall u :: u in st.requests ==> u == seed || u in st.found)
  }

  lemma VisitConsistent(st: CrawlState, link: Url, seed: Url, get: Getter, join: Joiner)
    requires Consistent(st, seed, get, join)
    requires link == seed || link in st.found
    ensures Consistent(Visit(st, link, seed, get, join), seed, get, join)
    ensures st.found <= Visit(st, link, seed, get, join).found
  {
    if link !in st.visited && get(link).Some? {
      var resp := get(link).value;
      var kept := KeptLinks(seed, resp.hrefs, join);
      var st' := Visit(st, link, seed, get, join);
      forall u | u in Elems(kept)
        ensures seed <= u && exists p :: p in st'.visited && LinksTo(seed, p, u, get, join)
      {
        KeptLinksExactly(seed, resp.hrefs, join, u);
        assert link in st'.visited && LinksTo(seed, link, u, get, join);
      }
      assert link !in st.requests;
    }
  }

  lemma {:induction false} PassConsistent(st: CrawlState, links: seq<Url>, seed: Url, get: Getter, join: Joiner)
    requires Consistent(st, seed, get, join)
    requires forall u :: u in links ==> u == seed || u in st.found
    ensures Consistent(Pass(st, links, seed, get, join), seed, get, join)
    ensures st.found <= Pass(st, links, seed, get, join).found
    decreases |links|
  {
    if links != [] {
      var init := links[..|links| - 1];
      assert forall u :: u in init ==> u in links;
      PassConsistent(st, init, seed, get, join);
      VisitConsistent(Pass(st, init, seed, get, join), links[|links| - 1], seed, get, join);
    }
  }

  lemma {:induction false} CrawlConsistent(seed: Url, rounds: nat, get: Getter, join: Joiner)
    ensures Consistent(Crawl(seed, rounds, get, join), seed, get, join)
    decreases rounds
  {
    if rounds > 0 {
      var prev := Crawl(seed, rounds - 1, get, join);
      CrawlConsistent(seed, rounds - 1, get, join);
      PassConsistent(prev.(frontier := []), prev.frontier, seed, get, join);
    }
  }

  /** Every URL the crawl finds starts with the seed and is the seed joined
      with an href of a page whose request succeeded: hrefs are resolved
      against the seed, not against the page they were found on. */
  lemma CrawlFoundSound(seed: Url, rounds: nat, get: Getter, join: Joiner, u: Url)
    requires u in Crawl(seed, rounds, get, join).found
    ensures seed <= u
    ensures exists page :: page in Crawl(seed, rounds, get, join).visited && LinksTo(seed, page, u, get, join)
  {
    CrawlConsistent(seed, rounds, get, join);
  }

  /** `visited` holds exactly the requested links whose request succeeded; a
      link whose request raised is not marked. */
  lemma CrawlVisitedIffSucceeded(seed: Url, rounds: nat, get: Getter, join: Joiner, p: Url)
    ensures p in Crawl(seed, rounds, get, join).visited <==>
      p in Crawl(seed, rounds, get, join).requests && get(p).Some?
  {
    CrawlConsistent(seed, rounds, get, join);
  }

  /** A link in `visited` is never requested again: a URL requested twice is
      one whose earlier request raised. */
  lemma CrawlNoRepeatedSuccess(seed: Url, rounds: nat, get: Getter, join: Joiner, i: nat, j: nat)
    requires i < j < |Crawl(seed, rounds, get, join).requests|
    requires Crawl(seed, rounds, get, join).requests[i] == Crawl(seed, rounds, get, join).requests[j]
    ensures get(Crawl(seed, rounds, get, join).requests[i]).None?
  {
    CrawlConsistent(seed, rounds, get, join);
  }

  /** The crawl only requests the seed and URLs inside the seed's scope. */
  lemma CrawlRequestsInScope(seed: Url, rounds: nat, get: Getter, join: Joiner, u: Url)
    requires u in Crawl(seed, rounds, get, join).requests
    ensures seed <= u
  {
    CrawlConsistent(seed, rounds, get, join);
  }

  /** The converse of soundness: every in-scope link of a visited page has
      been found. */
  ghost predicate Complete(st: CrawlState, seed: Url, get: Getter, join: Joiner)
  {
    forall p, h :: p in st.visited && get(p).Some? && h in get(p).value.hrefs && seed <= join(seed, h) ==>
      join(seed, h) in st.found
  }

  lemma VisitComplete(st: CrawlState, link: Url, seed: Url, get: Getter, join: Joiner)
    requires Complete(st, seed, get, join)
    ensures Complete(Visit(st, link, seed, get, join), seed, get, join)
  {
    if link !in st.visited && get(link).Some? {
      var st' := Visit(st, link, seed, get, join);
      forall p, h | p in st'.visited && get(p).Some? && h in get(p).value.hrefs && seed <= join(seed, h)
        ensures join(seed, h) in st'.found
      {
        if p == link {
          KeptLinksExactly(seed, get(link).value.hrefs, join, join(seed, h));
        }
      }
    }
  }

  lemma {:induction false} PassComplete(st: CrawlState, links: seq<Url>, seed: Url, get: Getter, join: Joiner)
    requires Complete(st, seed, get, join)
    ensures Complete(Pass(st, links, seed, get, join), seed, get, join)
    decreases |links|
  {
    if links != [] {
      var init := links[..|links| - 1];
      PassComplete(st, init, seed, get, join);
      VisitComplete(Pass(st, init, seed, get, join), links[|links| - 1], seed, get, join);
    }
  }

  lemma {:induction false} CrawlComplete(seed: Url, rounds: nat, get: Getter, join: Joiner)
    ensures Complete(Crawl(seed, rounds, get, join), seed, get, join)
    decreases rounds
  {
    if rounds > 0 {
      var prev := Crawl(seed, rounds - 1, get, join);
      CrawlComplete(seed, rounds - 1, get, join);
      PassComplete(prev.(frontier := []), prev.frontier, seed, get, join);
    }
  }

  /** `found_urls` is exactly the set of in-scope links of the visited pages:
      a URL is found if and only if it starts with the seed and is the seed
      joined with an href of a page the crawl fetched successfully. */
  lemma CrawlFoundExactly(seed: Url, rounds: nat, get: Getter, join: Joiner, u: Url)
    ensures u in Crawl(seed, rounds, get, join).found <==>
      seed <= u && exists page :: page in Crawl(seed, rounds, get, join).visited && LinksTo(seed, page, u, get, join)
  {
    var st := Crawl(seed, rounds, get, join);
    CrawlConsistent(seed, rounds, get, join);
    CrawlComplete(seed, rounds, get, join);
    if seed <= u && exists page :: page in st.visited && LinksTo(seed, page, u, get, join) {
      var page :| page in st.visited && LinksTo(seed, page, u, get, join);
      var h :| h in get(page).value.hrefs && join(seed, h) == u;
      assert join(seed, h) in st.found;
    }
  }

  lemma {:induction false} PassGrowth(st: CrawlState, links: seq<Url>, seed: Url, get: Getter, join: Joiner, base: set<Url>)
    requires st.found == base + Elems(st.frontier)
    ensures var st' := Pass(st, links, seed, get, join);
      && st'.found == base + Elems(st'.frontier)
      && st.visited <= st'.visited
      && st.requests <= st'.requests
    decreases |links|
  {
    if links != [] {
      var init := links[..|links| - 1];
      PassGrowth(st, init, seed, get, join, base);
      var mid := Pass(st, init, seed, get, join);
      var link := links[|links| - 1];
      if link !in mid.visited && get(link).Some? {
        ElemsAppend(mid.frontier, KeptLinks(seed, get(link).value.hrefs, join));
      }
    }
  }

  /** Each round adds to `found_urls` exactly the links it puts into the next
      `to_visit`; `found_urls` and `visited` only grow and the request trace
      only gets longer. */
  lemma CrawlGrowth(seed: Url, rounds: nat, get: Getter, join: Joiner)
    ensures var before := Crawl(seed, rounds, get, join);
      var after := Crawl(seed, rounds + 1, get, join);
      && after.found == before.found + Elems(after.frontier)
      && before.visited <= after.visited
      && before.requests <= after.requests
  {
    var prev := Crawl(seed, rounds, get, join);
    PassGrowth(prev.(frontier := []), prev.frontier, seed, get, join, prev.found);
  }

  lemma {:induction false} CrawlMonotone(seed: Url, n: nat, m: nat, get: Getter, join: Joiner)
    requires n <= m
    ensures Crawl(seed, n, get, join).found <= Crawl(seed, m, get, join).found
    ensures Crawl(seed, n, get, join).visited <= Crawl(seed, m, get, join).visited
    ensures Crawl(seed, n, get, join).requests <= Crawl(seed, m, get, join).requests
    decreases m - n
  {
    if n < m {
      CrawlGrowth(seed, n, get, join);
      CrawlMonotone(seed, n + 1, m, get, join);
    }
  }
}
