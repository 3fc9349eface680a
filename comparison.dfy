/** `compare_urls` and `extract_directories`: the found URLs split against
    the catalog entries resolved on the seed, and the parent directory of
    every URL of a part. `urlparse` is the uninterpreted `Parser`. */
module Comparison {
  import opened Text
  import opened Crawler

  /** Found URLs (or their directories) in two groups: those matching a
      catalog entry and the rest. */
  datatype Grouping = Grouping(defaults: set<Url>, others: set<Url>)

  /** `{urljoin(base_url, df) for df in default_files}`. */
  function DefaultUrls(defaultFiles: seq<string>, base: Url, join: Joiner): set<Url>
  {
    set df | df in defaultFiles :: join(base, df)
  }

  /** `compare_urls` of both scripts, without the directory step (the whole
      of it in web_spidering.py): intersection with and difference from the
      resolved catalog. The two parts are disjoint and together are the
      found set; a URL is a default one exactly when it is found and some
      catalog entry resolves to it. With an empty catalog nothing is a
      default. */
  function CompareUrls(found: set<Url>, defaultFiles: seq<string>, base: Url, join: Joiner): (p: Grouping)
    ensures p.defaults * p.others == {}
    ensures p.defaults + p.others == found
    ensures forall u :: u in p.defaults <==>
      u in found && exists df :: df in defaultFiles && join(base, df) == u
    ensures defaultFiles == [] ==> p.defaults == {} && p.others == found
  {
    var expected := DefaultUrls(defaultFiles, base, join);
    Grouping(found * expected, found - expected)
  }

  /** What `urlparse` yields and `extract_directories` uses. */
  datatype UrlParts = UrlParts(scheme: string, netloc: string, path: string)

  type Parser = Url -> UrlParts

  /** The directory of one URL, as the loop body of `extract_directories`
      builds it: the path without surrounding slashes, split on '/', all
      parts but the last joined again behind `scheme://netloc/`. */
  function Directory(p: UrlParts): string
  {
    var parts := Split(StripSlashes(p.path));
    p.scheme + "://" + p.netloc + "/" + JoinSlash(parts[..|parts| - 1])
  }

  /** The directory of a URL is `scheme://netloc/` followed by the text of
      its slash-stripped path up to its last slash. */
  lemma DirectoryIsParent(p: UrlParts)
    ensures Directory(p) == p.scheme + "://" + p.netloc + "/" + BeforeLastSlash(StripSlashes(p.path))
  {
    JoinAllButLast(StripSlashes(p.path));
  }

  /** A URL whose stripped path has at most one segment (the root URL
      included) still contributes a directory: `scheme://netloc/`. */
  lemma ShallowUrlMapsToRoot(p: UrlParts)
    requires '/' !in StripSlashes(p.path)
    ensures Directory(p) == p.scheme + "://" + p.netloc + "/"
  {
    DirectoryIsParent(p);
  }

  /** The set `extract_directories` returns: one directory per URL. */
  function DirectoriesOf(urls: set<Url>, parse: Parser): set<string>
  {
    set u | u in urls :: Directory(parse(u))
  }

  /** The directories of a union are the union of the directories. */
  lemma DirectoriesOfUnion(a: set<Url>, b: set<Url>, parse: Parser)
    ensures DirectoriesOf(a + b, parse) == DirectoriesOf(a, parse) + DirectoriesOf(b, parse)
  {
  }

  /** One more URL adds its directory. */
  lemma DirectoriesOfAdd(urls: set<Url>, u: Url, parse: Parser)
    ensures DirectoriesOf(urls + {u}, parse) == DirectoriesOf(urls, parse) + {Directory(parse(u))}
  {
  }

  /** There are never more directories than URLs. */
  lemma {:induction false} DirectoriesBound(urls: set<Url>, parse: Parser)
    ensures |DirectoriesOf(urls, parse)| <= |urls|
    decreases |urls|
  {
    if urls != {} {
      var u :| u in urls;
      var rest := urls - {u};
      DirectoriesBound(rest, parse);
      assert DirectoriesOf(urls, parse) == DirectoriesOf(rest, parse) + {Directory(parse(u))};
    }
  }

  /** `extract_directories`: the guard on `path_parts` never fails, since a
      split is never empty, so every URL adds its directory. */
  method ExtractDirectories(urls: set<Url>, parse: Parser) returns (directories: set<string>)
    ensures directories == DirectoriesOf(urls, parse)
    ensures forall u :: u in urls ==> Directory(parse(u)) in directories
    ensures forall d :: d in directories ==> exists u :: u in urls && Directory(parse(u)) == d
    ensures |directories| <= |urls|
  {
    directories := {};
    var rest := urls;
    while rest != {}
      invariant rest <= urls
      invariant directories == DirectoriesOf(urls - rest, parse)
      decreases |rest|
    {
      var url :| url in rest;
      assert urls - (rest - {url}) == (urls - rest) + {url};
      DirectoriesOfAdd(urls - rest, url, parse);
      var parsed := parse(url);
      var pathParts := Split(StripSlashes(parsed.path));
      if |pathParts| > 0 {
        directories := directories + {parsed.scheme + "://" + parsed.netloc + "/" + JoinSlash(pathParts[..|pathParts| - 1])};
      }
      rest := rest - {url};
    }
    assert urls - rest == urls;
    DirectoriesBound(urls, parse);
  }

  /** The path "/a/c" lies in directory "a". */
  lemma TwoSegmentParent(c: char)
    requires c != '/'
    ensures StripSlashes("/a/" + [c]) == "a/" + [c]
    ensures BeforeLastSlash(StripSlashes("/a/" + [c])) == "a"
  {
    var path := "/a/" + [c];
    assert StripSlashesLeft(path) == path[1..] == "a/" + [c];
    assert StripSlashesRight("a/" + [c]) == "a/" + [c];
    assert ("a/" + [c])[..2] == "a/";
    assert BeforeLastSlash("a/") == "a";
  }

  /** A single URL yields a single directory. */
  lemma DirectoriesOfSingleton(u: Url, parse: Parser)
    ensures DirectoriesOf({u}, parse) == {Directory(parse(u))}
  {
  }

  /** A URL whose path is "/a/c" lies in directory "http://h/a". */
  lemma DirectoryInA(parse: Parser, u: Url, c: char)
    requires c != '/'
    requires parse(u) == UrlParts("http", "h", "/a/" + [c])
    ensures Directory(parse(u)) == "http://h/a"
  {
    TwoSegmentParent(c);
    DirectoryIsParent(parse(u));
    assert Directory(parse(u)) == "http" + "://" + "h" + "/" + "a";
    DirectoryNameOfA();
  }

  /** The directory name spelled out. */
  lemma DirectoryNameOfA()
    ensures "http" + "://" + "h" + "/" + "a" == "http://h/a"
  {
  }

  /** Two URLs with the same directory give it to both directory sets. */
  lemma SharedDirectory(u1: Url, u2: Url, parse: Parser)
    requires Directory(parse(u1)) == Directory(parse(u2))
    ensures DirectoriesOf({u1}, parse) * DirectoriesOf({u2}, parse) == {Directory(parse(u1))}
  {
    DirectoriesOfSingleton(u1, parse);
    DirectoriesOfSingleton(u2, parse);
  }

  /** Two distinct URLs in the same directory (such as "http://h/a/x" and
      "http://h/a/y"), one in each part of a partition, give that directory
      to both directory sets: the directory sets of a partition need not be
      disjoint. */
  lemma DirectoriesCanOverlap(parse: Parser, u1: Url, u2: Url, x: char, y: char)
    requires u1 != u2 && x != '/' && y != '/'
    requires parse(u1) == UrlParts("http", "h", "/a/" + [x])
    requires parse(u2) == UrlParts("http", "h", "/a/" + [y])
    ensures {u1} * {u2} == {}
    ensures DirectoriesOf({u1}, parse) * DirectoriesOf({u2}, parse) == {"http://h/a"}
  {
    DirectoryInA(parse, u1, x);
    DirectoryInA(parse, u2, y);
    SharedDirectory(u1, u2, parse);
  }
}
