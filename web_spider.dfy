/** The fuller script, web_spider.py: it also derives directories and builds
    a second matrix over them, and crawls two rounds by default. */
module WebSpider {
  import opened Wrappers
  import opened Catalog
  import opened Crawler
  import opened Comparison
  import opened Report

  /** The default `max_depth` of `crawl_site` in this script. */
  const DefaultMaxDepth := 2

  /** `compare_urls` of this script: the URL groups and the directories of
      each group. The URL groups partition the found set; the directory
      groups together hold the directory of every found URL, and they may
      share directories. */
  method CompareUrlsWithDirectories(found: set<Url>, defaultFiles: seq<string>, base: Url, join: Joiner, parse: Parser)
    returns (urls: Grouping, dirs: Grouping)
    ensures urls == CompareUrls(found, defaultFiles, base, join)
    ensures dirs == Grouping(DirectoriesOf(urls.defaults, parse), DirectoriesOf(urls.others, parse))
    ensures dirs.defaults + dirs.others == DirectoriesOf(found, parse)
  {
    urls := CompareUrls(found, defaultFiles, base, join);
    var defaultDirs := ExtractDirectories(urls.defaults, parse);
    var nonDefaultDirs := ExtractDirectories(urls.others, parse);
    dirs := Grouping(defaultDirs, nonDefaultDirs);
    DirectoriesOfUnion(urls.defaults, urls.others, parse);
  }

  /** `create_cross_matrix` of this script: the rows appended one by one in
      a loop over the sorted union; the same rows as the comprehension of
      web_spidering.py. */
  method CreateCrossMatrix(defaultSet: set<string>, nonDefaultSet: set<string>, hash: Hasher)
    returns (matrix: seq<Row>)
    ensures matrix == CrossMatrix(defaultSet, nonDefaultSet, hash)
  {
    var allItems := Sorted(defaultSet + nonDefaultSet);
    matrix := [];
    for i := 0 to |allItems|
      invariant |matrix| == i
      invariant forall j :: 0 <= j < i ==> matrix[j] == RowOf(allItems[j], defaultSet, nonDefaultSet, hash)
    {
      var item := allItems[i];
      matrix := matrix + [Row(hash(item), item in defaultSet, item in nonDefaultSet)];
    }
  }

  /** The directory matrix can have a row marked in both columns: when the
      crawl finds `u1` and `u2` in the same directory and only `u1` is in the
      catalog, the groups are `{u1}` and `{u2}` and their shared directory
      gets a row with both flags set. */
  lemma DirectoryMatrixShared(found: set<Url>, entry: string, base: Url, join: Joiner, parse: Parser,
                              hash: Hasher, u1: Url, u2: Url, x: char, y: char)
    requires found == {u1, u2} && u1 != u2 && x != '/' && y != '/'
    requires join(base, entry) == u1
    requires parse(u1) == UrlParts("http", "h", "/a/" + [x])
    requires parse(u2) == UrlParts("http", "h", "/a/" + [y])
    ensures CompareUrls(found, [entry], base, join) == Grouping({u1}, {u2})
    ensures var urls := CompareUrls(found, [entry], base, join);
      var dirMatrix := CrossMatrix(DirectoriesOf(urls.defaults, parse), DirectoriesOf(urls.others, parse), hash);
      exists i :: 0 <= i < |dirMatrix| && dirMatrix[i] == Row(hash("http://h/a"), true, true)
  {
    var urls := CompareUrls(found, [entry], base, join);
    assert u1 in urls.defaults;
    assert u2 !in urls.defaults;
    assert urls == Grouping({u1}, {u2});
    DirectoriesCanOverlap(parse, u1, u2, x, y);
    CrossMatrixSharedItem(DirectoriesOf({u1}, parse), DirectoriesOf({u2}, parse), hash, "http://h/a");
  }

  /** Everything `main` computes for a run that is not aborted. */
  datatype ScanResult = ScanResult(
    technology: string,
    catalogFile: string,
    defaultFiles: seq<string>,
    found: set<Url>,
    urls: Grouping,
    dirs: Grouping,
    urlMatrix: seq<Row>,
    dirMatrix: seq<Row>)

  /** `main` after the prompt: detect the technology and stop when it is
      falsy, otherwise select and load the catalog, crawl with the default
      depth, compare, and build both matrices. `readFile` gives the lines of
      a catalog file, `None` when it does not exist. */
  method Run(targetUrl: Url, get: Getter, readFile: string -> Option<seq<string>>,
             join: Joiner, parse: Parser, hash: Hasher)
    returns (result: Option<ScanResult>)
    ensures result.None? <==> get(targetUrl).None? || get(targetUrl).value.server == Some("")
    ensures result.Some? ==>
      var r := result.value;
      && Some(r.technology) == DetectTechnology(get, targetUrl)
      && r.catalogFile == GetDefaultFilePath(r.technology)
      && r.defaultFiles == LoadDefaultFiles(readFile(r.catalogFile))
      && r.found == Crawl(targetUrl, DefaultMaxDepth, get, join).found
      && r.urls == CompareUrls(r.found, r.defaultFiles, targetUrl, join)
      && r.dirs == Grouping(DirectoriesOf(r.urls.defaults, parse), DirectoriesOf(r.urls.others, parse))
      && r.urlMatrix == CrossMatrix(r.urls.defaults, r.urls.others, hash)
      && r.dirMatrix == CrossMatrix(r.dirs.defaults, r.dirs.others, hash)
    ensures result.Some? ==> forall i :: 0 <= i < |result.value.urlMatrix| ==>
      result.value.urlMatrix[i].inFirst != result.value.urlMatrix[i].inSecond
  {
    AbortIffDetectionFails(get, targetUrl);
    var technology := DetectTechnology(get, targetUrl);
    if !Truthy(technology) {
      return None;
    }
    var defaultFilePath := GetDefaultFilePath(technology.value);
    var defaultFiles := LoadDefaultFiles(readFile(defaultFilePath));
    var foundUrls, _ := CrawlSite(targetUrl, DefaultMaxDepth, get, join);
    var urls, dirs := CompareUrlsWithDirectories(foundUrls, defaultFiles, targetUrl, join, parse);
    var urlMatrix := CreateCrossMatrix(urls.defaults, urls.others, hash);
    var dirMatrix := CreateCrossMatrix(dirs.defaults, dirs.others, hash);
    CrossMatrixFlags(urls.defaults, urls.others, hash);
    result := Some(ScanResult(technology.value, defaultFilePath, defaultFiles, foundUrls, urls, dirs, urlMatrix, dirMatrix));
  }
}
