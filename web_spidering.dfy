/** The older script, web_spidering.py: no directories, one matrix, three
    crawl rounds by default. */
module WebSpidering {
  import opened Wrappers
  import opened Catalog
  import opened Crawler
  import opened Comparison
  import opened Report

  /** The default `max_depth` of `crawl_site` in this script. */
  const DefaultMaxDepth := 3

  /** Everything `main` computes for a run that is not aborted, before
      `save_results` writes it out. */
  datatype ScanResult = ScanResult(
    technology: string,
    defaultFiles: seq<string>,
    found: set<Url>,
    urls: Grouping,
    urlMatrix: seq<Row>)

  /** `main` after the prompt: detect the technology and stop when it is
      falsy (a failed request, or an empty `Server` header), otherwise load
      the catalog, crawl three rounds, compare and build the matrix. */
  method Run(targetUrl: Url, get: Getter, readFile: string -> Option<seq<string>>,
             join: Joiner, hash: Hasher)
    returns (result: Option<ScanResult>)
    ensures result.None? <==> get(targetUrl).None? || get(targetUrl).value.server == Some("")
    ensures result.Some? ==>
      var r := result.value;
      && Some(r.technology) == DetectTechnology(get, targetUrl)
      && r.defaultFiles == LoadDefaultFiles(readFile(GetDefaultFilePath(r.technology)))
      && r.found == Crawl(targetUrl, DefaultMaxDepth, get, join).found
      && r.urls == CompareUrls(r.found, r.defaultFiles, targetUrl, join)
      && r.urlMatrix == CrossMatrix(r.urls.defaults, r.urls.others, hash)
    ensures result.Some? ==> forall i :: 0 <= i < |result.value.urlMatrix| ==>
      result.value.urlMatrix[i].inFirst != result.value.urlMatrix[i].inSecond
  {
    AbortIffDetectionFails(get, targetUrl);
    var technology := DetectTechnology(get, targetUrl);
    if !Truthy(technology) {
      return None;
    }
    var defaultFiles := LoadDefaultFiles(readFile(GetDefaultFilePath(technology.value)));
    var foundUrls, _ := CrawlSite(targetUrl, DefaultMaxDepth, get, join);
    var urls := CompareUrls(foundUrls, defaultFiles, targetUrl, join);
    var urlMatrix := CrossMatrix(urls.defaults, urls.others, hash);
    CrossMatrixFlags(urls.defaults, urls.others, hash);
    result := Some(ScanResult(technology.value, defaultFiles, foundUrls, urls, urlMatrix));
  }

  /** The scan of a small site: the seed page links to two in-scope pages
      (say "/index.html" and "/secret.html" of "http://test.local") and the
      catalog lists an entry that resolves to the first. One round finds
      both pages; the catalogued one is the only default, and the matrix
      has two rows, each with exactly one flag set. */
  lemma TwoPageScenario(seed: Url, h1: string, h2: string, entry: string, get: Getter, join: Joiner, hash: Hasher)
    requires get(seed) == Some(Response(None, [h1, h2]))
    requires seed <= join(seed, h1) && seed <= join(seed, h2) && join(seed, h1) != join(seed, h2)
    requires join(seed, entry) == join(seed, h1)
    ensures Crawl(seed, 1, get, join).found == {join(seed, h1), join(seed, h2)}
    ensures CompareUrls(Crawl(seed, 1, get, join).found, [entry], seed, join) ==
      Grouping({join(seed, h1)}, {join(seed, h2)})
    ensures |CrossMatrix({join(seed, h1)}, {join(seed, h2)}, hash)| == 2
    ensures forall i :: 0 <= i < 2 ==>
      CrossMatrix({join(seed, h1)}, {join(seed, h2)}, hash)[i].inFirst !=
      CrossMatrix({join(seed, h1)}, {join(seed, h2)}, hash)[i].inSecond
  {
    var index, secret := join(seed, h1), join(seed, h2);
    var hrefs := [h1, h2];
    CrawlOneRound(seed, get, join);
    assert hrefs[..1] == [h1] && [h1][..0] == [];
    assert KeptLinks(seed, hrefs, join) == [index, secret];
    assert DefaultUrls([entry], seed, join) == {index};
    CrossMatrixFlags({index}, {secret}, hash);
  }
}
