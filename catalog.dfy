/** Technology detection and the fingerprint catalog, which behave
    identically in both scripts: `detect_technology`, `get_default_file_path` and the line filter
    of `load_default_files`, plus the run-abort test at the start of `main`. */
module Catalog {
  import opened Wrappers
  import opened Text

  /** What one `requests.get` yields when it does not raise: the `Server`
      response header (absent or present) and the hyperlink targets that
      BeautifulSoup finds in the body (`find_all('a', href=True)`), in
      document order. */
  datatype Response = Response(server: Option<string>, hrefs: seq<string>)

  /** `requests.get(url, timeout=5)`; `None` models a `RequestException`. */
  type Getter = string -> Option<Response>

  /** `detect_technology`: the lower-cased `Server` header, "unknown" when
      the header is missing, and `None` when the request raised. */
  function DetectTechnology(get: Getter, url: string): (tech: Option<string>)
    ensures get(url).None? <==> tech.None?
    ensures get(url).Some? && get(url).value.server.None? ==> tech == Some("unknown")
    ensures get(url).Some? && get(url).value.server.Some? ==>
      tech == Some(Lower(get(url).value.server.value)) &&
      |tech.value| == |get(url).value.server.value|
  {
    match get(url)
    case None => None
    case Some(resp) =>
      assert forall i :: 0 <= i < 7 ==> Lower("Unknown")[i] == "unknown"[i];
      assert Lower("Unknown") == "unknown";
      Some(Lower(resp.server.GetOr("Unknown")))
  }

  /** Python's truth value of the `Optional[str]` that detection returns. */
  predicate Truthy(tech: Option<string>)
  {
    tech.Some? && tech.value != ""
  }

  /** `main` stops before loading a catalog or crawling exactly when the
      detection request raised or the server sent an empty `Server` header;
      a missing header reads as "unknown" and lets the run go on. */
  lemma AbortIffDetectionFails(get: Getter, url: string)
    ensures !Truthy(DetectTechnology(get, url)) <==>
      get(url).None? || get(url).value.server == Some("")
  {
  }

  const NginxPinned := "default_nginx_1_19_0.txt"
  const ApachePinned := "default_apache_2_4_62.txt"
  const ApacheFile := "default_apache.txt"
  const NginxFile := "default_nginx.txt"
  const IisFile := "default_iis.txt"
  const OtherFile := "default_other.txt"

  /** The six catalog files a server header can select. */
  const CatalogFiles: set<string> :=
    {NginxPinned, ApachePinned, ApacheFile, NginxFile, IisFile, OtherFile}

  /** `get_default_file_path`: the first substring test that matches decides;
      the pinned versions are tested before the generic product names. */
  function GetDefaultFilePath(header: string): (path: string)
    ensures path in CatalogFiles
  {
    if Contains(header, "nginx/1.19.0") then NginxPinned
    else if Contains(header, "apache/2.4.62") then ApachePinned
    else if Contains(header, "apache") then ApacheFile
    else if Contains(header, "nginx") then NginxFile
    else if Contains(header, "iis") then IisFile
    else OtherFile
  }

  /** The same precedence written as data: a list of (pattern, file) rules
      scanned in order, with a fallback file. */
  const Rules: seq<(string, string)> := [
    ("nginx/1.19.0", NginxPinned),
    ("apache/2.4.62", ApachePinned),
    ("apache", ApacheFile),
    ("nginx", NginxFile),
    ("iis", IisFile)
  ]

  function FirstMatch(rules: seq<(string, string)>, header: string, fallback: string): (file: string)
    ensures file == fallback || exists i :: 0 <= i < |rules| && rules[i].1 == file
    ensures forall i :: 0 <= i < |rules| && Contains(header, rules[i].0) ==>
      exists j :: 0 <= j <= i && rules[j].1 == file && Contains(header, rules[j].0)
    decreases |rules|
  {
    if rules == [] then fallback
    else if Contains(header, rules[0].0) then rules[0].1
    else
      var file := FirstMatch(rules[1..], header, fallback);
      assert forall i :: 1 <= i < |rules| ==> rules[1..][i - 1] == rules[i];
      file
  }

  /** When no rule matches, the scan returns the fallback. */
  lemma {:induction false} FirstMatchNoMatch(rules: seq<(string, string)>, header: string, fallback: string)
    requires forall i :: 0 <= i < |rules| ==> !Contains(header, rules[i].0)
    ensures FirstMatch(rules, header, fallback) == fallback
    decreases |rules|
  {
    if rules != [] {
      assert forall i :: 0 <= i < |rules[1..]| ==> rules[1..][i] == rules[i + 1];
      FirstMatchNoMatch(rules[1..], header, fallback);
    }
  }

  /** The if-chain is the first-match scan of the rule table. */
  lemma GetDefaultFilePathIsFirstMatch(header: string)
    ensures GetDefaultFilePath(header) == FirstMatch(Rules, header, OtherFile)
  {
    var r1 := [("apache/2.4.62", ApachePinned), ("apache", ApacheFile), ("nginx", NginxFile), ("iis", IisFile)];
    var r2 := [("apache", ApacheFile), ("nginx", NginxFile), ("iis", IisFile)];
    var r3 := [("nginx", NginxFile), ("iis", IisFile)];
    var r4 := [("iis", IisFile)];
    assert Rules[1..] == r1 && r1[1..] == r2 && r2[1..] == r3 && r3[1..] == r4 && r4[1..] == [];
    calc {
      FirstMatch(Rules, header, OtherFile);
      if Contains(header, "nginx/1.19.0") then NginxPinned else FirstMatch(r1, header, OtherFile);
      if Contains(header, "nginx/1.19.0") then NginxPinned
      else if Contains(header, "apache/2.4.62") then ApachePinned else FirstMatch(r2, header, OtherFile);
      if Contains(header, "nginx/1.19.0") then NginxPinned
      else if Contains(header, "apache/2.4.62") then ApachePinned
      else if Contains(header, "apache") then ApacheFile else FirstMatch(r3, header, OtherFile);
      if Contains(header, "nginx/1.19.0") then NginxPinned
      else if Contains(header, "apache/2.4.62") then ApachePinned
      else if Contains(header, "apache") then ApacheFile
      else if Contains(header, "nginx") then NginxFile else FirstMatch(r4, header, OtherFile);
      GetDefaultFilePath(header);
    }
  }

  /** Precedence of the pinned versions: a header naming nginx 1.19.0 also
      passes the generic "nginx" test, and one naming Apache 2.4.62 also
      passes the generic "apache" test, yet neither reaches the generic file;
      nginx 1.19.0 wins even over Apache 2.4.62. */
  lemma PinnedVersionsWin(header: string)
    ensures Contains(header, "nginx/1.19.0") ==>
      Contains(header, "nginx") && GetDefaultFilePath(header) == NginxPinned
    ensures Contains(header, "apache/2.4.62") ==>
      Contains(header, "apache") &&
      GetDefaultFilePath(header) == (if Contains(header, "nginx/1.19.0") then NginxPinned else ApachePinned)
  {
    if Contains(header, "nginx/1.19.0") {
      ContainsPrefix(header, "nginx/1.19.0", "nginx");
    }
    if Contains(header, "apache/2.4.62") {
      ContainsPrefix(header, "apache/2.4.62", "apache");
    }
  }

  /** "nginx/1.19.0 (ubuntu)" selects the pinned nginx catalog, not the
      generic one, although it also contains "nginx". */
  lemma PinnedNginxExample()
    ensures Contains("nginx/1.19.0 (ubuntu)", "nginx")
    ensures GetDefaultFilePath("nginx/1.19.0 (ubuntu)") == NginxPinned
  {
    assert "nginx/1.19.0" <= "nginx/1.19.0 (ubuntu)";
    PinnedVersionsWin("nginx/1.19.0 (ubuntu)");
  }

  /** The generic file for a product is chosen exactly when its name occurs,
      no pinned version occurs and (for nginx and IIS) no earlier product
      name occurs: "apache" is tested before "nginx", so a header naming
      both generic products selects the Apache catalog. */
  lemma GenericPrecedence(header: string)
    ensures GetDefaultFilePath(header) == ApacheFile <==>
      Contains(header, "apache") && !Contains(header, "apache/2.4.62") && !Contains(header, "nginx/1.19.0")
    ensures GetDefaultFilePath(header) == NginxFile <==>
      Contains(header, "nginx") && !Contains(header, "apache") && !Contains(header, "nginx/1.19.0")
    ensures GetDefaultFilePath(header) == IisFile <==>
      Contains(header, "iis") && !Contains(header, "nginx") && !Contains(header, "apache")
    ensures GetDefaultFilePath(header) == OtherFile <==>
      !Contains(header, "iis") && !Contains(header, "nginx") && !Contains(header, "apache")
  {
    PinnedVersionsWin(header);
  }

  /** The list comprehension of `load_default_files`: each line stripped,
      blank lines dropped, file order kept. */
  function CleanLines(lines: seq<string>): seq<string>
    decreases |lines|
  {
    if lines == [] then []
    else
      var t := Strip(lines[|lines| - 1]);
      CleanLines(lines[..|lines| - 1]) + (if t != "" then [t] else [])
  }

  /** The catalog never has more entries than the file has lines. */
  lemma {:induction false} CleanLinesBound(lines: seq<string>)
    ensures |CleanLines(lines)| <= |lines|
    decreases |lines|
  {
    if lines != [] {
      CleanLinesBound(lines[..|lines| - 1]);
    }
  }

  /** Every entry is a non-empty, already stripped line of the file. */
  lemma {:induction false} CleanLinesSound(lines: seq<string>)
    ensures forall e :: e in CleanLines(lines) ==>
      e != "" && IsStripped(e) && exists line :: line in lines && Strip(line) == e
    decreases |lines|
  {
    if lines != [] {
      var init := lines[..|lines| - 1];
      var last := lines[|lines| - 1];
      var t := Strip(last);
      CleanLinesSound(init);
      forall e | e in CleanLines(lines)
        ensures e != "" && IsStripped(e) && exists line :: line in lines && Strip(line) == e
      {
        if e in CleanLines(init) {
          var line :| line in init && Strip(line) == e;
          assert line in lines;
        } else {
          assert e == t && last in lines;
        }
      }
    }
  }

  /** Every line that is not blank appears, stripped, among the entries. */
  lemma {:induction false} CleanLinesComplete(lines: seq<string>)
    ensures forall line :: line in lines && Strip(line) != "" ==> Strip(line) in CleanLines(lines)
    decreases |lines|
  {
    if lines != [] {
      var init := lines[..|lines| - 1];
      var last := lines[|lines| - 1];
      CleanLinesComplete(init);
      assert lines == init + [last];
      forall line | line in lines && Strip(line) != ""
        ensures Strip(line) in CleanLines(lines)
      {
        if line != last {
          assert line in init;
        }
      }
    }
  }

  /** Cleaning distributes over concatenation, so the entries of a file are
      the entries of its first part followed by those of the rest: the order
      of the file is the order of the catalog. */
  lemma {:induction false} CleanLinesAppend(a: seq<string>, b: seq<string>)
    ensures CleanLines(a + b) == CleanLines(a) + CleanLines(b)
    decreases |b|
  {
    if b == [] {
      assert a + b == a;
    } else {
      var b' := b[..|b| - 1];
      var last := b[|b| - 1];
      var tail := if Strip(last) != "" then [Strip(last)] else [];
      assert (a + b)[..|a + b| - 1] == a + b';
      assert (a + b)[|a + b| - 1] == last;
      calc {
        CleanLines(a + b);
        CleanLines(a + b') + tail;
        { CleanLinesAppend(a, b'); }
        CleanLines(a) + CleanLines(b') + tail;
        CleanLines(a) + CleanLines(b);
      }
    }
  }

  /** `load_default_files` with the catalog file's lines as input; `None`
      models `FileNotFoundError`, which yields the empty catalog. */
  function LoadDefaultFiles(file: Option<seq<string>>): (entries: seq<string>)
    ensures file.None? ==> entries == []
    ensures file.Some? ==> |entries| <= |file.value|
    ensures forall e :: e in entries ==> e != "" && IsStripped(e)
  {
    match file
    case None => []
    case Some(lines) =>
      CleanLinesBound(lines);
      CleanLinesSound(lines);
      CleanLines(lines)
  }

  /** A one-entry file of a single line keeps that line without its
      surrounding white space; a blank line contributes nothing. */
  lemma CleanSingleLine(line: string)
    ensures CleanLines([line]) == if Strip(line) == "" then [] else [Strip(line)]
  {
    assert [line][..0] == [];
  }
}
