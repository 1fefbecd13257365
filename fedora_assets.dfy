/**
 * The downloader's side of `files.txt`: reading the list of binary URLs the
 * crawler wrote, and mapping each URL to the directory and `.jpg` file it is
 * saved under.  The HTTP request, the image conversion and the thread pool
 * are not modelled.
 */
module FedoraAssets {
  import opened Wrappers
  import opened Strings
  import opened Paths
  import opened FedoraRules

  /** The repository host, in front of the `/repo/rest/` marker. */
  const DatavaultHost: string := "http://datavault.ficlit.unibo.it"

  /** The only URLs `download_and_convert` accepts start with this: `http://datavault.ficlit.unibo.it/repo/rest/`. */
  const BasePrefix: string := DatavaultHost + RepoMarker

  /** The `ValueError` raised for a URL outside the repository. */
  datatype AssetError = UnexpectedUrl(url: string)

  /** `target_dir` and `target_path`, both `pathlib` paths. */
  datatype Target = Target(dir: PosixPath, path: PosixPath)

  /**
   * `os.path.splitext(filename)[0] + ".jpg"`: the name with its extension, if
   * any, replaced by `.jpg`; a name without `/` gives a name without `/`.
   */
  function JpgName(filename: string): (r: string)
    ensures |r| >= 4 && r[|r| - 4..] == ".jpg"
    ensures r[..|r| - 4] + SplitExt(filename).1 == filename
    ensures '/' !in filename ==> '/' !in r
  {
    var stem := SplitExt(filename).0;
    assert forall i :: 0 <= i < |stem| ==> stem[i] == filename[i];
    stem + ".jpg"
  }

  /** The path arithmetic of `download_and_convert`, before any directory is made. */
  function TargetOf(url: string, outDir: string): (r: Result<Target, AssetError>)
    ensures r.Failure? <==> !StartsWith(url, BasePrefix)
    ensures r.Failure? ==> r.error == UnexpectedUrl(url)
    ensures r.Success? ==>
      var rel := url[|BasePrefix|..];
      url == BasePrefix + rel
      && r.value.dir == JoinPath(ParsePath(outDir), ParsePath(PathSplit(rel).0))
      && r.value.path == JoinPath(r.value.dir, ParsePath(JpgName(PathSplit(rel).1)))
  {
    if !StartsWith(url, BasePrefix) then Failure(UnexpectedUrl(url))
    else
      var rel := url[|BasePrefix|..];
      var (root, filename) := PathSplit(rel);
      var dir := JoinPath(ParsePath(outDir), ParsePath(root));
      Success(Target(dir, JoinPath(dir, ParsePath(JpgName(filename)))))
  }

  /**
   * The file is saved directly inside the target directory: its path is the
   * directory's components followed by the `.jpg` name as one component.
   */
  lemma TargetFileInDir(url: string, outDir: string)
    requires StartsWith(url, BasePrefix)
    ensures var t := TargetOf(url, outDir).value;
      WellFormed(t.dir)
      && t.path == PosixPath(t.dir.rooted, t.dir.parts + [JpgName(PathSplit(url[|BasePrefix|..]).1)])
  {
    var rel := url[|BasePrefix|..];
    PathSplitTail(rel);
    ParseComponent(JpgName(PathSplit(rel).1));
    ParsePathWellFormed(outDir);
    ParsePathWellFormed(PathSplit(rel).0);
  }

  /** A binary directly under the repository root is saved in `out_dir` itself. */
  lemma TopLevelTarget(url: string, outDir: string)
    requires StartsWith(url, BasePrefix) && '/' !in url[|BasePrefix|..]
    ensures TargetOf(url, outDir).value.dir == ParsePath(outDir)
  {
    var rel := url[|BasePrefix|..];
    assert AfterLastSlash(rel) == 0;
    assert PathSplit(rel).0 == [];
    ParseEmpty(ParsePath(outDir));
  }

  /** A name with a dot after something other than dots loses what follows its last dot. */
  lemma SplitExtOfExtension(stem: string, ext: string)
    requires '.' !in ext
    requires exists j :: 0 <= j < |stem| && stem[j] != '.'
    ensures SplitExt(stem + "." + ext) == (stem, "." + ext)
  {
    var name := stem + "." + ext;
    var d := |stem|;
    assert name[d..d + 1] == ".";
    forall j: nat | d < j <= |name| - 1
      ensures !OccursAt(name, ".", j)
    {
      assert name[j] == ext[j - d - 1];
    }
    RFindLast(name, ".", |name| - 1, d);
    var j :| 0 <= j < |stem| && stem[j] != '.';
    assert name[j] != '.';
    assert name[..d] == stem && name[d..] == "." + ext;
  }

  /** A name without a dot has no extension. */
  lemma SplitExtNoDot(name: string)
    requires '.' !in name
    ensures SplitExt(name) == (name, "")
  {
    forall j: nat | j <= |name| - 1
      ensures !OccursAt(name, ".", j)
    {
      assert name[j..j + 1] == [name[j]];
    }
  }

  /** The repository marker first occurs where the base prefix ends with it. */
  lemma MarkerInPrefix(url: string)
    requires StartsWith(url, BasePrefix)
    ensures Find(url, RepoMarker) == Some(|BasePrefix| - |RepoMarker|)
  {
    var k := |DatavaultHost|;
    assert url[..|BasePrefix|] == DatavaultHost + RepoMarker;
    assert url[k..k + |RepoMarker|] == RepoMarker;
    // The second character of the marker, `r`, does not occur in the host.
    assert 'r' !in DatavaultHost;
    forall j: nat | j < k
      ensures !OccursAt(url, RepoMarker, j)
    {
      if j + 1 < k {
        assert url[j + 1] == DatavaultHost[j + 1];
      } else {
        assert url[j + 1] == RepoMarker[0];
      }
      assert url[j + 1] != RepoMarker[1];
      assert j + |RepoMarker| <= |url| ==> url[j..j + |RepoMarker|][1] == url[j + 1];
    }
    FindFirst(url, RepoMarker, k);
  }

  /** For a URL under the base prefix with no further `/repo/rest/`, the crawler's relative path is the downloader's. */
  lemma RelativePathAgrees(url: string)
    requires StartsWith(url, BasePrefix) && !Contains(url[|BasePrefix|..], RepoMarker)
    ensures RelativePath(url) == url[|BasePrefix|..]
  {
    var rel := url[|BasePrefix|..];
    MarkerInPrefix(url);
    SplitStep(url, RepoMarker, |BasePrefix| - |RepoMarker|);
    assert Split(rel, RepoMarker) == [rel];
  }

  /** For a URL the crawler lists -- under the base prefix, with no further `/repo/rest/` -- its simple name is the downloader's last component plus `.jpg`. */
  lemma CrawlerSimpleName(url: string)
    requires StartsWith(url, BasePrefix) && !Contains(url[|BasePrefix|..], RepoMarker)
    ensures DeriveFilename(url).1 == PathSplit(url[|BasePrefix|..]).1 + ".jpg"
  {
    RelativePathAgrees(url);
    PathSplitTailIsLastSegment(url[|BasePrefix|..]);
  }

  /**
   * For such a URL the downloader saves the binary under the crawler's simple
   * name exactly when its last component has no extension.
   */
  lemma AgreesWithCrawler(url: string, outDir: string)
    requires StartsWith(url, BasePrefix) && !Contains(url[|BasePrefix|..], RepoMarker)
    ensures var rel := url[|BasePrefix|..];
      var t := TargetOf(url, outDir).value;
      t.path == JoinPath(t.dir, ParsePath(DeriveFilename(url).1)) <==> SplitExt(PathSplit(rel).1).1 == []
  {
    var rel := url[|BasePrefix|..];
    var t := TargetOf(url, outDir).value;
    var tail := PathSplit(rel).1;
    CrawlerSimpleName(url);
    PathSplitTail(rel);
    TargetFileInDir(url, outDir);
    LastComponentDecides(t.dir, JpgName(tail), tail + ".jpg");
    JpgNameKeeps(tail);
  }

  /** Two names put in the same directory give the same path only when they are the same name. */
  lemma LastComponentDecides(dir: PosixPath, name: string, other: string)
    requires Component(other)
    ensures PosixPath(dir.rooted, dir.parts + [name]) == JoinPath(dir, ParsePath(other)) <==> name == other
  {
    ParseComponent(other);
    var here := dir.parts + [name];
    var there := dir.parts + [other];
    assert here == there ==> here[|here| - 1] == there[|there| - 1];
  }

  /** The `.jpg` name is the name plus `.jpg` exactly when the name has no extension. */
  lemma JpgNameKeeps(name: string)
    ensures JpgName(name) == name + ".jpg" <==> SplitExt(name).1 == []
  {
    var r := JpgName(name);
    assert r == name + ".jpg" <==> r[..|r| - 4] == name;
  }

  /** `A/B/C.tif` is saved as `C.jpg` in directory `A/B`, while the crawler names the same binary `C.tif.jpg`. */
  lemma TifExample(outDir: string)
    ensures var url := BasePrefix + "A/B/C.tif";
      var out := ParsePath(outDir);
      TargetOf(url, outDir)
        == Success(Target(PosixPath(out.rooted, out.parts + ["A", "B"]), PosixPath(out.rooted, out.parts + ["A", "B", "C.jpg"])))
      && DeriveFilename(url).1 == "C.tif.jpg"
  {
    var url := BasePrefix + "A/B/C.tif";
    TifRelative();
    TifTarget(url, outDir);
    TifCrawlerName(url);
  }

  /** Where the downloader saves the example binary. */
  lemma TifTarget(url: string, outDir: string)
    requires StartsWith(url, BasePrefix) && url[|BasePrefix|..] == "A/B/C.tif"
    ensures var out := ParsePath(outDir);
      TargetOf(url, outDir)
        == Success(Target(PosixPath(out.rooted, out.parts + ["A", "B"]), PosixPath(out.rooted, out.parts + ["A", "B", "C.jpg"])))
  {
    TifPathSplit();
    TifJpgName();
    TifDirectory();
    TargetUnder(url, outDir, ["A", "B"], "C.jpg");
    var out := ParsePath(outDir).parts;
    assert out + ["A", "B"] + ["C.jpg"] == out + ["A", "B", "C.jpg"];
  }

  /** A relative directory part adds its components under `out_dir`, and the file is saved inside it. */
  lemma TargetUnder(url: string, outDir: string, parts: seq<string>, name: string)
    requires StartsWith(url, BasePrefix)
    requires ParsePath(PathSplit(url[|BasePrefix|..]).0) == PosixPath(false, parts)
    requires JpgName(PathSplit(url[|BasePrefix|..]).1) == name
    ensures var out := ParsePath(outDir);
      TargetOf(url, outDir)
        == Success(Target(PosixPath(out.rooted, out.parts + parts), PosixPath(out.rooted, out.parts + parts + [name])))
  {
    TargetFileInDir(url, outDir);
  }

  /** `PurePosixPath("A/B")` */
  lemma TifDirectory()
    ensures ParsePath("A/B") == PosixPath(false, ["A", "B"])
  {
    assert Join("/", ["A", "B"]) == "A/B";
    ParseRelative(["A", "B"]);
  }

  /** The crawler's simple name for the example URL. */
  lemma TifCrawlerName(url: string)
    requires StartsWith(url, BasePrefix) && url[|BasePrefix|..] == "A/B/C.tif"
    ensures DeriveFilename(url).1 == "C.tif.jpg"
  {
    TifRelative();
    TifPathSplit();
    CrawlerSimpleName(url);
  }

  /** The relative path of the example URL. */
  lemma TifRelative()
    ensures var url := BasePrefix + "A/B/C.tif";
      StartsWith(url, BasePrefix) && url[|BasePrefix|..] == "A/B/C.tif" && !Contains("A/B/C.tif", RepoMarker)
  {
    var url := BasePrefix + "A/B/C.tif";
    assert url[..|BasePrefix|] == BasePrefix && url[|BasePrefix|..] == "A/B/C.tif";
    assert forall j: nat :: !OccursAt("A/B/C.tif", RepoMarker, j);
  }

  /** `os.path.splitext("C.tif")[0] + ".jpg"` */
  lemma TifJpgName()
    ensures JpgName("C.tif") == "C.jpg"
  {
    assert "C.tif" == "C" + "." + "tif";
    assert "C"[0] != '.';
    SplitExtOfExtension("C", "tif");
  }

  /** `os.path.split("A/B/C.tif")` */
  lemma TifPathSplit()
    ensures PathSplit("A/B/C.tif") == ("A/B", "C.tif")
  {
    var rel := "A/B/C.tif";
    assert rel[3..4] == "/";
    forall j: nat | 3 < j <= |rel| - 1
      ensures !OccursAt(rel, "/", j)
    {
      assert rel[j] != '/';
    }
    RFindLast(rel, "/", |rel| - 1, 3);
    assert rel[..4] == "A/B/" && rel[4..] == "C.tif";
    assert "A/B/"[0] != '/';
    assert RStrip("A/B/", {'/'}) == "A/B" by {
      assert "A/B/"[..3] == "A/B";
    }
  }

  /** `line.strip() and not line.startswith("#")`: the lines the downloader keeps. */
  predicate Kept(line: string)
  {
    Strip(line, Whitespace) != [] && !StartsWith(line, "#")
  }

  /**
   * Iterating over a text file: each line keeps its terminating `\n`; the last
   * line has none when the text does not end with one.
   */
  function FileLines(text: string): (r: seq<string>)
    ensures Join("", r) == text
    ensures forall k :: 0 <= k < |r| ==> r[k] != [] && '\n' !in r[k][..|r[k]| - 1]
    ensures forall k :: 0 <= k < |r| - 1 ==> r[k][|r[k]| - 1] == '\n'
    decreases |text|
  {
    if text == [] then []
    else
      match Find(text, "\n")
      case None =>
        SingleCharAbsentIff(text, '\n');
        [text]
      case Some(i) =>
        var line := text[..i + 1];
        var rest := FileLines(text[i + 1..]);
        assert line[i] == '\n';
        assert '\n' !in line[..i] by {
          forall j | 0 <= j < i ensures line[j] != '\n' {
            assert !OccursAt(text, "\n", j);
            assert text[j..j + 1] == [text[j]];
          }
        }
        assert Join("", [line] + rest) == line + Join("", rest) by {
          if rest != [] {
            assert ([line] + rest)[1..] == rest;
          }
        }
        assert text == line + text[i + 1..];
        [line] + rest
  }

  /** A string without a character has no occurrence of it as a pattern. */
  lemma SingleCharAbsentIff(s: string, c: char)
    requires Find(s, [c]).None?
    ensures c !in s
  {
    CharFound(s, c);
  }

  /** `[line.strip() for line in lines if line.strip() and not line.startswith("#")]` */
  function KeepLines(lines: seq<string>): (r: seq<string>)
    ensures |r| <= |lines|
    ensures forall k :: 0 <= k < |r| ==> r[k] != []
  {
    if lines == [] then [] else KeepLine(lines[0]) + KeepLines(lines[1..])
  }

  /** What one line contributes to the list: its stripped self, or nothing. */
  function KeepLine(line: string): (r: seq<string>)
    ensures |r| <= 1 && (r != [] ==> r[0] != [])
  {
    if Kept(line) then [Strip(line, Whitespace)] else []
  }

  /**
   * Reading in text mode, with universal newlines: `\r\n` and a lone `\r`
   * are each read as one `\n`.
   */
  function UniversalNewlines(text: string): (r: string)
    ensures '\r' !in r
    ensures '\r' !in text ==> r == text
    decreases |text|
  {
    if text == [] then []
    else if text[0] == '\r' then
      "\n" + UniversalNewlines(if |text| > 1 && text[1] == '\n' then text[2..] else text[1..])
    else [text[0]] + UniversalNewlines(text[1..])
  }

  /** Text without `\r` in front is read as it is. */
  lemma {:induction false} UniversalNewlinesPrefix(a: string, b: string)
    requires '\r' !in a
    ensures UniversalNewlines(a + b) == a + UniversalNewlines(b)
    decreases |a|
  {
    if a != [] {
      assert (a + b)[1..] == a[1..] + b;
      UniversalNewlinesPrefix(a[1..], b);
      assert [a[0]] + a[1..] == a;
    } else {
      assert a + b == b;
    }
  }

  /** The lines that `main` keeps from a text that has been read. */
  function KeptLines(text: string): seq<string>
  {
    KeepLines(FileLines(text))
  }

  /** The URL list of `main`. */
  function ReadFileList(text: string): seq<string>
  {
    KeptLines(UniversalNewlines(text))
  }

  /** The filter works line by line: it keeps the order and splits over concatenation. */
  lemma {:induction false} KeepLinesConcat(a: seq<string>, b: seq<string>)
    ensures KeepLines(a + b) == KeepLines(a) + KeepLines(b)
    decreases |a|
  {
    if a != [] {
      var ab := a + b;
      assert ab != [] && ab[0] == a[0] && ab[1..] == a[1..] + b;
      KeepLinesConcat(a[1..], b);
      assert KeepLines(ab) == KeepLine(a[0]) + (KeepLines(a[1..]) + KeepLines(b));
      assert KeepLines(a) == KeepLine(a[0]) + KeepLines(a[1..]);
      AppendAssoc(KeepLine(a[0]), KeepLines(a[1..]), KeepLines(b));
    } else {
      assert a + b == b;
    }
  }

  /** Blank lines and comment lines contribute nothing; any other line contributes its stripped self. */
  lemma KeepLinesSingle(line: string)
    ensures KeepLines([line]) == KeepLine(line)
  {
    assert [line][1..] == [];
  }

  /** A URL the downloader reads back as it was written. */
  predicate Listable(u: string)
  {
    u != [] && u[0] !in Whitespace && u[|u| - 1] !in Whitespace && u[0] != '#' && '\n' !in u && '\r' !in u
  }

  /** A listable URL is kept as it is, with or without its newline. */
  lemma ListableKept(u: string)
    requires Listable(u)
    ensures KeepLine(u) == [u] && KeepLine(u + "\n") == [u]
  {
    StripUnchanged(u, Whitespace);
    StripTrailing(u, '\n', Whitespace);
    assert u[..1] != "#";
    assert (u + "\n")[..1] == u[..1];
  }

  /** The lines of a `\n`-join: each URL but the last followed by its newline. */
  lemma {:induction false} FileLinesOfJoin(urls: seq<string>)
    requires urls != [] && forall k :: 0 <= k < |urls| ==> Listable(urls[k])
    ensures FileLines(Join("\n", urls)) ==
      (if |urls| == 1 then [urls[0]] else [urls[0] + "\n"] + FileLines(Join("\n", urls[1..])))
  {
    var u := urls[0];
    if |urls| == 1 {
      SingleCharAbsent(u, '\n');
    } else {
      var text := Join("\n", urls);
      assert text == u + "\n" + Join("\n", urls[1..]);
      assert text[|u|..|u| + 1] == "\n";
      forall j: nat | j < |u|
        ensures !OccursAt(text, "\n", j)
      {
        assert text[j] == u[j];
      }
      FindFirst(text, "\n", |u|);
      assert text[..|u| + 1] == u + "\n";
      assert text[|u| + 1..] == Join("\n", urls[1..]);
    }
  }

  /** The kept lines of a `\n`-join of listable URLs are the URLs. */
  lemma {:induction false} KeptLinesOfJoin(urls: seq<string>)
    requires forall k :: 0 <= k < |urls| ==> Listable(urls[k])
    ensures KeptLines(Join("\n", urls)) == urls
    decreases |urls|
  {
    if |urls| == 1 {
      KeptLinesOfOne(urls[0]);
      assert urls == [urls[0]];
    } else if |urls| > 1 {
      RoundTripStep(urls);
      KeptLinesOfJoin(urls[1..]);
      assert urls == [urls[0]] + urls[1..];
    }
  }

  /** A single listable URL is read back as itself. */
  lemma KeptLinesOfOne(u: string)
    requires Listable(u)
    ensures KeptLines(Join("\n", [u])) == [u]
  {
    FileLinesOfJoin([u]);
    assert FileLines(Join("\n", [u])) == [u];
    ListableKept(u);
    KeepLinesSingle(u);
  }

  /** The line ends a text file may use, each of which universal newlines read as `\n`. */
  predicate LineEnd(nl: string)
  {
    nl == "\n" || nl == "\r\n" || nl == "\r"
  }

  /** Listable URLs joined with any line end read as their `\n`-join. */
  lemma {:induction false} NewlineJoin(urls: seq<string>, nl: string)
    requires LineEnd(nl) && forall k :: 0 <= k < |urls| ==> Listable(urls[k])
    ensures UniversalNewlines(Join(nl, urls)) == Join("\n", urls)
    decreases |urls|
  {
    if |urls| > 1 {
      var u := urls[0];
      var rest := Join(nl, urls[1..]);
      assert forall k :: 0 <= k < |urls| - 1 ==> urls[1..][k] == urls[k + 1];
      NewlineJoin(urls[1..], nl);
      assert rest != [] && rest[0] != '\n' by {
        JoinStartsWith(nl, urls[1..]);
        assert rest[0] == urls[1][0];
      }
      JoinCons(nl, u, urls[1..]);
      JoinCons("\n", u, urls[1..]);
      assert [u] + urls[1..] == urls;
      AppendAssoc(u, nl, rest);
      UniversalNewlinesPrefix(u, nl + rest);
      LineEndRead(nl, rest);
      AppendAssoc(u, "\n", UniversalNewlines(rest));
    }
  }

  /** Any line end in front of text that does not start with `\n` is read as one `\n`. */
  lemma LineEndRead(nl: string, rest: string)
    requires LineEnd(nl) && (rest != [] ==> rest[0] != '\n')
    ensures UniversalNewlines(nl + rest) == "\n" + UniversalNewlines(rest)
  {
    if nl == "\n" {
      UniversalNewlinesPrefix("\n", rest);
    } else if nl == "\r\n" {
      assert (nl + rest)[2..] == rest;
    } else {
      assert (nl + rest)[1..] == rest;
    }
  }

  /**
   * `files.txt` round trip: the URL list the crawler writes as a `\n`-join
   * reads back unchanged, and so does the same list written with `\r\n` or
   * `\r` line ends, provided no URL is empty, has whitespace at either end,
   * starts with `#` or holds a line break.
   */
  lemma FileListRoundTrip(urls: seq<string>, nl: string)
    requires LineEnd(nl) && forall k :: 0 <= k < |urls| ==> Listable(urls[k])
    ensures ReadFileList(Join(nl, urls)) == urls
  {
    if urls != [] {
      NewlineJoin(urls, nl);
    }
    KeptLinesOfJoin(urls);
  }

  /** The first URL of a `\n`-join of several reads back first, followed by the rest. */
  lemma RoundTripStep(urls: seq<string>)
    requires |urls| > 1 && forall k :: 0 <= k < |urls| ==> Listable(urls[k])
    ensures forall k :: 0 <= k < |urls| - 1 ==> Listable(urls[1..][k])
    ensures KeptLines(Join("\n", urls)) == [urls[0]] + KeptLines(Join("\n", urls[1..]))
  {
    var u := urls[0];
    assert forall k :: 0 <= k < |urls| - 1 ==> urls[1..][k] == urls[k + 1];
    FileLinesOfJoin(urls);
    var rest := FileLines(Join("\n", urls[1..]));
    assert FileLines(Join("\n", urls)) == [u + "\n"] + rest;
    KeepLinesConcat([u + "\n"], rest);
    KeepLinesSingle(u + "\n");
    ListableKept(u);
    assert KeepLines([u + "\n"]) == [u];
  }
}
