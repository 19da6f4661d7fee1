/**
 * The batch driver of phishpedia.py (its `__main__` block): for every sample
 * folder, in listing order, decide whether to classify it, and append one
 * tab-separated record per classified folder to the result file.
 */
module Batch {
  import opened Wrappers
  import opened Text
  import opened InputBox
  import opened Pipeline

  /**
   * One folder of the request directory, with what the file system and the
   * two models would give for it: whether `shot.png` exists, the parsed
   * `html.txt` (None when that file does not exist), the parsed `index.html`
   * (an `Unreadable(FileNotFound)` page when it is missing too), the text of
   * `info.txt` (None when it does not exist), the detector's boxes, the
   * matcher's answer and the two stage times as printed.
   */
  datatype Sample = Sample(
    folder: string,
    hasShot: bool,
    htmlTxt: Option<Page>,
    indexHtml: Page,
    info: Option<string>,
    boxes: seq<Box>,
    matcher: MatchOutcome,
    recogTime: string,
    matchTime: string)

  /** The two HTML files a folder may hold. */
  datatype HtmlFile = HtmlTxt | IndexHtml

  /** `html.txt` unless it does not exist, then `index.html` (which may not exist either). */
  function HtmlPath(s: Sample): (r: HtmlFile)
    ensures r == HtmlTxt <==> s.htmlTxt.Some?
  {
    if s.htmlTxt.Some? then HtmlTxt else IndexHtml
  }

  /** What reading and parsing the chosen HTML file gives. */
  function PageOf(s: Sample): (r: Page)
    ensures HtmlPath(s) == HtmlTxt ==> r == s.htmlTxt.value
    ensures HtmlPath(s) == IndexHtml ==> r == s.indexHtml
  {
    match HtmlPath(s)
    case HtmlTxt => s.htmlTxt.value
    case IndexHtml => s.indexHtml
  }

  const Scheme: string := "https://"

  /** The text of `info.txt`, or `'https://' + folder` when there is none. */
  function Url(s: Sample): (r: string)
    ensures s.info.Some? ==> r == s.info.value
    ensures s.info.None? ==> |r| == |Scheme| + |s.folder| && r[..|Scheme|] == Scheme && r[|Scheme|..] == s.folder
  {
    match s.info
    case Some(text) => text
    case None => Scheme + s.folder
  }

  /**
   * The alternatives of the forbidden-suffix pattern, in pattern order, with
   * `jp(e)?g`, `mp(e)?g` and `doc(x)?` each written out as their two forms
   * (the pattern lists "sql", "bin" and "txt" twice; so does this list).
   */
  const ForbiddenExtensions: seq<string> :=
    AudioAndArchives + DataFiles + Executables + Fonts + Images + Presentations
      + SourceCode + Spreadsheets + SystemFiles + Videos + Documents

  const AudioAndArchives: seq<string> := ["mp3", "wav", "wma", "ogg", "mkv", "zip", "tar", "xz", "rar", "z", "deb", "bin", "iso"]  // sound, video container and archive formats
  const DataFiles: seq<string> := ["csv", "tsv", "dat", "txt", "css", "log", "sql", "xml", "sql", "mdb"]  // data, text and database files
  const Executables: seq<string> := ["apk", "bat", "bin", "exe", "jar", "wsf"]  // executables and scripts
  const Fonts: seq<string> := ["fnt", "fon", "otf", "ttf"]  // fonts
  const Images: seq<string> := ["ai", "bmp", "gif", "ico", "jpg", "jpeg", "png", "ps", "psd", "svg", "tif", "tiff"]  // images
  const Presentations: seq<string> := ["cer", "rss", "key", "odp", "pps", "ppt", "pptx"]  // certificates, feeds, keys and presentations
  const SourceCode: seq<string> := ["c", "class", "cpp", "cs", "h", "java", "sh", "swift", "vb"]  // programming language sources
  const Spreadsheets: seq<string> := ["odf", "xlr", "xls", "xlsx"]  // spreadsheets
  const SystemFiles: seq<string> := ["bak", "cab", "cfg", "cpl", "cur", "dll", "dmp", "drv", "icns", "ini", "lnk", "msi", "sys", "tmp"]  // system and backup files
  const Videos: seq<string> := ["3g2", "3gp", "avi", "flv", "h264", "m4v", "mov", "mp4", "mpg", "mpeg", "rm", "swf", "vob", "wmv"]  // videos
  const Documents: seq<string> := ["doc", "docx", "odt", "rtf", "tex", "txt", "wks", "wps", "wpd"]  // documents


  /** Python's `$` without MULTILINE: the end of `s`, or just before a newline that ends `s`. */
  predicate AtEnd(s: string, j: int) {
    j == |s| || (0 <= j == |s| - 1 && s[j] == '\n')
  }

  /** The pattern `\.ext$` matches `url` at position `i`, ignoring case. */
  predicate SuffixMatchAt(url: string, ext: string, i: int) {
    0 <= i < |url| && url[i] == '.' && MatchesIgnoringCaseAt(url, ext, i + 1) && AtEnd(url, i + 1 + |ext|)
  }

  /** `re.search(_forbidden_suffixes, url, re.IGNORECASE)` finds a match somewhere. */
  predicate SuffixPatternMatches(url: string) {
    exists i, k :: 0 <= i < |url| && 0 <= k < |ForbiddenExtensions| && SuffixMatchAt(url, ForbiddenExtensions[k], i)
  }

  /** `url` ends in "." + `ext`, ignoring case, possibly followed by one newline. */
  predicate EndsWithExtension(url: string, ext: string) {
    || EndsWithIgnoringCase(url, "." + ext)
    || (|url| > 0 && url[|url| - 1] == '\n' && EndsWithIgnoringCase(url[..|url| - 1], "." + ext))
  }

  /** The URL ends in one of the forbidden extensions. */
  predicate HasForbiddenSuffix(url: string) {
    exists k :: 0 <= k < |ForbiddenExtensions| && EndsWithExtension(url, ForbiddenExtensions[k])
  }

  /** "." + `ext` ending `t`, ignoring case, is a match of `\.ext` at the start of that ending. */
  lemma EndingIsMatch(t: string, ext: string)
    requires EndsWithIgnoringCase(t, "." + ext)
    ensures t[|t| - |ext| - 1] == '.' && MatchesIgnoringCaseAt(t, ext, |t| - |ext|)
  {
    var i := |t| - |ext| - 1;
    forall j | 0 <= j < |ext| ensures FoldEq(t[i + 1 + j], ext[j]) {
      assert t[i + 1 + j] == t[i..][1 + j];
      assert ("." + ext)[1 + j] == ext[j];
    }
    assert t[i] == t[i..][0];
  }

  /** The converse: a match of `\.ext` running to the end of `t` is an ending in "." + `ext`. */
  lemma MatchIsEnding(t: string, ext: string, i: nat)
    requires i < |t| && t[i] == '.' && MatchesIgnoringCaseAt(t, ext, i + 1) && i + 1 + |ext| == |t|
    ensures EndsWithIgnoringCase(t, "." + ext)
  {
    forall j | 0 <= j < |"." + ext| ensures FoldEq(t[i..][j], ("." + ext)[j]) {
      if j > 0 {
        assert t[i..][j] == t[i + 1 + (j - 1)];
      }
    }
  }

  /** A match in the text without its final newline is a match in the text. */
  lemma MatchBeforeNewline(url: string, ext: string, i: nat)
    requires |url| > 0 && url[|url| - 1] == '\n'
    requires var t := url[..|url| - 1]; i < |t| && t[i] == '.' && MatchesIgnoringCaseAt(t, ext, i + 1) && i + 1 + |ext| == |t|
    ensures SuffixMatchAt(url, ext, i)
  {
    var t := url[..|url| - 1];
    forall j | 0 <= j < |ext| ensures FoldEq(url[i + 1 + j], ext[j]) {
      assert url[i + 1 + j] == t[i + 1 + j];
    }
  }

  /** An ending in the extension is a match of the pattern's alternative. */
  lemma ExtensionEndingMatches(url: string, ext: string)
    requires EndsWithExtension(url, ext)
    ensures exists i :: 0 <= i < |url| && SuffixMatchAt(url, ext, i)
  {
    var n := |url|;
    if EndsWithIgnoringCase(url, "." + ext) {
      EndingIsMatch(url, ext);
      assert SuffixMatchAt(url, ext, n - |ext| - 1);
    } else {
      EndingIsMatch(url[..n - 1], ext);
      MatchBeforeNewline(url, ext, n - |ext| - 2);
    }
  }

  /** A match of the pattern's alternative is an ending in the extension. */
  lemma MatchIsExtensionEnding(url: string, ext: string, i: nat)
    requires SuffixMatchAt(url, ext, i)
    ensures EndsWithExtension(url, ext)
  {
    var n := |url|;
    if i + 1 + |ext| == n {
      MatchIsEnding(url, ext, i);
    } else {
      var t := url[..n - 1];
      assert MatchesIgnoringCaseAt(t, ext, i + 1) by {
        forall j | 0 <= j < |ext| ensures FoldEq(t[i + 1 + j], ext[j]) {
          assert t[i + 1 + j] == url[i + 1 + j];
        }
      }
      MatchIsEnding(t, ext, i);
    }
  }

  /** A suffix match of one alternative is exactly an ending in that extension. */
  lemma EndsWithExtensionIff(url: string, ext: string)
    ensures EndsWithExtension(url, ext) <==> exists i :: 0 <= i < |url| && SuffixMatchAt(url, ext, i)
  {
    if EndsWithExtension(url, ext) {
      ExtensionEndingMatches(url, ext);
    }
    if i :| 0 <= i < |url| && SuffixMatchAt(url, ext, i) {
      MatchIsExtensionEnding(url, ext, i);
    }
  }

  /** The suffix test agrees with the pattern's search semantics. */
  lemma ForbiddenSuffixIff(url: string)
    ensures HasForbiddenSuffix(url) <==> SuffixPatternMatches(url)
  {
    forall k | 0 <= k < |ForbiddenExtensions| {
      EndsWithExtensionIff(url, ForbiddenExtensions[k]);
    }
  }

  /**
   * Whether the result file exists, and what reading it as ISO-8859-1 gives.
   * The contents of a missing file are never read.
   */
  datatype Store = Store(present: bool, contents: string)
  {
    /** What the file holds: a missing file holds nothing. */
    function Held(): string {
      if present then contents else ""
    }
  }

  /** How far the loop has got: the result file, and the exception that stopped the loop, if any. */
  datatype Progress = Progress(store: Store, raised: Option<Error>)

  /** `os.path.exists(result_txt) and url in open(result_txt).read()`. */
  predicate AlreadyRecorded(store: Store, url: string) {
    store.present && Contains(store.contents, url)
  }

  /** What happens to one folder. */
  datatype Decision =
    | NoScreenshot
    | Recorded
    | ForbiddenSuffix
    | Classified(verdict: Verdict)
    | Failed(error: Error)
  {
    /** The folder is passed over with `continue`. */
    predicate Skipped() { NoScreenshot? || Recorded? || ForbiddenSuffix? }
  }

  /** The checks of one loop iteration, in source order, then the classification. */
  function Decide(store: Store, s: Sample): (r: Decision)
    ensures r.NoScreenshot? <==> !s.hasShot
    ensures r.Classified? || r.Failed? <==>
      s.hasShot && !AlreadyRecorded(store, Url(s)) && !HasForbiddenSuffix(Url(s))
    ensures r.Classified? ==> Classify(s.boxes, s.matcher, PageOf(s), s.recogTime, s.matchTime) == Done(r.verdict)
    ensures r.Failed? ==> Classify(s.boxes, s.matcher, PageOf(s), s.recogTime, s.matchTime) == Raised(r.error)
    ensures r.Recorded? ==> s.hasShot && AlreadyRecorded(store, Url(s))
    ensures r.ForbiddenSuffix? ==> s.hasShot && !AlreadyRecorded(store, Url(s)) && HasForbiddenSuffix(Url(s))
  {
    if !s.hasShot then NoScreenshot
    else if AlreadyRecorded(store, Url(s)) then Recorded
    else if HasForbiddenSuffix(Url(s)) then ForbiddenSuffix
    else match Classify(s.boxes, s.matcher, PageOf(s), s.recogTime, s.matchTime)
      case Raised(e) => Failed(e)
      case Done(v) => Classified(v)
  }

  /** `str(x)` of an optional string field: the text, or "None". */
  function Str(x: Option<string>): (r: string)
    ensures x.Some? ==> r == x.value
    ensures x.None? ==> r == "None"
  {
    match x
    case Some(t) => t
    case None => "None"
  }

  /** `str(phish_category)`. */
  function CategoryText(category: nat): (r: string)
    ensures category == Benign ==> r == "0"
    ensures category == Phishing ==> r == "1"
  {
    if category == Phishing then "1" else "0"
  }

  /** The eight fields of a record, in the order they are written. */
  function Fields(folder: string, url: string, v: Verdict): (r: seq<string>)
    ensures |r| == 8 && r[0] == folder && r[1] == url && r[2] == CategoryText(v.category)
    ensures r[3] == Str(v.target) && r[4] == Str(v.domain) && r[5] == Str(v.conf)
    ensures r[6] == v.recogTime && r[7] == v.matchTime
  {
    [folder, url, CategoryText(v.category), Str(v.target), Str(v.domain), Str(v.conf), v.recogTime, v.matchTime]
  }

  /** The fields joined by `sep`. */
  function Join(fields: seq<string>, sep: char): string
    requires |fields| > 0
  {
    if |fields| == 1 then fields[0] else fields[0] + [sep] + Join(fields[1..], sep)
  }

  /** Python's `s.split(sep)` for a one-character separator. */
  function Split(s: string, sep: char): (r: seq<string>)
    decreases |s|
    ensures |r| > 0
    ensures forall i :: 0 <= i < |r| ==> sep !in r[i]
  {
    if sep !in s then [s]
    else
      var i := IndexOf(s, sep);
      [s[..i]] + Split(s[i + 1..], sep)
  }

  /** The position of the first `c` in `s`. */
  function IndexOf(s: string, c: char): (r: nat)
    requires c in s
    ensures r < |s| && s[r] == c && c !in s[..r]
  {
    if s[0] == c then 0
    else
      assert c in s[1..] by { var j :| 0 <= j < |s| && s[j] == c; assert s[1..][j - 1] == c; }
      var r := 1 + IndexOf(s[1..], c);
      assert s[..r] == [s[0]] + s[1..][..r - 1];
      r
  }

  /** Splitting a joined list gives the list back when no field holds the separator. */
  lemma {:induction false} SplitJoin(fields: seq<string>, sep: char)
    requires |fields| > 0
    requires forall i :: 0 <= i < |fields| ==> sep !in fields[i]
    ensures Split(Join(fields, sep), sep) == fields
    decreases |fields|
  {
    if |fields| > 1 {
      var s, w, rest := Join(fields, sep), fields[0], Join(fields[1..], sep);
      assert s == w + [sep] + rest;
      assert s[|w|] == sep;
      assert sep in s;
      var i := IndexOf(s, sep);
      assert i == |w|;
      assert s[..i] == w;
      assert s[i + 1..] == rest;
      SplitJoin(fields[1..], sep);
      assert fields == [w] + fields[1..];
    }
  }

  /** The line appended for a classified folder: the eight fields, tab-separated, ended by a newline. */
  function Record(folder: string, url: string, v: Verdict): string {
    Join(Fields(folder, url, v), '\t') + "\n"
  }

  /** The record is what the eight `f.write` calls of the source write, in order. */
  lemma RecordIsWrites(folder: string, url: string, v: Verdict)
    ensures Record(folder, url, v) ==
      folder + ("\t" + (url + ("\t" + (CategoryText(v.category) + ("\t" + (Str(v.target) + ("\t" + (Str(v.domain)
      + ("\t" + (Str(v.conf) + ("\t" + (v.recogTime + ("\t" + (v.matchTime + "\n"))))))))))))))
  {
    var f := Fields(folder, url, v);
    var r7 := f[7];
    assert Join(f[7..], '\t') == r7;
    var r6 := f[6] + ("\t" + r7);
    assert Join(f[6..], '\t') == r6 by { assert f[6..][1..] == f[7..]; }
    var r5 := f[5] + ("\t" + r6);
    assert Join(f[5..], '\t') == r5 by { assert f[5..][1..] == f[6..]; }
    var r4 := f[4] + ("\t" + r5);
    assert Join(f[4..], '\t') == r4 by { assert f[4..][1..] == f[5..]; }
    var r3 := f[3] + ("\t" + r4);
    assert Join(f[3..], '\t') == r3 by { assert f[3..][1..] == f[4..]; }
    var r2 := f[2] + ("\t" + r3);
    assert Join(f[2..], '\t') == r2 by { assert f[2..][1..] == f[3..]; }
    var r1 := f[1] + ("\t" + r2);
    assert Join(f[1..], '\t') == r1 by { assert f[1..][1..] == f[2..]; }
    assert Join(f, '\t') == f[0] + ("\t" + r1);
    assert (f[0] + ("\t" + r1)) + "\n" == f[0] + ("\t" + (f[1] + ("\t" + (f[2] + ("\t" + (f[3] + ("\t" + (f[4]
      + ("\t" + (f[5] + ("\t" + (f[6] + ("\t" + (f[7] + "\n"))))))))))))));
  }

  /**
   * A record ends in a newline, and reading its line back with
   * `split('\t')` gives the eight fields, provided no field holds a tab or
   * a newline.
   */
  lemma RecordRoundTrip(folder: string, url: string, v: Verdict)
    requires forall i :: 0 <= i < 8 ==> '\t' !in Fields(folder, url, v)[i] && '\n' !in Fields(folder, url, v)[i]
    ensures var r := Record(folder, url, v);
      |r| > 0 && r[|r| - 1] == '\n' && Split(r[..|r| - 1], '\t') == Fields(folder, url, v)
  {
    var r := Record(folder, url, v);
    assert r[..|r| - 1] == Join(Fields(folder, url, v), '\t');
    SplitJoin(Fields(folder, url, v), '\t');
  }

  /** The record holds the URL it was written for. */
  lemma RecordHoldsUrl(folder: string, url: string, v: Verdict)
    ensures Contains(Record(folder, url, v), url)
  {
    var f := Fields(folder, url, v);
    var rest := Join(f[2..], '\t');
    assert Join(f[1..], '\t') == url + "\t" + rest by { assert f[1..][1..] == f[2..]; }
    assert Record(folder, url, v) == (folder + "\t") + url + ("\t" + rest + "\n");
    ContainsTrivial(url);
    ContainsInConcat(folder + "\t", url, "\t" + rest + "\n", url);
  }

  /**
   * One iteration of the loop: nothing happens once an exception has escaped.
   * A record is appended to what the file holds; mode "a+" creates a missing
   * file empty first.
   */
  function Step(p: Progress, s: Sample): (r: Progress)
    ensures p.raised.Some? ==> r == p
    ensures p.raised.None? && Decide(p.store, s).Skipped() ==> r == p
    ensures p.raised.None? && Decide(p.store, s).Classified? ==>
      r == Progress(Store(true, p.store.Held() + Record(s.folder, Url(s), Decide(p.store, s).verdict)), None)
    ensures p.raised.None? && Decide(p.store, s).Failed? ==> r == Progress(p.store, Some(Decide(p.store, s).error))
  {
    if p.raised.Some? then p
    else match Decide(p.store, s)
      case Classified(v) => Progress(Store(true, p.store.Held() + Record(s.folder, Url(s), v)), None)
      case Failed(e) => Progress(p.store, Some(e))
      case _ => p
  }

  /** The loop over `samples`, in order, from progress `p`. */
  function Run(p: Progress, samples: seq<Sample>): Progress
    decreases |samples|
  {
    if samples == [] then p else Step(Run(p, samples[..|samples| - 1]), samples[|samples| - 1])
  }

  /** `b` is `a` after some appends: an existing file stays, and what it held is a prefix of `b`. */
  predicate Extends(a: Store, b: Store) {
    a.present ==> b.present && a.contents <= b.contents
  }

  /** The first record goes into a new, empty file: whatever a missing file's contents say is neither kept nor searched. */
  lemma FirstRecordStartsFile(junk: string, s: Sample)
    requires Decide(Store(false, junk), s).Classified?
    ensures Decide(Store(false, junk), s) == Decide(Store(false, ""), s)
    ensures Step(Progress(Store(false, junk), None), s).store == Store(true, Record(s.folder, Url(s), Decide(Store(false, junk), s).verdict))
  {
  }

  /** Once an exception has escaped, later folders are not looked at. */
  lemma {:induction false} RunAfterRaise(p: Progress, samples: seq<Sample>)
    requires p.raised.Some?
    ensures Run(p, samples) == p
    decreases |samples|
  {
    if samples != [] {
      RunAfterRaise(p, samples[..|samples| - 1]);
    }
  }

  /** Running two lists of folders one after the other is running their concatenation. */
  lemma {:induction false} RunConcat(p: Progress, a: seq<Sample>, b: seq<Sample>)
    ensures Run(p, a + b) == Run(Run(p, a), b)
    decreases |b|
  {
    if b == [] {
      assert a + b == a;
    } else {
      assert (a + b)[..|a + b| - 1] == a + b[..|b| - 1];
      assert (a + b)[|a + b| - 1] == b[|b| - 1];
      RunConcat(p, a, b[..|b| - 1]);
    }
  }

  /** The loop only appends to the result file; an exception, once raised, stays. */
  lemma {:induction false} RunExtends(p: Progress, samples: seq<Sample>)
    ensures Extends(p.store, Run(p, samples).store)
    ensures p.raised.Some? ==> Run(p, samples).raised == p.raised
    decreases |samples|
  {
    if samples != [] {
      RunExtends(p, samples[..|samples| - 1]);
    }
  }

  /** An exception is raised at the end only if none had been before. */
  lemma RunNotRaised(p: Progress, samples: seq<Sample>)
    requires Run(p, samples).raised.None?
    ensures p.raised.None?
  {
    if p.raised.Some? {
      RunExtends(p, samples);
    }
  }

  /** A folder passed over stays passed over after further appends. */
  lemma SkipPersists(a: Store, b: Store, s: Sample)
    requires Decide(a, s).Skipped() && Extends(a, b)
    ensures Decide(b, s).Skipped()
  {
    if Decide(a, s).Recorded? {
      var more := b.contents[|a.contents|..];
      assert b.contents == a.contents + more;
      ContainsInLonger(a.contents, more, Url(s));
    }
  }

  /** A folder just classified is passed over as already recorded from then on. */
  lemma ClassifiedThenRecorded(p: Progress, s: Sample)
    requires p.raised.None? && Decide(p.store, s).Classified?
    ensures Decide(Step(p, s).store, s) == Recorded
  {
    var v := Decide(p.store, s).verdict;
    RecordHoldsUrl(s.folder, Url(s), v);
    ContainsInConcat(p.store.Held(), Record(s.folder, Url(s), v), [], Url(s));
    assert p.store.Held() + Record(s.folder, Url(s), v) + [] == Step(p, s).store.contents;
  }

  /** After a run without exception, every folder of the run is passed over on the resulting file. */
  lemma {:induction false} AllSettled(p: Progress, samples: seq<Sample>)
    requires Run(p, samples).raised.None?
    ensures forall j :: 0 <= j < |samples| ==> Decide(Run(p, samples).store, samples[j]).Skipped()
    decreases |samples|
  {
    if samples != [] {
      var init, s := samples[..|samples| - 1], samples[|samples| - 1];
      var q := Run(p, init);
      assert q.raised.None?;
      AllSettled(p, init);
      StepSettles(q, init, s);
      forall j | 0 <= j < |init| ensures samples[j] == init[j] { }
    }
  }

  /** One more step keeps every folder seen so far settled, the new one included. */
  lemma StepSettles(q: Progress, init: seq<Sample>, s: Sample)
    requires Step(q, s).raised.None?
    requires forall j :: 0 <= j < |init| ==> Decide(q.store, init[j]).Skipped()
    ensures forall j :: 0 <= j < |init| ==> Decide(Step(q, s).store, init[j]).Skipped()
    ensures Decide(Step(q, s).store, s).Skipped()
  {
    var f := Step(q, s).store;
    assert Extends(q.store, f);
    forall j | 0 <= j < |init| ensures Decide(f, init[j]).Skipped() {
      SkipPersists(q.store, f, init[j]);
    }
    if Decide(q.store, s).Classified? {
      ClassifiedThenRecorded(q, s);
    }
  }

  /** Folders that are all passed over leave the progress as it is. */
  lemma {:induction false} SkipAllIsIdentity(p: Progress, samples: seq<Sample>)
    requires forall j :: 0 <= j < |samples| ==> Decide(p.store, samples[j]).Skipped()
    ensures Run(p, samples) == p
    decreases |samples|
  {
    if samples != [] {
      SkipAllIsIdentity(p, samples[..|samples| - 1]);
    }
  }

  /**
   * Running the batch a second time over the same folders, on the result
   * file the first run left, changes nothing: every folder is found again
   * by the substring dedup, or skipped for the same reason as before.
   */
  lemma RerunChangesNothing(p: Progress, samples: seq<Sample>)
    requires Run(p, samples).raised.None?
    ensures Run(Run(p, samples), samples) == Run(p, samples)
  {
    AllSettled(p, samples);
    SkipAllIsIdentity(Run(p, samples), samples);
  }

  /**
   * Two folders whose `info.txt` give the same URL are recorded once: the
   * second, if it has a screenshot, finds the URL in the record of the first.
   */
  lemma SameUrlRecordedOnce(p: Progress, s1: Sample, s2: Sample)
    requires p.raised.None? && Decide(p.store, s1).Classified?
    requires Url(s1) == Url(s2) && s2.hasShot
    ensures Decide(Step(p, s1).store, s2) == Recorded
    ensures Run(p, [s1, s2]) == Step(p, s1)
    ensures Run(p, [s1, s2]).store.contents == p.store.Held() + Record(s1.folder, Url(s1), Decide(p.store, s1).verdict)
  {
    assert [s1, s2][..1] == [s1];
    assert [s1][..0] == [];
    assert Run(p, [s1]) == Step(p, s1);
    ClassifiedThenRecorded(p, s1);
    assert Run(p, [s1, s2]) == Step(Step(p, s1), s2);
  }

  /** Dedup is by substring: a URL inside one already recorded is skipped, though it was never classified. */
  lemma UrlInsideRecordedUrlIsSkipped(store: Store, recorded: string, s: Sample)
    requires store.present && Contains(store.contents, recorded) && Contains(recorded, Url(s)) && s.hasShot
    ensures Decide(store, s) == Recorded
  {
    ContainsTransitive(store.contents, recorded, Url(s));
  }

  /** An empty `info.txt` gives the empty URL, which every existing result file contains. */
  lemma EmptyUrlIsSkipped(contents: string, s: Sample)
    requires s.info == Some("") && s.hasShot
    ensures Decide(Store(true, contents), s) == Recorded
  {
    ContainsTrivial(contents);
  }

  /** A site on the `.ai` top-level domain is skipped as if it were an Illustrator file. */
  lemma AiDomainIsSkipped()
    ensures HasForbiddenSuffix("https://example.AI\n")
  {
    var url := "https://example.AI\n";
    assert Images[0] == "ai";
    assert ForbiddenExtensions[|AudioAndArchives + DataFiles + Executables + Fonts|] == "ai";
    assert SuffixMatchAt(url, "ai", 15);
    ForbiddenSuffixIff(url);
  }

  /** The result file, appended to in place. */
  class ResultFile {
    var present: bool
    var contents: string

    constructor (present: bool, contents: string)
      ensures this.present == present && this.contents == contents
    {
      this.present := present;
      this.contents := contents;
    }

    /** Whether the file exists, and what it holds. */
    function State(): Store
      reads this
    {
      Store(present, contents)
    }

    /** `f.write(text)` on the file opened with mode "a+", which creates it empty when missing. */
    method Write(text: string)
      modifies this
      ensures present && contents == old(State().Held()) + text
    {
      if !present {
        contents := "";
      }
      present := true;
      contents := contents + text;
    }
  }

  /**
   * The loop of the `__main__` block over the listed folders. It returns the
   * exception that ended it, if one escaped; the records written before it
   * stay in the file.
   */
  method ProcessFolders(samples: seq<Sample>, file: ResultFile) returns (raised: Option<Error>)
    modifies file
    ensures Progress(file.State(), raised) == Run(Progress(old(file.State()), None), samples)
  {
    ghost var start := Progress(file.State(), None);
    for i := 0 to |samples|
      invariant Progress(file.State(), None) == Run(start, samples[..i])
    {
      assert samples[..i + 1][..i] == samples[..i];
      var s := samples[i];
      if !s.hasShot {
        continue;
      }
      var page := if s.htmlTxt.Some? then s.htmlTxt.value else s.indexHtml;
      var url := if s.info.Some? then s.info.value else Scheme + s.folder;
      if file.present && Contains(file.contents, url) {
        continue;
      }
      if HasForbiddenSuffix(url) {
        continue;
      }
      var outcome := Classify(s.boxes, s.matcher, page, s.recogTime, s.matchTime);
      if outcome.Raised? {
        raised := Some(outcome.error);
        RunConcat(start, samples[..i + 1], samples[i + 1..]);
        assert samples[..i + 1] + samples[i + 1..] == samples;
        RunAfterRaise(Progress(file.State(), raised), samples[i + 1..]);
        return;
      }
      var v := outcome.value;
      file.Write(Record(s.folder, url, v));
    }
    raised := None;
    assert samples[..|samples|] == samples;
  }
}
