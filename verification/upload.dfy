/** The decisions the two upload handlers (`handle_docs` for the Bot API
    client, `handle_html_file` for the MTProto client) take around
    `html_to_txt`: the `.html` suffix gate, the "no valid text" rejection, the
    contents of the three reply files and, for `handle_docs`, their paths.
    Downloading, writing, sending and deleting files are left to the caller. */
module Upload {
  import opened Wrappers
  import opened PyStr
  import opened Tree
  import opened Extract
  import Properties

  const HtmlSuffix: string := ".html"

  /** Uploads are saved under this directory by `handle_docs`. */
  const DownloadDir: string := "downloads/"

  /** `file_name.endswith(".html")`: a case-sensitive suffix test. */
  predicate IsHtmlName(fileName: string)
  {
    EndsWith(fileName, HtmlSuffix)
  }

  /** `not extracted_text.strip()`. */
  predicate HasNoValidText(text: string)
  {
    Strip(text) == ""
  }

  function DownloadPath(fileName: string): string
  {
    DownloadDir + fileName
  }

  datatype OutputPaths = OutputPaths(txt: string, urls: string, videos: string)

  /** `html_path.replace(".html", suffix)` for the three outputs. */
  function OutputPathsOf(htmlPath: string): OutputPaths
  {
    OutputPaths(
      Replace(htmlPath, HtmlSuffix, ".txt"),
      Replace(htmlPath, HtmlSuffix, "_urls.txt"),
      Replace(htmlPath, HtmlSuffix, "_videos.txt"))
  }

  /** How a handler answers one uploaded document. */
  datatype Reply =
    | NotHtml                       // "Please upload an HTML file."
    | Raised(error: ExtractError)   // the exception `html_to_txt` let through
    | NoValidText                   // "contains no valid text content"
    | Delivered(text: string, urlsFile: string, videosFile: string)

  /** One upload: `fileName` as sent, `doc` the parse of its bytes. The file
      contents are the text as is and the URL and video lists joined with
      newlines. */
  function Handle(fileName: string, doc: Node): Reply
  {
    if !IsHtmlName(fileName) then NotHtml
    else
      match ExtractAll(doc)
      case Failure(e) => Raised(e)
      case Success(x) =>
        if HasNoValidText(x.text) then NoValidText
        else Delivered(x.text, Join(x.urls, "\n"), Join(x.videos, "\n"))
  }

  /** A name is turned away before any extraction exactly when it does not end
      in `.html`. */
  lemma GateRejectsIff(fileName: string, doc: Node)
    ensures Handle(fileName, doc) == NotHtml <==> !IsHtmlName(fileName)
  {
  }

  /** The suffix test is case-sensitive and looks at the whole suffix. */
  lemma GateExamples()
    ensures IsHtmlName("page.html")
    ensures !IsHtmlName("page.HTML")
    ensures !IsHtmlName("notes.pdf")
  {
    assert "page.HTML"[4..][1] == 'H';
    assert "notes.pdf"[4..][0] == 's';
  }

  /** A `.html` upload is rejected as empty exactly when extraction succeeds and
      every paragraph, anchor, heading and list item is an unlinked element
      with no text: the joined text is then at most a run of newlines. */
  lemma RejectsEmptyIff(fileName: string, doc: Node)
    requires IsHtmlName(fileName)
    ensures Handle(fileName, doc) == NoValidText <==>
      && ExtractAll(doc).Success?
      && forall i :: 0 <= i < |Tags(doc)| ==> !IsLinked(Tags(doc)[i]) && GetTextStripped(Tags(doc)[i]) == ""
  {
    Properties.NoValidTextIff(doc);
  }

  /** A delivered reply carries text with at least one non-blank character, and
      a URL file that holds every collected URL. */
  lemma DeliveredContents(fileName: string, doc: Node)
    requires Handle(fileName, doc).Delivered?
    ensures var d := Handle(fileName, doc);
            && !AllSpace(d.text)
            && d.text == TextOf(doc)
            && forall u :: u in UrlsOf(doc) ==> IsInfix(u, d.urlsFile)
  {
    var d := Handle(fileName, doc);
    var urls := UrlsOf(doc);
    forall u | u in urls
      ensures IsInfix(u, d.urlsFile)
    {
      var k :| 0 <= k < |urls| && urls[k] == u;
      JoinHasPart(urls, "\n", k);
    }
  }

  /** `.html` is border-free: no proper prefix of it is also a suffix. */
  lemma HtmlSuffixBorderFree()
    ensures BorderFree(HtmlSuffix)
  {
    forall k | 0 < k < |HtmlSuffix|
      ensures HtmlSuffix[k..] != HtmlSuffix[..|HtmlSuffix| - k]
    {
      assert HtmlSuffix[..|HtmlSuffix| - k][0] == '.';
      assert HtmlSuffix[k..][0] != '.';
    }
  }

  /** The download directory holds no `.`, so `.html` can only occur inside
      the file name. */
  lemma DownloadPathInfix(base: string)
    requires !IsInfix(HtmlSuffix, base)
    ensures !IsInfix(HtmlSuffix, DownloadDir + base)
  {
    var s := DownloadDir + base;
    forall i | InfixAt(HtmlSuffix, s, i)
      ensures InfixAt(HtmlSuffix, base, i - |DownloadDir|)
    {
      assert s[i] == s[i..i + |HtmlSuffix|][0] == '.';
      assert forall j :: 0 <= j < |DownloadDir| ==> s[j] == DownloadDir[j] != '.';
      assert s[i..i + |HtmlSuffix|] == base[i - |DownloadDir|..i - |DownloadDir| + |HtmlSuffix|];
    }
  }

  /** For a name with one `.html`, at its end, each output path is the download
      path with the suffix swapped. */
  lemma OutputPathsSingleSuffix(base: string)
    requires !IsInfix(HtmlSuffix, base)
    ensures OutputPathsOf(DownloadPath(base + HtmlSuffix)) ==
      OutputPaths(DownloadDir + base + ".txt", DownloadDir + base + "_urls.txt", DownloadDir + base + "_videos.txt")
  {
    HtmlSuffixBorderFree();
    DownloadPathInfix(base);
    assert DownloadPath(base + HtmlSuffix) == (DownloadDir + base) + HtmlSuffix;
    ReplaceTrailing(DownloadDir + base, HtmlSuffix, ".txt");
    ReplaceTrailing(DownloadDir + base, HtmlSuffix, "_urls.txt");
    ReplaceTrailing(DownloadDir + base, HtmlSuffix, "_videos.txt");
  }

  /** Every occurrence is replaced, not just the last:
      `a.html.html` becomes `a.txt.txt`. */
  lemma OutputPathsReplaceEvery()
    ensures OutputPathsOf("a.html.html").txt == "a.txt.txt"
  {
    var s := "a.html.html";
    ReplaceTwice(".txt");
    assert s[1..] == HtmlSuffix + HtmlSuffix;
    assert s[..5][0] == 'a';
    assert Replace(s, HtmlSuffix, ".txt") == [s[0]] + Replace(s[1..], HtmlSuffix, ".txt");
  }

  lemma ReplaceTwice(repl: string)
    ensures Replace(HtmlSuffix + HtmlSuffix, HtmlSuffix, repl) == repl + repl
  {
    var t := HtmlSuffix + HtmlSuffix;
    ReplaceWhole(repl);
    assert t[..5] == HtmlSuffix && t[5..] == HtmlSuffix;
  }

  lemma ReplaceWhole(repl: string)
    ensures Replace(HtmlSuffix, HtmlSuffix, repl) == repl
  {
    assert HtmlSuffix[5..] == [];
    assert repl + [] == repl;
  }

  /** A name that passes the gate gives four different paths, so writing the
      outputs never overwrites the upload or one another. */
  lemma OutputPathsDistinct(fileName: string)
    requires IsHtmlName(fileName)
    ensures var h := DownloadPath(fileName);
            var p := OutputPathsOf(h);
            |{h, p.txt, p.urls, p.videos}| == 4
  {
    var h := DownloadPath(fileName);
    assert InfixAt(HtmlSuffix, h, |h| - |HtmlSuffix|);
    CountPositive(h, HtmlSuffix);
    var p := OutputPathsOf(h);
    assert |p.txt| < |h| < |p.urls| < |p.videos|;
  }
}
