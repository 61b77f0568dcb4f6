/** `html_to_txt`: from a parsed document, the newline-joined text of every
    paragraph, anchor, heading and list item, the anchors' link targets, and
    the `name:link` pairs found in table rows. */
module Extract {
  import opened Wrappers
  import opened Seqs
  import opened PyStr
  import opened Tree

  /** The tags whose text becomes a fragment. */
  const QualifyingTags: set<string> := {"p", "a", "h1", "h2", "h3", "h4", "h5", "h6", "li"}

  /** Indexing an element's attributes with a missing key raises `KeyError`. */
  datatype ExtractError = KeyError(key: string)

  datatype Extraction = Extraction(text: string, urls: seq<string>, videos: seq<string>)

  /** `tag.get(key)`. */
  function Attr(n: Node, key: string): Option<string>
  {
    if n.Elem? && key in n.attrs then Some(n.attrs[key]) else None
  }

  /** An anchor whose `href` is present and non-empty, the test `tag.get("href")`
      makes truthy. */
  predicate IsLinked(n: Node)
  {
    n.Elem? && n.name == "a" && Attr(n, "href").GetOr("") != ""
  }

  function Href(n: Node): string
  {
    Attr(n, "href").GetOr("")
  }

  function LinkSuffix(href: string): string
  {
    " (Link: " + href + ")"
  }

  /** The text one qualifying element contributes. */
  function Fragment(tag: Node): string
  {
    var text := GetTextStripped(tag);
    if IsLinked(tag) then text + LinkSuffix(Href(tag)) else text
  }

  function FragmentList(tags: seq<Node>): seq<string>
  {
    Map(Fragment, tags)
  }

  function Hrefs(ns: seq<Node>): seq<string>
  {
    Map(Href, ns)
  }

  /** The targets of the linked anchors among `tags`, in order. */
  function LinkedHrefs(tags: seq<Node>): seq<string>
  {
    Hrefs(Filter(IsLinked, tags))
  }

  /** The qualifying elements of the document, in document order. */
  function Tags(doc: Node): seq<Node>
  {
    FindAll(doc, QualifyingTags)
  }

  function FragmentsOf(doc: Node): seq<string>
  {
    FragmentList(Tags(doc))
  }

  function TextOf(doc: Node): string
  {
    Join(FragmentsOf(doc), "\n")
  }

  function UrlsOf(doc: Node): seq<string>
  {
    LinkedHrefs(Tags(doc))
  }

  /** `row.find_all('td')`. */
  function Cells(row: Node): seq<Node>
  {
    FindAll(row, {"td"})
  }

  /** The first anchor inside the second cell, when the row has two cells. */
  function SecondCellAnchor(row: Node): Option<Node>
  {
    var cols := Cells(row);
    if |cols| > 1 then Find(cols[1], "a") else None
  }

  /** The row makes `cols[1].find('a')['href']` raise: the anchor is there but
      has no `href` attribute at all. */
  predicate RowRaises(row: Node)
  {
    var a := SecondCellAnchor(row);
    a.Some? && Attr(a.value, "href").None?
  }

  /** What one table row adds to the video list: nothing, one `name:link`
      entry, or a `KeyError`. */
  function RowVideo(row: Node): Result<Option<string>, ExtractError>
  {
    var cols := Cells(row);
    if |cols| > 1 then
      var name := Strip(GetText(cols[0]));
      var a := Find(cols[1], "a");
      if a.Some? && "href" !in a.value.attrs then Failure(KeyError("href"))
      else
        var link := if a.Some? then a.value.attrs["href"] else "";
        if link != "" then Success(Some(name + ":" + link)) else Success(None)
    else Success(None)
  }

  /** A row raises exactly when its second cell's first anchor lacks `href`;
      it yields nothing when it has fewer than two cells, no such anchor, or an
      empty `href`; otherwise it yields one entry: the first cell's text
      stripped, a colon, and the anchor's non-empty `href`. */
  lemma RowVideoSpec(row: Node)
    ensures RowVideo(row).Failure? <==> RowRaises(row)
    ensures RowVideo(row).Failure? ==> RowVideo(row).error == KeyError("href")
    ensures RowVideo(row) == Success(None) <==>
      || |Cells(row)| < 2
      || SecondCellAnchor(row).None?
      || Attr(SecondCellAnchor(row).value, "href") == Some("")
    ensures RowVideo(row).Success? && RowVideo(row).value.Some? ==>
      && |Cells(row)| > 1
      && SecondCellAnchor(row).Some?
      && Href(SecondCellAnchor(row).value) != ""
      && RowVideo(row).value.value == Strip(GetText(Cells(row)[0])) + ":" + Href(SecondCellAnchor(row).value)
  {
  }

  /** A row with no anchor anywhere below it adds nothing and cannot raise. */
  lemma RowWithoutAnchors(row: Node)
    requires forall x :: x in Descendants(row) ==> !Named(x, {"a"})
    ensures RowVideo(row) == Success(None)
  {
    var cols := Cells(row);
    if |cols| > 1 {
      forall y | y in Descendants(cols[1])
        ensures !Named(y, {"a"})
      {
        DescendantsTransitive(row, cols[1], y);
      }
    }
  }

  /** Entries of `rows` in order; the first raising row aborts the scan. */
  function CollectVideos(rows: seq<Node>): Result<seq<string>, ExtractError>
  {
    Gather(Outcomes(rows))
  }

  /** What each row adds, row by row. */
  function Outcomes(rows: seq<Node>): seq<Result<Option<string>, ExtractError>>
  {
    Map(RowVideo, rows)
  }

  /** Folds per-row outcomes left to right: the first failure wins, otherwise
      the entries are concatenated. */
  function Gather(outcomes: seq<Result<Option<string>, ExtractError>>): Result<seq<string>, ExtractError>
    decreases |outcomes|
  {
    if outcomes == [] then Success([])
    else
      match outcomes[0]
      case Failure(e) => Failure(e)
      case Success(entry) => Combine(Success(Entries(entry)), Gather(outcomes[1..]))
  }

  function Entries(entry: Option<string>): seq<string>
  {
    if entry.Some? then [entry.value] else []
  }

  /** Two scans in sequence: the first failure wins, otherwise the entries
      are concatenated. */
  function Combine(x: Result<seq<string>, ExtractError>, y: Result<seq<string>, ExtractError>): Result<seq<string>, ExtractError>
  {
    match x
    case Failure(e) => Failure(e)
    case Success(a) =>
      match y
      case Failure(e) => Failure(e)
      case Success(b) => Success(a + b)
  }

  /** `table.find_all('tr')`. */
  function TableRows(table: Node): seq<Node>
  {
    FindAll(table, {"tr"})
  }

  /** The rows `table.find_all('tr')` yields for each table in turn. */
  function RowsOf(tables: seq<Node>): seq<Node>
  {
    Flatten(Map(TableRows, tables))
  }

  /** Every row the video scan visits: rows of nested tables appear once for
      each enclosing table. */
  function VisitedRows(doc: Node): seq<Node>
  {
    RowsOf(FindAll(doc, {"table"}))
  }

  function VideosOf(doc: Node): Result<seq<string>, ExtractError>
  {
    CollectVideos(VisitedRows(doc))
  }

  /** Every visited row lies inside the document. */
  lemma VisitedRowsBelow(doc: Node, row: Node)
    requires row in VisitedRows(doc)
    ensures row in Descendants(doc)
  {
    var tables := FindAll(doc, {"table"});
    FlattenMember(Map(TableRows, tables), row);
    var i :| 0 <= i < |tables| && row in Map(TableRows, tables)[i];
    var rows := TableRows(tables[i]);
    assert rows == Map(TableRows, tables)[i];
    var j :| 0 <= j < |rows| && rows[j] == row;
    DescendantsTransitive(doc, tables[i], row);
  }

  /** Rows that each add nothing add nothing together. */
  lemma {:induction false} GatherNone(os: seq<Result<Option<string>, ExtractError>>)
    requires forall i :: 0 <= i < |os| ==> os[i] == Success(None)
    ensures Gather(os) == Success([])
    decreases |os|
  {
    if os != [] {
      GatherNone(os[1..]);
      assert Entries(None) + [] == [];
    }
  }

  /** The three outputs of `html_to_txt`, or the exception it raises. */
  function ExtractAll(doc: Node): Result<Extraction, ExtractError>
  {
    var videos :- VideosOf(doc);
    Success(Extraction(TextOf(doc), UrlsOf(doc), videos))
  }

  /** `html_to_txt` as the source runs it: one loop over the qualifying
      elements, then a loop over tables with a nested loop over their rows. */
  method HtmlToTxt(doc: Node) returns (r: Result<Extraction, ExtractError>)
    ensures r == ExtractAll(doc)
  {
    var textContent, urls := ScanTags(FindAll(doc, QualifyingTags));
    var videos := ScanTables(FindAll(doc, {"table"}));
    if videos.Failure? {
      return Failure(videos.error);
    }
    r := Success(Extraction(Join(textContent, "\n"), urls, videos.value));
  }

  /** The loop over `soup.find_all([...])`: one fragment per element, and the
      target of each linked anchor. */
  method ScanTags(tags: seq<Node>) returns (textContent: seq<string>, urls: seq<string>)
    requires forall i :: 0 <= i < |tags| ==> tags[i].Elem?
    ensures textContent == FragmentList(tags)
    ensures urls == LinkedHrefs(tags)
  {
    textContent := [];
    urls := [];
    var i := 0;
    while i < |tags|
      invariant 0 <= i <= |tags|
      invariant textContent == FragmentList(tags[..i])
      invariant urls == LinkedHrefs(tags[..i])
    {
      var tag := tags[i];
      var text := GetTextStripped(tag);
      if tag.name == "a" && Attr(tag, "href").GetOr("") != "" {
        var url := tag.attrs["href"];
        urls := urls + [url];
        text := text + LinkSuffix(url);
      }
      assert text == Fragment(tag);
      textContent := textContent + [text];
      FragmentListSnoc(tags[..i], tag);
      LinkedHrefsSnoc(tags[..i], tag);
      assert tags[..i + 1] == tags[..i] + [tag];
      i := i + 1;
    }
    assert tags[..i] == tags;
  }

  /** The loop over `soup.find_all('table')`; the first raising row aborts the
      whole scan. */
  method ScanTables(tables: seq<Node>) returns (r: Result<seq<string>, ExtractError>)
    ensures r == CollectVideos(RowsOf(tables))
  {
    var videos: seq<string> := [];
    var t := 0;
    while t < |tables|
      invariant 0 <= t <= |tables|
      invariant CollectVideos(RowsOf(tables[..t])) == Success(videos)
    {
      var found := ScanRows(TableRows(tables[t]));
      TableStep(tables, t);
      if found.Failure? {
        return Failure(found.error);
      }
      videos := videos + found.value;
      t := t + 1;
    }
    assert tables[..t] == tables;
    r := Success(videos);
  }

  /** The loop over `table.find_all('tr')`. */
  method ScanRows(rows: seq<Node>) returns (r: Result<seq<string>, ExtractError>)
    ensures r == CollectVideos(rows)
  {
    var videos: seq<string> := [];
    var k := 0;
    while k < |rows|
      invariant 0 <= k <= |rows|
      invariant CollectVideos(rows[..k]) == Success(videos)
    {
      var entry := RowVideo(rows[k]);
      RowStep(rows, k);
      if entry.Failure? {
        return Failure(entry.error);
      }
      videos := videos + Entries(entry.value);
      k := k + 1;
    }
    assert rows[..k] == rows;
    r := Success(videos);
  }

  lemma FragmentListSnoc(tags: seq<Node>, tag: Node)
    ensures FragmentList(tags + [tag]) == FragmentList(tags) + [Fragment(tag)]
  {
  }

  lemma LinkedHrefsSnoc(tags: seq<Node>, tag: Node)
    ensures LinkedHrefs(tags + [tag]) == LinkedHrefs(tags) + (if IsLinked(tag) then [Href(tag)] else [])
  {
    FilterConcat(IsLinked, tags, [tag]);
    assert Filter(IsLinked, [tag]) == (if IsLinked(tag) then [tag] else []) + Filter(IsLinked, []);
  }

  lemma RowsOfConcat(a: seq<Node>, b: seq<Node>)
    ensures RowsOf(a + b) == RowsOf(a) + RowsOf(b)
  {
    MapConcat(TableRows, a, b);
    FlattenConcat(Map(TableRows, a), Map(TableRows, b));
  }

  lemma RowsOfSnoc(tables: seq<Node>, table: Node)
    ensures RowsOf(tables + [table]) == RowsOf(tables) + TableRows(table)
  {
    RowsOfConcat(tables, [table]);
    assert Map(TableRows, [table]) == [TableRows(table)];
    assert Flatten([TableRows(table)]) == TableRows(table) + Flatten([]);
  }

  lemma {:induction false} GatherConcat(a: seq<Result<Option<string>, ExtractError>>, b: seq<Result<Option<string>, ExtractError>>)
    ensures Gather(a + b) == Combine(Gather(a), Gather(b))
    decreases |a|
  {
    if a == [] {
      assert a + b == b;
      if Gather(b).Success? {
        assert [] + Gather(b).value == Gather(b).value;
      }
    } else {
      assert (a + b)[0] == a[0];
      assert (a + b)[1..] == a[1..] + b;
      GatherConcat(a[1..], b);
      match a[0]
      case Failure(e) =>
      case Success(entry) =>
        var x := Gather(a[1..]);
        var y := Gather(b);
        if x.Success? && y.Success? {
          assert Entries(entry) + (x.value + y.value) == (Entries(entry) + x.value) + y.value;
        }
    }
  }

  /** The scan of `a + b` is the scan of `a` followed by the scan of `b`,
      stopping at the first raising row. */
  lemma CollectConcat(a: seq<Node>, b: seq<Node>)
    ensures CollectVideos(a + b) == Combine(CollectVideos(a), CollectVideos(b))
  {
    MapConcat(RowVideo, a, b);
    GatherConcat(Outcomes(a), Outcomes(b));
  }

  /** Once the rows of the first `t` tables raise, the rest are never looked at. */
  lemma FailureStops(tables: seq<Node>, t: int)
    requires 0 <= t <= |tables|
    requires CollectVideos(RowsOf(tables[..t])).Failure?
    ensures CollectVideos(RowsOf(tables)) == CollectVideos(RowsOf(tables[..t]))
  {
    assert tables == tables[..t] + tables[t..];
    RowsOfConcat(tables[..t], tables[t..]);
    CollectConcat(RowsOf(tables[..t]), RowsOf(tables[t..]));
  }

  /** One step of the table loop: the rows of one more table are scanned, and
      once that fails the remaining tables are never looked at. */
  lemma TableStep(tables: seq<Node>, t: int)
    requires 0 <= t < |tables|
    ensures CollectVideos(RowsOf(tables[..t + 1]))
      == Combine(CollectVideos(RowsOf(tables[..t])), CollectVideos(TableRows(tables[t])))
    ensures CollectVideos(RowsOf(tables[..t + 1])).Failure? ==>
      CollectVideos(RowsOf(tables)) == CollectVideos(RowsOf(tables[..t + 1]))
  {
    RowsOfSnoc(tables[..t], tables[t]);
    CollectConcat(RowsOf(tables[..t]), TableRows(tables[t]));
    assert tables[..t + 1] == tables[..t] + [tables[t]];
    if CollectVideos(RowsOf(tables[..t + 1])).Failure? {
      FailureStops(tables, t + 1);
    }
  }

  /** One step of the row loop: the prefix grows by one row, or the scan of
      all rows fails with that row's error. */
  lemma RowStep(rows: seq<Node>, k: int)
    requires 0 <= k < |rows|
    ensures RowVideo(rows[k]).Success? ==>
      CollectVideos(rows[..k + 1]) == Combine(CollectVideos(rows[..k]), Success(Entries(RowVideo(rows[k]).value)))
    ensures CollectVideos(rows[..k]).Success? && RowVideo(rows[k]).Failure? ==>
      CollectVideos(rows) == Failure(RowVideo(rows[k]).error)
  {
    var row := rows[k];
    CollectSnoc(rows[..k], row);
    assert rows[..k + 1] == rows[..k] + [row];
    assert rows == rows[..k + 1] + rows[k + 1..];
    CollectConcat(rows[..k + 1], rows[k + 1..]);
  }

  lemma CollectSnoc(rows: seq<Node>, row: Node)
    ensures CollectVideos(rows + [row]) == Combine(CollectVideos(rows), CollectVideos([row]))
    ensures CollectVideos([row]) ==
      match RowVideo(row)
      case Failure(e) => Failure(e)
      case Success(entry) => Success(Entries(entry))
  {
    CollectConcat(rows, [row]);
    var o := [RowVideo(row)];
    assert Outcomes([row]) == o;
    assert o[1..] == [];
    assert Gather(o[1..]) == Success([]);
    match RowVideo(row)
    case Failure(e) =>
    case Success(entry) =>
      assert Entries(entry) + [] == Entries(entry);
  }

}
