/** Worked examples of `html_to_txt` on small parsed documents. */
module Scenarios {
  import opened Wrappers
  import opened Seqs
  import opened PyStr
  import opened Tree
  import opened Extract

  function Doc(children: seq<Node>): Node
  {
    Elem("[document]", map[], children)
  }

  lemma SingleTextDescendants(name: string, attrs: map<string, string>, s: string)
    ensures Descendants(Elem(name, attrs, [Text(s)])) == [Text(s)]
  {
    assert Forest([Text(s)]) == [Text(s)] + [] + Forest([]);
  }

  lemma SingleString(s: string)
    ensures Strings([Text(s)]) == [s]
  {
    assert Strings([Text(s)]) == [s] + Strings([]);
  }

  lemma SingleStripped(s: string)
    requires s != "" && Unpadded(s)
    ensures StrippedStrings([s]) == [s]
  {
    StripUnique([], s, []);
    assert [] + s + [] == s;
    assert StrippedStrings([s]) == [s] + StrippedStrings([]);
  }

  /** An element holding a single unpadded text node reads as that text. */
  lemma SingleTextElement(name: string, attrs: map<string, string>, s: string)
    requires s != "" && Unpadded(s)
    ensures Descendants(Elem(name, attrs, [Text(s)])) == [Text(s)]
    ensures GetTextStripped(Elem(name, attrs, [Text(s)])) == s
    ensures GetText(Elem(name, attrs, [Text(s)])) == s
  {
    SingleTextDescendants(name, attrs, s);
    SingleString(s);
    SingleStripped(s);
  }

  /** `<p>x <b>y</b></p>`: two text nodes, the first with a trailing space. */
  function Spaced(x: char, y: char): Node
  {
    Elem("p", map[], [Text([x, ' ']), Elem("b", map[], [Text([y])])])
  }

  lemma SpacedStrings(x: char, y: char)
    ensures Strings(Descendants(Spaced(x, y))) == [[x, ' '], [y]]
  {
    var bold := Elem("b", map[], [Text([y])]);
    SingleTextDescendants("b", map[], [y]);
    assert Forest([bold]) == [bold] + [Text([y])] + Forest([]);
    assert Forest([Text([x, ' ']), bold]) == [Text([x, ' '])] + [] + Forest([bold]);
    var d := [Text([x, ' ']), bold, Text([y])];
    assert Descendants(Spaced(x, y)) == d;
    assert d[1..][1..] == [Text([y])];
    SingleString([y]);
    assert Strings(d[1..]) == [] + Strings([Text([y])]);
    assert Strings(d) == [[x, ' ']] + Strings(d[1..]);
  }

  lemma SpacedPieces(x: char, y: char)
    requires !IsSpace(x) && !IsSpace(y)
    ensures StrippedStrings([[x, ' '], [y]]) == [[x], [y]]
  {
    StripUnique([], [x], [' ']);
    assert [] + [x] + [' '] == [x, ' '];
    StripUnique([], [y], []);
    assert [] + [y] + [] == [y];
    StrippedPair([x, ' '], [y]);
  }

  lemma StrippedPair(s: string, t: string)
    requires Strip(s) != "" && Strip(t) != ""
    ensures StrippedStrings([s, t]) == [Strip(s), Strip(t)]
  {
    assert [s, t][1..] == [t];
    assert [t][1..] == [];
    assert StrippedStrings([t]) == [Strip(t)] + StrippedStrings([]);
  }

  lemma TextsOf(n: Node, ss: seq<string>)
    requires Strings(Descendants(n)) == ss
    ensures GetTextStripped(n) == Join(StrippedStrings(ss), "")
    ensures GetText(n) == Join(ss, "")
  {
  }

  lemma SpacedStripped(x: char, y: char)
    requires !IsSpace(x) && !IsSpace(y)
    ensures GetTextStripped(Spaced(x, y)) == [x, y]
  {
    SpacedStrings(x, y);
    TextsOf(Spaced(x, y), [[x, ' '], [y]]);
    SpacedPieces(x, y);
    JoinTwo([x], [y], "");
  }

  lemma SpacedPlain(x: char, y: char)
    requires !IsSpace(x) && !IsSpace(y)
    ensures Strip(GetText(Spaced(x, y))) == [x, ' ', y]
  {
    SpacedStrings(x, y);
    TextsOf(Spaced(x, y), [[x, ' '], [y]]);
    JoinTwo([x, ' '], [y], "");
    var m := [x, ' ', y];
    assert [x, ' '] + "" + [y] == m;
    StripUnique([], m, []);
    assert [] + m + [] == m;
  }

  /** `get_text(strip=True)` strips each text node, so the space between `x`
      and `y` in `<p>x <b>y</b></p>` disappears; stripping the plain
      `get_text()` keeps it. */
  lemma StripPerNode(x: char, y: char)
    requires !IsSpace(x) && !IsSpace(y)
    ensures GetTextStripped(Spaced(x, y)) == [x, y]
    ensures Strip(GetText(Spaced(x, y))) == [x, ' ', y]
  {
    SpacedStripped(x, y);
    SpacedPlain(x, y);
  }

  /** `<p>Hello</p>` and `<a href="http://x.com">Site</a>`. */
  function Para(): Node
  {
    Elem("p", map[], [Text("Hello")])
  }

  function Link(): Node
  {
    Elem("a", map["href" := "http://x.com"], [Text("Site")])
  }

  lemma ParagraphAndLinkDescendants()
    ensures Descendants(Doc([Para(), Link()])) == [Para(), Text("Hello")] + [Link(), Text("Site")]
  {
    var p, a := Para(), Link();
    SingleTextDescendants("p", map[], "Hello");
    SingleTextDescendants("a", map["href" := "http://x.com"], "Site");
    assert Forest([a]) == [a] + [Text("Site")] + Forest([]);
    assert Forest([p, a]) == [p] + [Text("Hello")] + Forest([a]);
  }

  lemma ParagraphAndLinkTags()
    ensures Tags(Doc([Para(), Link()])) == [Para(), Link()]
  {
    var p, a := Para(), Link();
    ParagraphAndLinkDescendants();
    var q := (x: Node) => Named(x, QualifyingTags);
    FilterConcat(q, [p, Text("Hello")], [a, Text("Site")]);
    Filter2(q, p, Text("Hello"));
    Filter2(q, a, Text("Site"));
    FindAllIsFilter(Doc([p, a]), QualifyingTags);
  }

  lemma ParagraphAndLinkNoTables()
    ensures FindAll(Doc([Para(), Link()]), {"table"}) == []
  {
    var p, a := Para(), Link();
    ParagraphAndLinkDescendants();
    var t := (x: Node) => Named(x, {"table"});
    FilterConcat(t, [p, Text("Hello")], [a, Text("Site")]);
    Filter2(t, p, Text("Hello"));
    Filter2(t, a, Text("Site"));
    FindAllIsFilter(Doc([p, a]), {"table"});
  }

  lemma JoinTwo(x: string, y: string, sep: string)
    ensures Join([x, y], sep) == x + sep + y
  {
    assert [x, y][1..] == [y];
  }

  lemma ParagraphFragment()
    ensures Fragment(Para()) == "Hello"
  {
    SingleTextElement("p", map[], "Hello");
  }

  lemma LinkFragment()
    ensures IsLinked(Link()) && Href(Link()) == "http://x.com"
    ensures Fragment(Link()) == "Site" + LinkSuffix("http://x.com")
  {
    SingleTextElement("a", map["href" := "http://x.com"], "Site");
  }

  lemma ParagraphAndLinkPieces()
    ensures FragmentsOf(Doc([Para(), Link()])) == ["Hello", "Site" + LinkSuffix("http://x.com")]
  {
    ParagraphAndLinkTags();
    ParagraphFragment();
    LinkFragment();
    MapPair(Fragment, Para(), Link());
  }

  lemma ParagraphAndLinkText()
    ensures TextOf(Doc([Para(), Link()])) == "Hello" + "\n" + "Site" + LinkSuffix("http://x.com")
  {
    ParagraphAndLinkPieces();
    TextOfFragments(Doc([Para(), Link()]), ["Hello", "Site" + LinkSuffix("http://x.com")]);
    JoinTwo("Hello", "Site" + LinkSuffix("http://x.com"), "\n");
  }

  lemma TextOfFragments(doc: Node, fs: seq<string>)
    requires FragmentsOf(doc) == fs
    ensures TextOf(doc) == Join(fs, "\n")
  {
  }

  lemma ParagraphAndLinkUrls()
    ensures UrlsOf(Doc([Para(), Link()])) == ["http://x.com"]
  {
    ParagraphAndLinkTags();
    ParagraphAndLinkLinked();
    UrlsOfTags(Doc([Para(), Link()]), [Para(), Link()]);
    LinkHref();
  }

  lemma LinkHref()
    ensures Map(Href, [Link()]) == ["http://x.com"]
  {
    assert Href(Link()) == "http://x.com";
  }

  lemma UrlsOfTags(doc: Node, tags: seq<Node>)
    requires Tags(doc) == tags
    ensures UrlsOf(doc) == Map(Href, Filter(IsLinked, tags))
  {
  }

  lemma ParagraphAndLinkLinked()
    ensures Filter(IsLinked, [Para(), Link()]) == [Link()]
  {
    assert !IsLinked(Para());
    assert IsLinked(Link());
    Filter2(IsLinked, Para(), Link());
  }

  lemma ParagraphAndLinkVideos()
    ensures VideosOf(Doc([Para(), Link()])) == Success([])
  {
    ParagraphAndLinkNoTables();
    assert RowsOf([]) == [];
    assert Outcomes([]) == [];
  }

  /** `<p>Hello</p><a href="http://x.com">Site</a>` gives the text
      `Hello\nSite (Link: http://x.com)`, one URL and no video. */
  lemma ParagraphAndLink()
    ensures ExtractAll(Doc([Para(), Link()]))
      == Success(Extraction("Hello" + "\n" + "Site" + LinkSuffix("http://x.com"), ["http://x.com"], []))
  {
    ParagraphAndLinkText();
    ParagraphAndLinkUrls();
    ParagraphAndLinkVideos();
  }

  /** `<tr><td> Intro </td><td><a ...>x</a></td></tr>`, with the anchor's
      attributes left open. */
  function VideoRow(attrs: map<string, string>): Node
  {
    Elem("tr", map[], [NameCell(), LinkCell(attrs)])
  }

  function NameCell(): Node
  {
    Elem("td", map[], [Text(" " + "Intro" + " ")])
  }

  function LinkCell(attrs: map<string, string>): Node
  {
    Elem("td", map[], [Elem("a", attrs, [Text("x")])])
  }

  lemma VideoRowDescendants(attrs: map<string, string>)
    ensures Descendants(LinkCell(attrs)) == [Elem("a", attrs, [Text("x")]), Text("x")]
    ensures Descendants(VideoRow(attrs)) ==
      [NameCell(), Text(" " + "Intro" + " "), LinkCell(attrs), Elem("a", attrs, [Text("x")]), Text("x")]
  {
    var c0, c1 := NameCell(), LinkCell(attrs);
    var an := Elem("a", attrs, [Text("x")]);
    SingleTextDescendants("td", map[], " " + "Intro" + " ");
    SingleTextDescendants("a", attrs, "x");
    assert Forest([an]) == [an] + [Text("x")] + Forest([]);
    assert Forest([c1]) == [c1] + [an, Text("x")] + Forest([]);
    assert Forest([c0, c1]) == [c0] + [Text(" " + "Intro" + " ")] + Forest([c1]);
  }

  lemma LinkCellFind(attrs: map<string, string>)
    ensures Find(LinkCell(attrs), "a") == Some(Elem("a", attrs, [Text("x")]))
  {
    VideoRowDescendants(attrs);
    Filter2((x: Node) => Named(x, {"a"}), Elem("a", attrs, [Text("x")]), Text("x"));
  }

  lemma LinkCellTail(attrs: map<string, string>)
    ensures Filter((x: Node) => Named(x, {"td"}), [LinkCell(attrs), Elem("a", attrs, [Text("x")]), Text("x")])
      == [LinkCell(attrs)]
  {
    var td := (x: Node) => Named(x, {"td"});
    var c1, an := LinkCell(attrs), Elem("a", attrs, [Text("x")]);
    Filter2(td, an, Text("x"));
    FilterCons(td, c1, [an, Text("x")]);
    assert [c1] + [an, Text("x")] == [c1, an, Text("x")];
  }

  lemma NameCellPrefix()
    ensures Filter((x: Node) => Named(x, {"td"}), [NameCell(), Text(" " + "Intro" + " ")]) == [NameCell()]
  {
    Filter2((x: Node) => Named(x, {"td"}), NameCell(), Text(" " + "Intro" + " "));
  }

  lemma VideoRowSplit(attrs: map<string, string>)
    ensures Descendants(VideoRow(attrs)) ==
      [NameCell(), Text(" " + "Intro" + " ")] + [LinkCell(attrs), Elem("a", attrs, [Text("x")]), Text("x")]
  {
    VideoRowDescendants(attrs);
  }

  lemma VideoRowCellFilter(attrs: map<string, string>)
    ensures Filter((x: Node) => Named(x, {"td"}), Descendants(VideoRow(attrs))) == [NameCell(), LinkCell(attrs)]
  {
    var front := [NameCell(), Text(" " + "Intro" + " ")];
    var back := [LinkCell(attrs), Elem("a", attrs, [Text("x")]), Text("x")];
    VideoRowSplit(attrs);
    FilterConcat((x: Node) => Named(x, {"td"}), front, back);
    NameCellPrefix();
    LinkCellTail(attrs);
  }

  lemma VideoRowCells(attrs: map<string, string>)
    ensures Cells(VideoRow(attrs)) == [NameCell(), LinkCell(attrs)]
  {
    VideoRowCellFilter(attrs);
    FindAllIsFilter(VideoRow(attrs), {"td"});
  }

  lemma NameCellText()
    ensures Strip(GetText(NameCell())) == "Intro"
  {
    SingleTextDescendants("td", map[], " " + "Intro" + " ");
    SingleString(" " + "Intro" + " ");
    assert Join([" " + "Intro" + " "], "") == " " + "Intro" + " ";
    StripUnique(" ", "Intro", " ");
  }

  /** A row whose second cell links to `v.mp4` yields `Intro:v.mp4`; the
      name cell's padding is stripped. */
  lemma VideoRowEntry()
    ensures RowVideo(VideoRow(map["href" := "v.mp4"])) == Success(Some("Intro" + ":" + "v.mp4"))
  {
    VideoRowCells(map["href" := "v.mp4"]);
    LinkCellFind(map["href" := "v.mp4"]);
    NameCellText();
  }

  /** The same row with an anchor that has no `href` raises `KeyError`. */
  lemma VideoRowRaises()
    ensures RowVideo(VideoRow(map["class" := "v"])) == Failure(KeyError("href"))
  {
    VideoRowCells(map["class" := "v"]);
    LinkCellFind(map["class" := "v"]);
  }

  /** The scan stops at that row whatever rows follow it. */
  lemma VideoScanStops(rest: seq<Node>)
    ensures CollectVideos([VideoRow(map["class" := "v"])] + rest) == Failure(KeyError("href"))
  {
    var row := VideoRow(map["class" := "v"]);
    VideoRowRaises();
    FirstRowRaises([row] + rest);
  }

  lemma FirstRowRaises(rows: seq<Node>)
    requires rows != [] && RowVideo(rows[0]).Failure?
    ensures CollectVideos(rows) == Failure(RowVideo(rows[0]).error)
  {
    assert Outcomes(rows)[0] == RowVideo(rows[0]);
  }

  /** An anchor with an empty `href` adds nothing. */
  lemma VideoRowEmptyLink()
    ensures RowVideo(VideoRow(map["href" := ""])) == Success(None)
  {
    VideoRowCells(map["href" := ""]);
    LinkCellFind(map["href" := ""]);
    NameCellText();
  }

  /** A table holding `row`, wrapped in another table. */
  function InnerTable(row: Node): Node
  {
    Elem("table", map[], [row])
  }

  function OuterTable(row: Node): Node
  {
    Elem("table", map[], [InnerTable(row)])
  }

  /** Nodes that are text, cells or anchors hold no table and no row. */
  lemma NoTablesOrRows(xs: seq<Node>)
    requires forall i :: 0 <= i < |xs| ==> xs[i].Text? || xs[i].name in {"td", "a"}
    ensures Filter((x: Node) => Named(x, {"table"}), xs) == []
    ensures Filter((x: Node) => Named(x, {"tr"}), xs) == []
  {
    FilterNone((x: Node) => Named(x, {"table"}), xs);
    FilterNone((x: Node) => Named(x, {"tr"}), xs);
  }

  /** Below the video row there is no table and no row. */
  lemma VideoRowHasNoTables()
    ensures Filter((x: Node) => Named(x, {"table"}), Descendants(VideoRow(map["href" := "v.mp4"]))) == []
    ensures Filter((x: Node) => Named(x, {"tr"}), Descendants(VideoRow(map["href" := "v.mp4"]))) == []
  {
    var attrs := map["href" := "v.mp4"];
    var front := [NameCell(), Text(" " + "Intro" + " ")];
    var back := [LinkCell(attrs), Elem("a", attrs, [Text("x")]), Text("x")];
    VideoRowSplit(attrs);
    NoTablesOrRows(front);
    NoTablesOrRows(back);
    FilterConcat((x: Node) => Named(x, {"table"}), front, back);
    FilterConcat((x: Node) => Named(x, {"tr"}), front, back);
  }

  lemma NestedDescendants(row: Node)
    ensures Descendants(InnerTable(row)) == [row] + Descendants(row)
    ensures Descendants(OuterTable(row)) == [InnerTable(row)] + Descendants(InnerTable(row))
    ensures Descendants(Doc([OuterTable(row)])) == [OuterTable(row)] + Descendants(OuterTable(row))
  {
    assert Forest([row]) == [row] + Descendants(row) + Forest([]);
    assert Forest([InnerTable(row)]) == [InnerTable(row)] + Descendants(InnerTable(row)) + Forest([]);
    assert Forest([OuterTable(row)]) == [OuterTable(row)] + Descendants(OuterTable(row)) + Forest([]);
  }

  lemma NestedTablesFound(row: Node)
    requires row.Elem? && row.name == "tr"
    requires Filter((x: Node) => Named(x, {"table"}), Descendants(row)) == []
    ensures FindAll(Doc([OuterTable(row)]), {"table"}) == [OuterTable(row), InnerTable(row)]
  {
    var inner, outer := InnerTable(row), OuterTable(row);
    var t := (x: Node) => Named(x, {"table"});
    NestedDescendants(row);
    FilterCons(t, row, Descendants(row));
    FilterCons(t, inner, Descendants(inner));
    FilterCons(t, outer, Descendants(outer));
    FindAllIsFilter(Doc([outer]), {"table"});
  }

  lemma NestedRowsFound(row: Node)
    requires row.Elem? && row.name == "tr"
    requires Filter((x: Node) => Named(x, {"tr"}), Descendants(row)) == []
    ensures FindAll(InnerTable(row), {"tr"}) == [row]
    ensures FindAll(OuterTable(row), {"tr"}) == [row]
  {
    var r := (x: Node) => Named(x, {"tr"});
    NestedDescendants(row);
    FilterCons(r, row, Descendants(row));
    FilterCons(r, InnerTable(row), Descendants(InnerTable(row)));
    FindAllIsFilter(InnerTable(row), {"tr"});
    FindAllIsFilter(OuterTable(row), {"tr"});
  }

  /** A row with no table or row below it, placed in a table nested inside
      another, is visited once through each enclosing table. */
  lemma NestedTableRowVisitedTwice(row: Node)
    requires row.Elem? && row.name == "tr"
    requires Filter((x: Node) => Named(x, {"table"}), Descendants(row)) == []
    requires Filter((x: Node) => Named(x, {"tr"}), Descendants(row)) == []
    ensures VisitedRows(Doc([OuterTable(row)])) == [row, row]
  {
    NestedTablesFound(row);
    NestedRowsFound(row);
    RowsOfPair(OuterTable(row), InnerTable(row));
  }

  lemma RowsOfPair(x: Node, y: Node)
    ensures RowsOf([x, y]) == FindAll(x, {"tr"}) + FindAll(y, {"tr"})
  {
    var m := [TableRows(x), TableRows(y)];
    MapPair(TableRows, x, y);
    assert m[1..] == [TableRows(y)];
    assert Flatten(m[1..]) == TableRows(y) + Flatten([]);
  }

  lemma GatherTwice(o: Result<Option<string>, ExtractError>, entry: string)
    requires o == Success(Some(entry))
    ensures Gather([o, o]) == Success([entry, entry])
  {
    assert [o, o][1..] == [o];
    assert [o][1..] == [];
    assert Entries(Some(entry)) == [entry];
    assert Gather([o]) == Combine(Success([entry]), Gather([]));
    assert Gather([]) == Success([]);
    assert [entry] + [] == [entry];
    assert Gather([o]) == Success([entry]);
    assert [entry] + [entry] == [entry, entry];
    assert Gather([o, o]) == Combine(Success([entry]), Gather([o]));
  }

  lemma CollectTwice(row: Node, entry: string)
    requires RowVideo(row) == Success(Some(entry))
    ensures CollectVideos([row, row]) == Success([entry, entry])
  {
    var o := RowVideo(row);
    assert Outcomes([row, row]) == [o, o];
    GatherTwice(o, entry);
  }

  /** So the video of the nested row is listed twice. */
  lemma NestedTableListsVideoTwice()
    ensures VideosOf(Doc([OuterTable(VideoRow(map["href" := "v.mp4"]))]))
      == Success(["Intro" + ":" + "v.mp4", "Intro" + ":" + "v.mp4"])
  {
    var row := VideoRow(map["href" := "v.mp4"]);
    VideoRowHasNoTables();
    NestedTableRowVisitedTwice(row);
    VideoRowEntry();
    CollectTwice(row, "Intro" + ":" + "v.mp4");
  }
}
