/** What `html_to_txt` promises about its three outputs, proved of the model. */
module Properties {
  import opened Wrappers
  import opened Seqs
  import opened PyStr
  import opened Tree
  import opened Extract

  /** One fragment per qualifying element: the fragment count is the number of
      `p`, `a`, `h1`..`h6` and `li` elements in the tree, empty ones included. */
  lemma FragmentCount(doc: Node)
    ensures |FragmentsOf(doc)| == CountNamed(doc, QualifyingTags)
  {
    FindAllCount(doc, QualifyingTags);
  }

  /** A document with no qualifying element gives empty text, no URL and no
      video: without an anchor no row can yield an entry or raise. */
  lemma NoQualifyingElements(doc: Node)
    requires CountNamed(doc, QualifyingTags) == 0
    ensures ExtractAll(doc) == Success(Extraction("", [], []))
  {
    FindAllCount(doc, QualifyingTags);
    forall x | x in Descendants(doc)
      ensures !Named(x, {"a"})
    {
      assert !Named(x, QualifyingTags);
    }
    NoAnchorsNoVideos(doc);
  }

  /** A document without anchors has no videos and the scan never raises. */
  lemma NoAnchorsNoVideos(doc: Node)
    requires forall x :: x in Descendants(doc) ==> !Named(x, {"a"})
    ensures VideosOf(doc) == Success([])
  {
    var rows := VisitedRows(doc);
    var os := Outcomes(rows);
    forall i | 0 <= i < |os|
      ensures os[i] == Success(None)
    {
      VisitedRowsBelow(doc, rows[i]);
      forall y | y in Descendants(rows[i])
        ensures !Named(y, {"a"})
      {
        DescendantsTransitive(doc, rows[i], y);
      }
      RowWithoutAnchors(rows[i]);
    }
    GatherNone(os);
  }

  /** The URL list is the `href` of every anchor in the document whose `href`
      is present and non-empty, in document order, and it is never longer than
      the fragment list. */
  lemma UrlsAreLinkedAnchors(doc: Node)
    ensures UrlsOf(doc) == Hrefs(Filter(IsLinked, Descendants(doc)))
    ensures |UrlsOf(doc)| <= |FragmentsOf(doc)|
  {
    FilterFilter(IsLinked, (x: Node) => Named(x, QualifyingTags), Descendants(doc));
  }

  /** A linked anchor's fragment is its stripped text followed by
      ` (Link: href)`; every other fragment is the stripped text alone. */
  lemma FragmentShape(tag: Node)
    ensures IsLinked(tag) ==>
      var text := GetTextStripped(tag);
      var f := Fragment(tag);
      && EndsWith(f, LinkSuffix(Href(tag)))
      && f[..|text|] == text
      && |f| == |text| + |LinkSuffix(Href(tag))|
      && Href(tag) != ""
    ensures !IsLinked(tag) ==> Fragment(tag) == GetTextStripped(tag)
  {
  }

  /** Every collected URL can be found in the text, annotated as ` (Link: url)`. */
  lemma UrlsAnnotatedInText(doc: Node)
    ensures forall u :: u in UrlsOf(doc) ==> IsInfix(LinkSuffix(u), TextOf(doc))
  {
    var tags := Tags(doc);
    forall u | u in UrlsOf(doc)
      ensures IsInfix(LinkSuffix(u), TextOf(doc))
    {
      var k := LinkedSource(tags, u);
      LinkedTagAnnotated(tags, k);
    }
  }

  /** Conversely, every linked anchor anywhere in the document, inside a table
      cell or not, has its target collected and annotated in the text. */
  lemma LinkedAnchorCollected(doc: Node, x: Node)
    requires x in Descendants(doc) && IsLinked(x)
    ensures Href(x) in UrlsOf(doc)
    ensures IsInfix(LinkSuffix(Href(x)), TextOf(doc))
  {
    var d := Descendants(doc);
    var k :| 0 <= k < |d| && d[k] == x;
    UrlsAreLinkedAnchors(doc);
    var linked := Filter(IsLinked, d);
    var j :| 0 <= j < |linked| && linked[j] == x;
    assert Hrefs(linked)[j] == Href(x);
    UrlsAnnotatedInText(doc);
  }

  /** Where a collected URL comes from: a linked anchor among `tags`. */
  lemma LinkedSource(tags: seq<Node>, u: string) returns (k: int)
    requires u in LinkedHrefs(tags)
    ensures 0 <= k < |tags| && IsLinked(tags[k]) && Href(tags[k]) == u
  {
    var linked := Filter(IsLinked, tags);
    var j :| 0 <= j < |linked| && u == Href(linked[j]);
    k :| 0 <= k < |tags| && tags[k] == linked[j];
  }

  /** The fragment of a linked anchor carries its annotation, and so does the
      joined text. */
  lemma LinkedTagAnnotated(tags: seq<Node>, k: int)
    requires 0 <= k < |tags| && IsLinked(tags[k])
    ensures IsInfix(LinkSuffix(Href(tags[k])), Join(FragmentList(tags), "\n"))
  {
    var suffix := LinkSuffix(Href(tags[k]));
    var text := GetTextStripped(tags[k]);
    assert Fragment(tags[k]) == text + suffix + "";
    InfixAt0(suffix);
    InfixExtend(suffix, text, suffix, "");
    JoinHasPart(FragmentList(tags), "\n", k);
    InfixTrans(suffix, Fragment(tags[k]), Join(FragmentList(tags), "\n"));
  }

  /** A fragment is blank exactly when its element is not a linked anchor and
      its stripped text is empty. */
  lemma FragmentBlank(tag: Node)
    ensures AllSpace(Fragment(tag)) <==> !IsLinked(tag) && GetTextStripped(tag) == ""
  {
    GetTextStrippedUnpadded(tag);
    if IsLinked(tag) {
      var f := Fragment(tag);
      assert f[|f| - 1] == ')';
    }
  }

  /** The handlers' "no valid text" test `not text.strip()` holds exactly when
      every qualifying element is an unlinked one with empty stripped text;
      this includes documents whose text is nothing but the newlines between
      empty fragments. */
  lemma NoValidTextIff(doc: Node)
    ensures Strip(TextOf(doc)) == "" <==>
      forall i :: 0 <= i < |Tags(doc)| ==> !IsLinked(Tags(doc)[i]) && GetTextStripped(Tags(doc)[i]) == ""
  {
    var tags := Tags(doc);
    var frags := FragmentsOf(doc);
    JoinAllSpace(frags, "\n");
    forall i | 0 <= i < |tags|
      ensures AllSpace(frags[i]) <==> !IsLinked(tags[i]) && GetTextStripped(tags[i]) == ""
    {
      FragmentBlank(tags[i]);
    }
  }

  /** Splitting the text on newlines gives back the fragments, as long as there
      is at least one and none holds a newline of its own. */
  lemma TextSplitsIntoFragments(doc: Node)
    requires |FragmentsOf(doc)| >= 1
    requires forall i :: 0 <= i < |FragmentsOf(doc)| ==> '\n' !in FragmentsOf(doc)[i]
    ensures Split(TextOf(doc), '\n') == FragmentsOf(doc)
  {
    SplitJoin(FragmentsOf(doc), '\n');
  }

  /** The video scan raises exactly when, in one of the rows it visits, the
      first anchor of the second cell has no `href` attribute. */
  lemma {:induction false} VideosRaiseIff(rows: seq<Node>)
    ensures CollectVideos(rows).Failure? <==> exists i :: 0 <= i < |rows| && RowRaises(rows[i])
    decreases |rows|
  {
    if rows != [] {
      var rest := rows[1..];
      CollectCons(rows);
      RowVideoSpec(rows[0]);
      VideosRaiseIff(rest);
      if exists i :: 0 <= i < |rest| && RowRaises(rest[i]) {
        var i :| 0 <= i < |rest| && RowRaises(rest[i]);
        assert RowRaises(rows[i + 1]);
      }
      if exists i :: 0 <= i < |rows| && RowRaises(rows[i]) {
        var i :| 0 <= i < |rows| && RowRaises(rows[i]);
        if i > 0 {
          assert RowRaises(rest[i - 1]);
        }
      }
    }
  }

  /** The scan of a non-empty row list fails exactly when its first row raises
      or the scan of the rest fails. */
  lemma CollectCons(rows: seq<Node>)
    requires rows != []
    ensures CollectVideos(rows).Failure? <==> RowVideo(rows[0]).Failure? || CollectVideos(rows[1..]).Failure?
  {
    assert rows == [rows[0]] + rows[1..];
    CollectConcat([rows[0]], rows[1..]);
    CollectSnoc([], rows[0]);
    assert [] + [rows[0]] == [rows[0]];
  }

  /** A row outcome that carries a `name:link` entry. */
  predicate IsEntry(o: Result<Option<string>, ExtractError>)
  {
    o.Success? && o.value.Some?
  }

  /** The entries carried by outcomes that each carry one. */
  function EntryValues(os: seq<Result<Option<string>, ExtractError>>): seq<string>
    requires forall i :: 0 <= i < |os| ==> IsEntry(os[i])
  {
    seq(|os|, i requires 0 <= i < |os| && IsEntry(os[i]) => os[i].value.value)
  }

  /** A successful fold keeps exactly the entries, in order, so there is at
      most one video per outcome. */
  lemma {:induction false} GatherEntries(os: seq<Result<Option<string>, ExtractError>>)
    requires Gather(os).Success?
    ensures Gather(os).value == EntryValues(Filter(IsEntry, os))
    ensures |Gather(os).value| <= |os|
    decreases |os|
  {
    if os != [] {
      GatherEntries(os[1..]);
      var rest := Filter(IsEntry, os[1..]);
      var tail := Gather(os[1..]).value;
      if IsEntry(os[0]) {
        assert Filter(IsEntry, os) == [os[0]] + rest;
        assert Gather(os).value == [os[0].value.value] + tail;
        assert EntryValues([os[0]] + rest) == [os[0].value.value] + EntryValues(rest);
      } else {
        assert Filter(IsEntry, os) == [] + rest;
        assert Gather(os).value == [] + tail;
      }
    }
  }

  /** When the video scan succeeds, the videos are the entries of the rows
      that yield one, in row order; each row contributes at most one. */
  lemma VideosAreRowEntries(rows: seq<Node>)
    requires CollectVideos(rows).Success?
    ensures CollectVideos(rows).value == EntryValues(Filter(IsEntry, Outcomes(rows)))
    ensures |CollectVideos(rows).value| <= |rows|
  {
    GatherEntries(Outcomes(rows));
  }

  /** A row of a table nested inside another table is also a row of the outer
      table, so the scan visits it once per enclosing table. */
  lemma NestedTableRowsRevisited(outer: Node, inner: Node, row: Node)
    requires inner in FindAll(outer, {"table"})
    requires row in FindAll(inner, {"tr"})
    ensures row in FindAll(outer, {"tr"})
  {
    DescendantsTransitive(outer, inner, row);
  }
}
