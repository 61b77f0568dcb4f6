/** The parsed document as BeautifulSoup exposes it to the extractor: a tree of
    elements and text nodes, searched with `find_all`/`find` and read with
    `get_text`. Parsing itself happens before this model starts. */
module Tree {
  import opened Wrappers
  import opened Seqs
  import opened PyStr

  /** A text node (`NavigableString`) or an element with its attributes and
      children in document order. The document root is an element too. */
  datatype Node =
    | Text(s: string)
    | Elem(name: string, attrs: map<string, string>, children: seq<Node>)

  /** `node.descendants`: every node below `n`, in pre-order, excluding `n`. */
  function Descendants(n: Node): seq<Node>
    decreases n, 1
  {
    match n
    case Text(_) => []
    case Elem(_, _, cs) => Forest(cs)
  }

  /** Pre-order listing of a sequence of sibling subtrees, each root included. */
  function Forest(cs: seq<Node>): seq<Node>
    decreases cs, 0
  {
    if cs == [] then [] else [cs[0]] + Descendants(cs[0]) + Forest(cs[1..])
  }

  predicate Named(n: Node, names: set<string>)
  {
    n.Elem? && n.name in names
  }

  /** `n.find_all(names)`: the descendants of `n` whose tag is in `names`, in
      document order. */
  function FindAll(n: Node, names: set<string>): (r: seq<Node>)
    ensures forall i :: 0 <= i < |r| ==> Named(r[i], names) && r[i] in Descendants(n)
    ensures forall x :: x in Descendants(n) && Named(x, names) ==> x in r
  {
    var d := Descendants(n);
    var r := Filter((x: Node) => Named(x, names), d);
    assert forall i :: 0 <= i < |d| && Named(d[i], names) ==> d[i] in r;
    r
  }

  /** `find_all` is a filter over the pre-order listing. */
  lemma FindAllIsFilter(n: Node, names: set<string>)
    ensures FindAll(n, names) == Filter((x: Node) => Named(x, names), Descendants(n))
  {
  }

  /** `n.find(name)`: the first descendant with that tag, or `None`. */
  function Find(n: Node, name: string): (r: Option<Node>)
    ensures r.None? <==> forall x :: x in Descendants(n) ==> !Named(x, {name})
    ensures r.Some? ==> r.value.Elem? && r.value.name == name
    ensures r.Some? ==>
      exists k :: 0 <= k < |Descendants(n)| && Descendants(n)[k] == r.value &&
        forall j :: 0 <= j < k ==> !Named(Descendants(n)[j], {name})
  {
    var all := FindAll(n, {name});
    if |all| == 0 then None
    else
      FindAllIsFilter(n, {name});
      FilterFirst((x: Node) => Named(x, {name}), Descendants(n));
      Some(all[0])
  }

  /** The strings of the text nodes among `ns`, in order. */
  function Strings(ns: seq<Node>): (r: seq<string>)
    ensures |r| <= |ns|
    decreases |ns|
  {
    if ns == [] then []
    else (if ns[0].Text? then [ns[0].s] else []) + Strings(ns[1..])
  }

  /** `n.get_text()`: all text below `n`, concatenated as is. */
  function GetText(n: Node): string
  {
    Join(Strings(Descendants(n)), "")
  }

  /** Each string stripped, the ones left empty dropped. */
  function StrippedStrings(ss: seq<string>): (r: seq<string>)
    ensures forall i :: 0 <= i < |r| ==> r[i] != "" && Unpadded(r[i])
    ensures r == [] <==> forall i :: 0 <= i < |ss| ==> AllSpace(ss[i])
    decreases |ss|
  {
    if ss == [] then []
    else
      var rest := StrippedStrings(ss[1..]);
      var head := Strip(ss[0]);
      assert rest == [] <==> forall i :: 1 <= i < |ss| ==> AllSpace(ss[i]) by {
        assert forall i :: 1 <= i < |ss| ==> ss[i] == ss[1..][i - 1];
      }
      if head == "" then rest else [head] + rest
  }

  /** The pieces are exactly the strings stripped one by one, in order, with
      the empty results dropped. */
  lemma {:induction false} StrippedStringsPieces(ss: seq<string>)
    ensures StrippedStrings(ss) == Filter(NonEmpty, Map(Strip, ss))
    decreases |ss|
  {
    if ss != [] {
      StrippedStringsPieces(ss[1..]);
      StripMapCons(ss);
    }
  }

  predicate NonEmpty(t: string)
  {
    t != ""
  }

  /** Stripping then dropping empties, one string at a time. */
  lemma StripMapCons(ss: seq<string>)
    requires ss != []
    ensures Filter(NonEmpty, Map(Strip, ss)) ==
      (if Strip(ss[0]) == "" then [] else [Strip(ss[0])]) + Filter(NonEmpty, Map(Strip, ss[1..]))
  {
    assert Map(Strip, ss) == [Strip(ss[0])] + Map(Strip, ss[1..]);
    FilterCons(NonEmpty, Strip(ss[0]), Map(Strip, ss[1..]));
  }

  /** `n.get_text(strip=True)`: every text node stripped on its own, empty ones
      dropped, the rest glued with no separator. */
  function GetTextStripped(n: Node): string
  {
    Join(StrippedStrings(Strings(Descendants(n))), "")
  }

  /** The stripped text never starts or ends with whitespace, so it is blank
      only when it is empty. */
  lemma GetTextStrippedUnpadded(n: Node)
    ensures Unpadded(GetTextStripped(n))
    ensures AllSpace(GetTextStripped(n)) <==> GetTextStripped(n) == ""
  {
    JoinUnpadded(StrippedStrings(Strings(Descendants(n))));
  }

  /** The two ways of reading an element's text agree on emptiness:
      `get_text(strip=True)` is empty exactly when `get_text().strip()` is. */
  lemma StrippedEmptyIffBlank(n: Node)
    ensures GetTextStripped(n) == "" <==> Strip(GetText(n)) == ""
  {
    var ss := Strings(Descendants(n));
    var parts := StrippedStrings(ss);
    JoinEmpty(parts);
    JoinAllSpace(ss, "");
    if parts != [] {
      assert parts[0] != "";
    }
  }

  /** Pre-order search sees through nesting: a descendant of a descendant is a
      descendant. */
  lemma {:induction false} DescendantsTransitive(n: Node, d: Node, e: Node)
    requires d in Descendants(n) && e in Descendants(d)
    ensures e in Descendants(n)
    decreases n, 1
  {
    match n
    case Elem(_, _, cs) => ForestTransitive(cs, d, e);
  }

  lemma {:induction false} ForestTransitive(cs: seq<Node>, d: Node, e: Node)
    requires d in Forest(cs) && e in Descendants(d)
    ensures e in Forest(cs)
    decreases cs, 0
  {
    if d == cs[0] {
    } else if d in Descendants(cs[0]) {
      DescendantsTransitive(cs[0], d, e);
    } else {
      ForestTransitive(cs[1..], d, e);
    }
  }

  /** The number of elements below `n` whose tag is in `names`, counted
      subtree by subtree. */
  function CountNamed(n: Node, names: set<string>): nat
    decreases n, 1
  {
    match n
    case Text(_) => 0
    case Elem(_, _, cs) => CountNamedForest(cs, names)
  }

  function CountNamedForest(cs: seq<Node>, names: set<string>): nat
    decreases cs, 0
  {
    if cs == [] then 0
    else (if Named(cs[0], names) then 1 else 0) + CountNamed(cs[0], names) + CountNamedForest(cs[1..], names)
  }

  /** `find_all` returns one entry per matching element in the tree. */
  lemma {:induction false} FindAllCount(n: Node, names: set<string>)
    ensures |FindAll(n, names)| == CountNamed(n, names)
    decreases n, 1
  {
    match n
    case Text(_) =>
    case Elem(_, _, cs) => FindAllCountForest(cs, names);
  }

  lemma {:induction false} FindAllCountForest(cs: seq<Node>, names: set<string>)
    ensures |Filter((x: Node) => Named(x, names), Forest(cs))| == CountNamedForest(cs, names)
    decreases cs, 0
  {
    var p := (x: Node) => Named(x, names);
    if cs != [] {
      var head, below, rest := [cs[0]], Descendants(cs[0]), Forest(cs[1..]);
      FilterConcat(p, head, below);
      FilterConcat(p, head + below, rest);
      assert |Filter(p, head)| == if Named(cs[0], names) then 1 else 0 by {
        assert head[1..] == [];
      }
      FindAllCount(cs[0], names);
      assert |Filter(p, below)| == CountNamed(cs[0], names);
      FindAllCountForest(cs[1..], names);
    }
  }
}
