/**
 * Profile-driven extraction of an article from its parsed HTML (OSINTextract.py).
 *
 * The parsed page is a tree of `Node`s standing for the soup BeautifulSoup builds:
 * the root is the document object (named "[document]"), elements carry their tag
 * name, their class list and their children, and strings are leaves. The library
 * calls the source relies on (`find`, `find_all`, `decompose`, `get_text`, `str`,
 * `insert`) are written out below as functions on that tree.
 */
module OsintExtract {
  import opened Strings

  // ---------------------------------------------------------------------------
  // The document tree
  // ---------------------------------------------------------------------------

  datatype Node = Text(text: string) | Element(name: string, classes: seq<string>, children: seq<Node>)

  /** The name BeautifulSoup gives the document object at the root of every soup. */
  const DocumentName: string := "[document]"

  /** `BeautifulSoup("Unknown", "html.parser")`: a document holding the one string "Unknown". */
  const UnknownDoc: Node := Element(DocumentName, [], [Text("Unknown")])

  function Children(n: Node): seq<Node> {
    if n.Element? then n.children else []
  }

  /** A forest in document order: each node followed by everything below it. */
  function Preorder(ns: seq<Node>): seq<Node> {
    if ns == [] then []
    else [ns[0]] + (if ns[0].Element? then Preorder(ns[0].children) else []) + Preorder(ns[1..])
  }

  /** `tag.descendants`: every node below `n` in document order, `n` itself excluded. */
  function Descendants(n: Node): seq<Node> {
    Preorder(Children(n))
  }

  lemma {:induction false} PreorderAppend(a: seq<Node>, b: seq<Node>)
    ensures Preorder(a + b) == Preorder(a) + Preorder(b)
  {
    if a == [] {
      assert a + b == b;
    } else {
      assert (a + b)[1..] == a[1..] + b;
      PreorderAppend(a[1..], b);
    }
  }

  // ---------------------------------------------------------------------------
  // get_text and str
  // ---------------------------------------------------------------------------

  function ForestText(ns: seq<Node>): string {
    if ns == [] then ""
    else (if ns[0].Element? then ForestText(ns[0].children) else ns[0].text) + ForestText(ns[1..])
  }

  /** `element.get_text()`: the strings below the node, concatenated in document order. */
  function GetText(n: Node): string {
    if n.Element? then ForestText(n.children) else n.text
  }

  /** The strings among a sequence of nodes, concatenated; the elements contribute nothing. */
  function StringsOf(ns: seq<Node>): string {
    if ns == [] then "" else (if ns[0].Text? then ns[0].text else "") + StringsOf(ns[1..])
  }

  lemma {:induction false} StringsOfAppend(a: seq<Node>, b: seq<Node>)
    ensures StringsOf(a + b) == StringsOf(a) + StringsOf(b)
  {
    if a == [] {
      assert a + b == b;
    } else {
      assert (a + b)[1..] == a[1..] + b;
      StringsOfAppend(a[1..], b);
    }
  }

  /** The text of a forest is exactly its strings taken in document order. */
  lemma {:induction false} ForestTextIsStringsOf(ns: seq<Node>)
    ensures ForestText(ns) == StringsOf(Preorder(ns))
  {
    if ns != [] {
      var below := if ns[0].Element? then Preorder(ns[0].children) else [];
      if ns[0].Element? {
        ForestTextIsStringsOf(ns[0].children);
      }
      ForestTextIsStringsOf(ns[1..]);
      StringsOfAppend([ns[0]] + below, Preorder(ns[1..]));
      StringsOfAppend([ns[0]], below);
    }
  }

  /** `get_text` of a node is the concatenation of the strings among its descendants. */
  lemma GetTextIsStringsOf(n: Node)
    ensures GetText(n) == if n.Text? then n.text else StringsOf(Descendants(n))
  {
    if n.Element? {
      ForestTextIsStringsOf(n.children);
    }
  }

  /** The entity a character is written as by the minimal output formatter. */
  function EscapeChar(c: char): string {
    if c == '&' then "&amp;" else if c == '<' then "&lt;" else if c == '>' then "&gt;" else [c]
  }

  /** The minimal output formatter: `&`, `<` and `>` become entities. */
  function Escape(s: string): (r: string)
    ensures '<' !in r && '>' !in r
  {
    if s == [] then "" else EscapeChar(s[0]) + Escape(s[1..])
  }

  /** Text without `&`, `<` or `>` is rendered as it is. */
  lemma {:induction false} EscapePlain(s: string)
    requires forall i :: 0 <= i < |s| ==> s[i] != '&' && s[i] != '<' && s[i] != '>'
    ensures Escape(s) == s
  {
    if s != [] {
      assert EscapeChar(s[0]) == [s[0]];
      EscapePlain(s[1..]);
      assert [s[0]] + s[1..] == s;
    }
  }

  function Unescape(s: string): string {
    if s == [] then ""
    else if |s| >= 5 && s[..5] == "&amp;" then "&" + Unescape(s[5..])
    else if |s| >= 4 && s[..4] == "&lt;" then "<" + Unescape(s[4..])
    else if |s| >= 4 && s[..4] == "&gt;" then ">" + Unescape(s[4..])
    else [s[0]] + Unescape(s[1..])
  }

  /** Decoding reads one escaped character back and goes on with the rest. */
  lemma UnescapeEscapeChar(c: char, t: string)
    ensures Unescape(EscapeChar(c) + t) == [c] + Unescape(t)
  {
    if c == '&' {
      UnescapeEntity("&amp;", t);
    } else if c == '<' {
      UnescapeEntity("&lt;", t);
    } else if c == '>' {
      UnescapeEntity("&gt;", t);
    } else {
      UnescapePlain(c, t);
    }
  }

  lemma UnescapePlain(c: char, t: string)
    requires c != '&'
    ensures Unescape([c] + t) == [c] + Unescape(t)
  {
    var e := [c] + t;
    assert e[0] == c && e[1..] == t;
    assert |e| >= 4 ==> e[..4][0] == c;
    assert |e| >= 5 ==> e[..5][0] == c;
  }

  lemma UnescapeEntity(entity: string, t: string)
    requires entity in {"&amp;", "&lt;", "&gt;"}
    ensures Unescape(entity + t) == [if entity == "&amp;" then '&' else if entity == "&lt;" then '<' else '>'] + Unescape(t)
  {
    var e := entity + t;
    assert e[..|entity|] == entity && e[|entity|..] == t;
    if entity != "&amp;" {
      assert e[1] != 'a';
    }
  }

  /** Escaping loses nothing: the entities decode back to the original text. */
  lemma {:induction false} UnescapeEscape(s: string)
    ensures Unescape(Escape(s)) == s
  {
    if s != [] {
      UnescapeEscape(s[1..]);
      UnescapeEscapeChar(s[0], Escape(s[1..]));
      assert [s[0]] + s[1..] == s;
    }
  }

  /** Elements the HTML tree builder treats as empty elements, rendered as `<name/>` when childless. */
  predicate IsVoidElement(name: string) {
    name in {"area", "base", "br", "col", "embed", "hr", "img", "input", "keygen", "link",
             "menuitem", "meta", "param", "source", "track", "wbr", "basefont", "bgsound",
             "command", "frame", "image", "isindex", "nextid", "spacer"}
  }

  function ClassAttribute(classes: seq<string>): string {
    if classes == [] then "" else " class=\"" + Escape(Join(classes, ' ')) + "\""
  }

  /** Markup of a node inside a tag: strings escaped, the document rendering only its children. */
  function Markup(n: Node): string {
    match n
    case Text(s) => Escape(s)
    case Element(name, classes, cs) =>
      if name == DocumentName then ForestMarkup(cs)
      else if cs == [] && IsVoidElement(name) then "<" + name + ClassAttribute(classes) + "/>"
      else "<" + name + ClassAttribute(classes) + ">" + ForestMarkup(cs) + "</" + name + ">"
  }

  function ForestMarkup(ns: seq<Node>): string {
    if ns == [] then "" else Markup(ns[0]) + ForestMarkup(ns[1..])
  }

  /** `str(element)`: a bare string renders as itself, anything else as its markup. */
  function Str(n: Node): string {
    if n.Text? then n.text else Markup(n)
  }

  // ---------------------------------------------------------------------------
  // find and find_all
  // ---------------------------------------------------------------------------

  /** The name part of a search: any tag, or one of a list of names. */
  datatype NameFilter = AnyName | Names(names: seq<string>)

  /** A search: the names asked for and, optionally, a `class_` value. */
  datatype Query = Query(name: NameFilter, cls: Option<string>)

  /**
   * bs4's test of `class_=c` against a class list: some class equals `c`, or the
   * whole list joined by spaces does. A tag without classes therefore matches
   * only `class_=""`.
   */
  predicate HasClass(classes: seq<string>, c: string) {
    c in classes || Join(classes, ' ') == c
  }

  /** Only elements are found; strings never match a search with a name or a class. */
  predicate Matches(n: Node, q: Query) {
    && n.Element?
    && (q.name.AnyName? || n.name in q.name.names)
    && (q.cls.None? || HasClass(n.classes, q.cls.value))
  }

  function Filter(ns: seq<Node>, q: Query): seq<Node> {
    if ns == [] then [] else (if Matches(ns[0], q) then [ns[0]] else []) + Filter(ns[1..], q)
  }

  lemma {:induction false} FilterAppend(a: seq<Node>, b: seq<Node>, q: Query)
    ensures Filter(a + b, q) == Filter(a, q) + Filter(b, q)
  {
    if a == [] {
      assert a + b == b;
    } else {
      assert (a + b)[1..] == a[1..] + b;
      FilterAppend(a[1..], b, q);
    }
  }

  /**
   * What `find_all` returns: the matching nodes among the candidates, each of them,
   * in document order and nothing else; the first of them is a match with no
   * match before it.
   */
  lemma FilterSpec(ns: seq<Node>, q: Query)
    ensures IsSubseq(Filter(ns, q), ns)
    ensures forall i :: 0 <= i < |Filter(ns, q)| ==> Matches(Filter(ns, q)[i], q)
    ensures forall i :: 0 <= i < |ns| && Matches(ns[i], q) ==> ns[i] in Filter(ns, q)
    ensures Filter(ns, q) != [] ==>
              exists k :: 0 <= k < |ns| && ns[k] == Filter(ns, q)[0] &&
                          forall j :: 0 <= j < k ==> !Matches(ns[j], q)
    ensures forall x :: Count(Filter(ns, q), x) == if Matches(x, q) then Count(ns, x) else 0
  {
    forall x ensures Count(Filter(ns, q), x) == if Matches(x, q) then Count(ns, x) else 0 {
      FilterCount(ns, q, x);
    }
    FilterSubseq(ns, q);
    FilterMatches(ns, q);
    FilterComplete(ns, q);
    FilterFirst(ns, q);
  }

  /** Each matching node is kept as often as it occurs, and each other node never. */
  lemma {:induction false} FilterCount(ns: seq<Node>, q: Query, x: Node)
    ensures Count(Filter(ns, q), x) == if Matches(x, q) then Count(ns, x) else 0
  {
    if ns != [] {
      FilterCount(ns[1..], q, x);
      CountAppend(if Matches(ns[0], q) then [ns[0]] else [], Filter(ns[1..], q), x);
    }
  }

  lemma {:induction false} FilterSubseq(ns: seq<Node>, q: Query)
    ensures IsSubseq(Filter(ns, q), ns)
  {
    if ns != [] {
      FilterSubseq(ns[1..], q);
      var r := Filter(ns, q);
      if Matches(ns[0], q) {
        assert r[0] == ns[0] && r[1..] == Filter(ns[1..], q);
      } else {
        assert r == Filter(ns[1..], q);
        SubseqDropHead(r, ns);
      }
    }
  }

  lemma {:induction false} FilterMatches(ns: seq<Node>, q: Query)
    ensures forall i :: 0 <= i < |Filter(ns, q)| ==> Matches(Filter(ns, q)[i], q)
  {
    if ns != [] {
      FilterMatches(ns[1..], q);
    }
  }

  lemma {:induction false} FilterComplete(ns: seq<Node>, q: Query)
    ensures forall i :: 0 <= i < |ns| && Matches(ns[i], q) ==> ns[i] in Filter(ns, q)
  {
    if ns != [] {
      FilterComplete(ns[1..], q);
      var r := Filter(ns, q);
      var rest := Filter(ns[1..], q);
      assert r == (if Matches(ns[0], q) then [ns[0]] else []) + rest;
      forall i | 0 <= i < |ns| && Matches(ns[i], q) ensures ns[i] in r {
        if i > 0 {
          assert ns[i] == ns[1..][i - 1];
          assert ns[i] in rest;
        }
      }
    }
  }

  lemma {:induction false} FilterFirst(ns: seq<Node>, q: Query)
    ensures Filter(ns, q) != [] ==>
              exists k :: 0 <= k < |ns| && ns[k] == Filter(ns, q)[0] &&
                          forall j :: 0 <= j < k ==> !Matches(ns[j], q)
  {
    if ns != [] && !Matches(ns[0], q) {
      FilterFirst(ns[1..], q);
      var r := Filter(ns, q);
      assert r == Filter(ns[1..], q);
      if r != [] {
        var k :| 0 <= k < |ns[1..]| && ns[1..][k] == r[0] && forall j :: 0 <= j < k ==> !Matches(ns[1..][j], q);
        assert ns[k + 1] == r[0];
        forall j | 0 <= j < k + 1 ensures !Matches(ns[j], q) {
          if j > 0 {
            assert ns[j] == ns[1..][j - 1];
          }
        }
      }
    }
  }

  /** The nodes a search visits: all descendants, or only the children when not recursive. */
  function Candidates(n: Node, recursive: bool): seq<Node> {
    if recursive then Descendants(n) else Children(n)
  }

  /** `n.find_all(...)` */
  function FindAll(n: Node, q: Query, recursive: bool): seq<Node> {
    Filter(Candidates(n, recursive), q)
  }

  // ---------------------------------------------------------------------------
  // Positions in the tree
  // ---------------------------------------------------------------------------

  /** A path of child indices from a forest down to one of its nodes. */
  predicate ValidPath(ns: seq<Node>, p: seq<nat>)
    decreases |p|
  {
    && |p| >= 1
    && p[0] < |ns|
    && (|p| > 1 ==> ns[p[0]].Element? && ValidPath(ns[p[0]].children, p[1..]))
  }

  function NodeAt(ns: seq<Node>, p: seq<nat>): Node
    requires ValidPath(ns, p)
    decreases |p|
  {
    if |p| == 1 then ns[p[0]] else NodeAt(ns[p[0]].children, p[1..])
  }

  /** The forest with the node at `p`, and everything below it, taken out. */
  function RemoveAt(ns: seq<Node>, p: seq<nat>): seq<Node>
    requires ValidPath(ns, p)
    decreases |p|
  {
    var n := ns[p[0]];
    if |p| == 1 then ns[..p[0]] + ns[p[0] + 1..]
    else ns[..p[0]] + [Element(n.name, n.classes, RemoveAt(n.children, p[1..]))] + ns[p[0] + 1..]
  }

  /**
   * Taking a node out removes exactly that node and its descendants: the document
   * order of the remaining forest, with the removed subtree put back as one block at
   * some position, is the document order of the original forest.
   */
  lemma {:induction false} RemoveAtCut(ns: seq<Node>, p: seq<nat>)
    requires ValidPath(ns, p)
    ensures var kept := Shallows(Preorder(RemoveAt(ns, p)));
            exists k :: 0 <= k <= |kept| &&
              Shallows(Preorder(ns)) == kept[..k] + Shallows(Preorder([NodeAt(ns, p)])) + kept[k..]
    decreases |p|, 1
  {
    if |p| == 1 {
      RemoveTopCut(ns, p[0]);
      assert RemoveAt(ns, p) == ns[..p[0]] + ns[p[0] + 1..] && NodeAt(ns, p) == ns[p[0]];
      var kept := Shallows(Preorder(RemoveAt(ns, p)));
      var k := |Shallows(Preorder(ns[..p[0]]))|;
      CutWitness(Shallows(Preorder(ns)), kept, Shallows(Preorder([NodeAt(ns, p)])), k);
    } else {
      RemoveDeepCut(ns, p);
    }
  }

  lemma RemoveTopCut(ns: seq<Node>, i: nat)
    requires i < |ns|
    ensures var kept := Shallows(Preorder(ns[..i] + ns[i + 1..]));
            var k := |Shallows(Preorder(ns[..i]))|;
            k <= |kept| && Shallows(Preorder(ns)) == kept[..k] + Shallows(Preorder([ns[i]])) + kept[k..]
  {
    var n := ns[i];
    var before, after := ns[..i], ns[i + 1..];
    assert ns == before + [n] + after;
    ShallowsSplice(before, n, after);
    ShallowsPreorderAppend(before, after);
    ShallowsSingle(n);
    CutLeaf(Shallows(Preorder(before)), Shallows(Preorder([n])), Shallows(Preorder(after)));
  }

  lemma {:induction false} RemoveDeepCut(ns: seq<Node>, p: seq<nat>)
    requires ValidPath(ns, p) && |p| > 1
    ensures var kept := Shallows(Preorder(RemoveAt(ns, p)));
            exists k :: 0 <= k <= |kept| &&
              Shallows(Preorder(ns)) == kept[..k] + Shallows(Preorder([NodeAt(ns, p)])) + kept[k..]
    decreases |p|, 0
  {
    var i := p[0];
    var n := ns[i];
    var before, after := ns[..i], ns[i + 1..];
    assert ns == before + [n] + after;
    ShallowsSplice(before, n, after);
    var sb, sa := Shallows(Preorder(before)), Shallows(Preorder(after));
    var x := Shallows(Preorder([NodeAt(ns, p)]));
    var m := Element(n.name, n.classes, RemoveAt(n.children, p[1..]));
    RemoveAtCut(n.children, p[1..]);
    var inner := Shallows(Preorder(m.children));
    var k' :| 0 <= k' <= |inner| && Shallows(Preorder(n.children)) == inner[..k'] + x + inner[k'..];
    assert RemoveAt(ns, p) == before + [m] + after;
    ShallowsSplice(before, m, after);
    assert Shallow(m) == Shallow(n);
    CutDeep(sb, Shallow(n), inner, k', x, sa);
    var kept := Shallows(Preorder(RemoveAt(ns, p)));
    var k := |sb| + 1 + k';
    assert 0 <= k <= |kept| && Shallows(Preorder(ns)) == kept[..k] + x + kept[k..];
  }

  lemma CutWitness<T>(whole: seq<T>, kept: seq<T>, x: seq<T>, k: nat)
    requires k <= |kept| && whole == kept[..k] + x + kept[k..]
    ensures exists j :: 0 <= j <= |kept| && whole == kept[..j] + x + kept[j..]
  {
  }

  lemma CutLeaf<T>(pre: seq<T>, x: seq<T>, post: seq<T>)
    ensures var kept := pre + post;
            kept[..|pre|] + x + kept[|pre|..] == pre + x + post
  {
    var kept := pre + post;
    assert kept[..|pre|] == pre;
    assert kept[|pre|..] == post;
  }

  lemma CutDeep<T>(pre: seq<T>, h: T, inner: seq<T>, k': nat, x: seq<T>, post: seq<T>)
    requires k' <= |inner|
    ensures var kept := pre + ([h] + inner) + post;
            var k := |pre| + 1 + k';
            k <= |kept| &&
            kept[..k] + x + kept[k..] == pre + ([h] + (inner[..k'] + x + inner[k'..])) + post
  {
    var kept := pre + ([h] + inner) + post;
    var k := |pre| + 1 + k';
    assert kept[..k] == pre + [h] + inner[..k'];
    assert kept[k..] == inner[k'..] + post;
  }

  lemma ShallowsPreorderAppend(a: seq<Node>, b: seq<Node>)
    ensures Shallows(Preorder(a + b)) == Shallows(Preorder(a)) + Shallows(Preorder(b))
  {
    PreorderAppend(a, b);
    ShallowsAppend(Preorder(a), Preorder(b));
  }

  /** The document order of a forest around one node: what comes before, the node, its descendants, what comes after. */
  lemma ShallowsSplice(before: seq<Node>, x: Node, after: seq<Node>)
    ensures Shallows(Preorder(before + [x] + after)) ==
            Shallows(Preorder(before)) + ([Shallow(x)] + Shallows(Preorder(Children(x)))) + Shallows(Preorder(after))
  {
    ShallowsPreorderAppend(before + [x], after);
    ShallowsPreorderAppend(before, [x]);
    ShallowsSingle(x);
  }

  lemma ShallowsSingle(x: Node)
    ensures Shallows(Preorder([x])) == [Shallow(x)] + Shallows(Preorder(Children(x)))
  {
    assert [x][1..] == [];
    assert Preorder([x]) == [x] + Preorder(Children(x));
    ShallowsAppend([x], Preorder(Children(x)));
  }

  /** The first match in document order, found by a search that stops there. */
  function FirstPath(ns: seq<Node>, q: Query): (r: Option<seq<nat>>)
    ensures r.Some? ==> ValidPath(ns, r.value)
  {
    if ns == [] then None
    else if Matches(ns[0], q) then Some([0])
    else
      match (if ns[0].Element? then FirstPath(ns[0].children, q) else None)
      case Some(p) =>
        assert ([0] + p)[1..] == p;
        Some([0] + p)
      case None =>
        match FirstPath(ns[1..], q)
        case Some(p) =>
          var p' := [p[0] + 1] + p[1..];
          assert p'[1..] == p[1..] && ns[p'[0]] == ns[1..][p[0]];
          Some(p')
        case None => None
  }

  /** The stopping search and the `find_all` filter agree: the search finds the filter's first node. */
  lemma {:induction false} FirstPathFinds(ns: seq<Node>, q: Query)
    ensures FirstPath(ns, q).None? <==> Filter(Preorder(ns), q) == []
    ensures FirstPath(ns, q).Some? ==> NodeAt(ns, FirstPath(ns, q).value) == Filter(Preorder(ns), q)[0]
  {
    if ns != [] {
      FilterPreorderCons(ns, q);
      if Matches(ns[0], q) {
        assert Filter([ns[0]], q) == [ns[0]];
      } else {
        FirstPathFinds(ns[1..], q);
        assert Filter([ns[0]], q) == [];
        if ns[0].Element? {
          FirstPathFinds(ns[0].children, q);
          FirstPathPastElement(ns, q);
        } else {
          FirstPathPastText(ns, q);
        }
      }
    }
  }

  lemma FilterPreorderCons(ns: seq<Node>, q: Query)
    requires ns != []
    ensures Filter(Preorder(ns), q) ==
            Filter([ns[0]], q) + Filter(Preorder(Children(ns[0])), q) + Filter(Preorder(ns[1..]), q)
  {
    PreorderCons(ns);
    FilterAppend([ns[0]] + Preorder(Children(ns[0])), Preorder(ns[1..]), q);
    FilterAppend([ns[0]], Preorder(Children(ns[0])), q);
  }

  /** The two promises of `FirstPathFinds`, for the induction steps. */
  ghost predicate FindsFirst(ns: seq<Node>, q: Query) {
    && (FirstPath(ns, q).None? <==> Filter(Preorder(ns), q) == [])
    && (FirstPath(ns, q).Some? ==> NodeAt(ns, FirstPath(ns, q).value) == Filter(Preorder(ns), q)[0])
  }

  lemma FirstPathPastElement(ns: seq<Node>, q: Query)
    requires ns != [] && ns[0].Element? && !Matches(ns[0], q)
    requires Filter(Preorder(ns), q) == [] + Filter(Preorder(Children(ns[0])), q) + Filter(Preorder(ns[1..]), q)
    requires FindsFirst(ns[0].children, q) && FindsFirst(ns[1..], q)
    ensures FindsFirst(ns, q)
  {
    match FirstPath(ns[0].children, q)
    case Some(p) =>
      FirstPathInChildren(ns, q, p);
    case None =>
      FirstPathPastText(ns, q);
  }

  lemma FirstPathInChildren(ns: seq<Node>, q: Query, p: seq<nat>)
    requires ns != [] && ns[0].Element? && !Matches(ns[0], q)
    requires FirstPath(ns[0].children, q) == Some(p)
    ensures FirstPath(ns, q) == Some([0] + p)
    ensures NodeAt(ns, [0] + p) == NodeAt(ns[0].children, p)
  {
    assert ([0] + p)[1..] == p;
  }

  lemma FirstPathPastText(ns: seq<Node>, q: Query)
    requires ns != [] && !Matches(ns[0], q)
    requires ns[0].Element? ==> FirstPath(ns[0].children, q).None? && Filter(Preorder(ns[0].children), q) == []
    requires Filter(Preorder(ns), q) == [] + Filter(Preorder(Children(ns[0])), q) + Filter(Preorder(ns[1..]), q)
    requires FindsFirst(ns[1..], q)
    ensures FindsFirst(ns, q)
  {
    assert Filter(Preorder(ns), q) == Filter(Preorder(ns[1..]), q);
    match FirstPath(ns[1..], q)
    case Some(p) =>
      FirstPathInRest(ns, q, p);
      NodeAtShift(ns, p);
    case None =>
      FirstPathNowhere(ns, q);
  }

  lemma FirstPathInRest(ns: seq<Node>, q: Query, p: seq<nat>)
    requires ns != [] && !Matches(ns[0], q)
    requires ns[0].Element? ==> FirstPath(ns[0].children, q).None?
    requires FirstPath(ns[1..], q) == Some(p)
    ensures FirstPath(ns, q) == Some([p[0] + 1] + p[1..])
  {
  }

  lemma FirstPathNowhere(ns: seq<Node>, q: Query)
    requires ns != [] && !Matches(ns[0], q)
    requires ns[0].Element? ==> FirstPath(ns[0].children, q).None?
    requires FirstPath(ns[1..], q).None?
    ensures FirstPath(ns, q).None?
  {
  }

  lemma NodeAtShift(ns: seq<Node>, p: seq<nat>)
    requires ns != [] && ValidPath(ns[1..], p)
    ensures ValidPath(ns, [p[0] + 1] + p[1..])
    ensures NodeAt(ns, [p[0] + 1] + p[1..]) == NodeAt(ns[1..], p)
  {
    var p' := [p[0] + 1] + p[1..];
    assert p'[1..] == p[1..] && ns[p'[0]] == ns[1..][p[0]];
  }

  /** A path to a node inside the node at `pc` is the concatenation of the two paths. */
  lemma {:induction false} NodeAtConcat(ns: seq<Node>, pc: seq<nat>, ph: seq<nat>)
    requires ValidPath(ns, pc) && NodeAt(ns, pc).Element?
    requires ValidPath(NodeAt(ns, pc).children, ph)
    ensures ValidPath(ns, pc + ph)
    ensures NodeAt(ns, pc + ph) == NodeAt(NodeAt(ns, pc).children, ph)
    decreases |pc|
  {
    assert (pc + ph)[0] == pc[0];
    if |pc| == 1 {
      assert (pc + ph)[1..] == ph;
    } else {
      NodeAtConcat(ns[pc[0]].children, pc[1..], ph);
      assert (pc + ph)[1..] == pc[1..] + ph;
    }
  }

  // ---------------------------------------------------------------------------
  // locateContent
  // ---------------------------------------------------------------------------

  /** A profile's description of a tag: the class of its container, its tag name(s) and its class. */
  datatype Selector = Selector(containerClass: string, element: string, cls: string)

  /** An empty class in a profile means "no class filter": `class_` is not passed at all. */
  function ClassFilter(cls: string): Option<string> {
    if cls == "" then None else Some(cls)
  }

  /** `soup.find(class_=containerClass)`: any tag carrying the class. */
  function ContainerQuery(containerClass: string): Query {
    Query(AnyName, Some(containerClass))
  }

  /** `find(element, ...)`, or `find_all(element.split(';'), ...)` when several are wanted. */
  function ElementQuery(sel: Selector, multiple: bool): Query {
    Query(if multiple then Names(Split(sel.element, ';')) else Names([sel.element]), ClassFilter(sel.cls))
  }

  /** The node searched under: the whole soup, or the first tag with the container class. */
  function Container(sel: Selector, root: Node): Option<Node> {
    if sel.containerClass == "" then Some(root)
    else
      var hits := FindAll(root, ContainerQuery(sel.containerClass), true);
      if hits == [] then None else Some(hits[0])
  }

  /**
   * What `locateContent` hands back: the tag `find` returned, `None`, the list
   * `find_all` returned, or the "Unknown" placeholder document built in the
   * `except` branch when the container is missing and `.find` is called on `None`.
   */
  datatype Located = Found(node: Node) | NotFound | FoundAll(nodes: seq<Node>) | Fallback

  function LocateContent(sel: Selector, root: Node, multiple: bool, recursive: bool): (r: Located)
    ensures multiple ==> r.FoundAll? || r.Fallback?
    ensures !multiple ==> r.Found? || r.NotFound? || r.Fallback?
    ensures r.Fallback? <==>
              sel.containerClass != "" && FindAll(root, ContainerQuery(sel.containerClass), true) == []
  {
    match Container(sel, root)
    case None => Fallback
    case Some(container) =>
      var hits := FindAll(container, ElementQuery(sel, multiple), recursive);
      if multiple then FoundAll(hits)
      else if hits == [] then NotFound
      else Found(hits[0])
  }

  /**
   * Several tags wanted: the result lists, in document order, exactly the candidates
   * of the container whose name is one of the `;`-separated names and that carry the
   * class when one is given.
   */
  lemma LocateAllMeaning(sel: Selector, root: Node, recursive: bool)
    requires LocateContent(sel, root, true, recursive).FoundAll?
    ensures Container(sel, root).Some?
    ensures var nodes := LocateContent(sel, root, true, recursive).nodes;
            var candidates := Candidates(Container(sel, root).value, recursive);
            && IsSubseq(nodes, candidates)
            && (forall i :: 0 <= i < |nodes| ==>
                  nodes[i].Element? && nodes[i].name in Split(sel.element, ';') &&
                  (sel.cls != "" ==> HasClass(nodes[i].classes, sel.cls)))
            && (forall n ::
                  (n in candidates && n.Element? && n.name in Split(sel.element, ';') &&
                   (sel.cls != "" ==> HasClass(n.classes, sel.cls))) ==> n in nodes)
            && (forall n :: Count(nodes, n) ==
                  if n.Element? && n.name in Split(sel.element, ';') &&
                     (sel.cls != "" ==> HasClass(n.classes, sel.cls))
                  then Count(candidates, n) else 0)
  {
    var candidates := Candidates(Container(sel, root).value, recursive);
    FilterSpec(candidates, ElementQuery(sel, true));
  }

  /**
   * One tag wanted: `Found` holds the first candidate of the container with the tag
   * name and the class, and `NotFound` means no candidate has them. A string name is
   * compared with the tag's name as it is, so the empty name finds no tag.
   */
  lemma LocateOneMeaning(sel: Selector, root: Node, recursive: bool)
    requires !LocateContent(sel, root, false, recursive).Fallback?
    ensures Container(sel, root).Some?
    ensures var r := LocateContent(sel, root, false, recursive);
            var candidates := Candidates(Container(sel, root).value, recursive);
            && (r.NotFound? <==> forall i :: 0 <= i < |candidates| ==> !Matches(candidates[i], ElementQuery(sel, false)))
            && (r.Found? ==>
                  && r.node.Element?
                  && r.node.name == sel.element
                  && (sel.cls != "" ==> HasClass(r.node.classes, sel.cls))
                  && exists k :: 0 <= k < |candidates| && candidates[k] == r.node &&
                                 forall j :: 0 <= j < k ==> !Matches(candidates[j], ElementQuery(sel, false)))
  {
    var candidates := Candidates(Container(sel, root).value, recursive);
    var q := ElementQuery(sel, false);
    FilterSpec(candidates, q);
    if Filter(candidates, q) != [] {
      assert Matches(Filter(candidates, q)[0], q);
    }
  }

  /** The container, when one is configured, is the first tag in the document carrying its class. */
  lemma ContainerMeaning(sel: Selector, root: Node)
    requires sel.containerClass != "" && Container(sel, root).Some?
    ensures var c := Container(sel, root).value;
            && c.Element? && HasClass(c.classes, sel.containerClass)
            && exists k :: 0 <= k < |Descendants(root)| && Descendants(root)[k] == c &&
                           forall j :: 0 <= j < k ==> !Matches(Descendants(root)[j], ContainerQuery(sel.containerClass))
  {
    var q := ContainerQuery(sel.containerClass);
    FilterSpec(Descendants(root), q);
    assert Matches(Filter(Descendants(root), q)[0], q);
  }

  // ---------------------------------------------------------------------------
  // Where the single-tag search finds its node
  // ---------------------------------------------------------------------------

  /** The position, under the root, of the tag a single recursive `locateContent` returns. */
  function HeaderPath(sel: Selector, root: Node): (r: Option<seq<nat>>)
    ensures r.Some? ==> root.Element? && ValidPath(root.children, r.value)
  {
    if !root.Element? then None
    else
      var q := ElementQuery(sel, false);
      if sel.containerClass == "" then FirstPath(root.children, q)
      else
        match FirstPath(root.children, ContainerQuery(sel.containerClass))
        case None => None
        case Some(pc) =>
          var container := NodeAt(root.children, pc);
          if !container.Element? then None
          else
            match FirstPath(container.children, q)
            case None => None
            case Some(ph) =>
              NodeAtConcat(root.children, pc, ph);
              Some(pc + ph)
  }

  /** The position found by `HeaderPath` holds exactly the node `locateContent` returns. */
  lemma HeaderPathLocates(sel: Selector, root: Node)
    ensures LocateContent(sel, root, false, true).Found? <==> HeaderPath(sel, root).Some?
    ensures HeaderPath(sel, root).Some? ==>
              NodeAt(root.children, HeaderPath(sel, root).value) == LocateContent(sel, root, false, true).node
  {
    if root.Element? {
      var q := ElementQuery(sel, false);
      if sel.containerClass == "" {
        FirstPathFinds(root.children, q);
      } else {
        var cq := ContainerQuery(sel.containerClass);
        FirstPathFinds(root.children, cq);
        match FirstPath(root.children, cq)
        case None =>
        case Some(pc) =>
          var container := NodeAt(root.children, pc);
          FilterSpec(Descendants(root), cq);
          assert Matches(container, cq);
          FirstPathFinds(container.children, q);
          match FirstPath(container.children, q)
          case None =>
          case Some(ph) =>
            NodeAtConcat(root.children, pc, ph);
      }
    }
  }

  /**
   * The document with the node at `p` moved out of it: the document node stays, and
   * exactly the subtree at `p` leaves the document order, as one block.
   */
  function Detach(root: Node, p: seq<nat>): (r: Node)
    requires root.Element? && ValidPath(root.children, p)
    ensures Shallow(r) == Shallow(root)
    ensures var kept := Shallows(Descendants(r));
            exists k :: 0 <= k <= |kept| &&
              Shallows(Descendants(root)) == kept[..k] + Shallows(Preorder([NodeAt(root.children, p)])) + kept[k..]
  {
    RemoveAtCut(root.children, p);
    Element(root.name, root.classes, RemoveAt(root.children, p))
  }

  // ---------------------------------------------------------------------------
  // cleanSoup
  // ---------------------------------------------------------------------------

  /** Every `;`-separated entry of a removal list has a comma, so `split(",")[1]` exists. */
  predicate RemoveListWellFormed(htmlTagsAndClasses: string) {
    forall e :: e in Split(htmlTagsAndClasses, ';') ==> ',' in e
  }

  /** One `tag,class` entry as a search: `find_all(tag, class_=class)`; the class is always passed. */
  function RemoveQuery(entry: string): Query
    requires ',' in entry
  {
    SplitCount(entry, ',');
    var parts := Split(entry, ',');
    Query(Names([parts[0]]), Some(parts[1]))
  }

  /** The forest with every matching element, and everything below it, taken out. */
  function CleanForest(ns: seq<Node>, q: Query): seq<Node> {
    if ns == [] then []
    else
      (if Matches(ns[0], q) then []
       else if ns[0].Element? then [Element(ns[0].name, ns[0].classes, CleanForest(ns[0].children, q))]
       else [ns[0]])
      + CleanForest(ns[1..], q)
  }

  /** Decomposing every match of a search below `n`; `n` itself is never a match. */
  function CleanTree(n: Node, q: Query): Node {
    if n.Element? then Element(n.name, n.classes, CleanForest(n.children, q)) else n
  }

  /** The entries of a removal list applied one after the other. */
  function CleanAll(n: Node, entries: seq<string>): Node
    requires forall e :: e in entries ==> ',' in e
  {
    if entries == [] then n
    else CleanTree(CleanAll(n, entries[..|entries| - 1]), RemoveQuery(entries[|entries| - 1]))
  }

  /** A node with its children dropped: what is compared when nodes are put in order. */
  function Shallow(n: Node): Node {
    if n.Element? then Element(n.name, n.classes, []) else n
  }

  function Shallows(ns: seq<Node>): (r: seq<Node>)
    ensures |r| == |ns|
  {
    if ns == [] then [] else [Shallow(ns[0])] + Shallows(ns[1..])
  }

  lemma {:induction false} ShallowsAppend(a: seq<Node>, b: seq<Node>)
    ensures Shallows(a + b) == Shallows(a) + Shallows(b)
  {
    if a == [] {
      assert a + b == b;
    } else {
      assert (a + b)[1..] == a[1..] + b;
      ShallowsAppend(a[1..], b);
    }
  }

  /** The document order of a cleaned forest, spelled out one node at a time. */
  lemma CleanForestPreorder(ns: seq<Node>, q: Query)
    requires ns != []
    ensures Preorder(CleanForest(ns, q)) ==
              (if Matches(ns[0], q) then []
               else [CleanTree(ns[0], q)] + Preorder(CleanForest(Children(ns[0]), q)))
              + Preorder(CleanForest(ns[1..], q))
  {
    var head := if Matches(ns[0], q) then []
                else if ns[0].Element? then [Element(ns[0].name, ns[0].classes, CleanForest(ns[0].children, q))]
                else [ns[0]];
    assert CleanForest(ns, q) == head + CleanForest(ns[1..], q);
    PreorderAppend(head, CleanForest(ns[1..], q));
    if !Matches(ns[0], q) {
      assert head == [CleanTree(ns[0], q)];
      assert Preorder(head) == [CleanTree(ns[0], q)] + Preorder(CleanForest(Children(ns[0]), q)) + Preorder([]);
    }
  }

  lemma PreorderCons(ns: seq<Node>)
    requires ns != []
    ensures Preorder(ns) == [ns[0]] + Preorder(Children(ns[0])) + Preorder(ns[1..])
  {
  }

  /** After cleaning, the search finds nothing. */
  lemma {:induction false} CleanForestNoMatch(ns: seq<Node>, q: Query)
    ensures Filter(Preorder(CleanForest(ns, q)), q) == []
  {
    if ns != [] {
      CleanForestPreorder(ns, q);
      CleanForestNoMatch(ns[1..], q);
      var rest := Preorder(CleanForest(ns[1..], q));
      if Matches(ns[0], q) {
        assert [] + rest == rest;
      } else {
        var below := Preorder(CleanForest(Children(ns[0]), q));
        if ns[0].Element? {
          CleanForestNoMatch(ns[0].children, q);
        }
        var c0 := CleanTree(ns[0], q);
        FilterAppend([c0] + below, rest, q);
        FilterAppend([c0], below, q);
      }
    }
  }

  /** A forest in which the search finds nothing is left as it is. */
  lemma {:induction false} CleanForestIdentity(ns: seq<Node>, q: Query)
    requires Filter(Preorder(ns), q) == []
    ensures CleanForest(ns, q) == ns
  {
    if ns != [] {
      PreorderCons(ns);
      FilterAppend([ns[0]] + Preorder(Children(ns[0])), Preorder(ns[1..]), q);
      FilterAppend([ns[0]], Preorder(Children(ns[0])), q);
      assert !Matches(ns[0], q);
      CleanForestIdentity(ns[1..], q);
      if ns[0].Element? {
        CleanForestIdentity(ns[0].children, q);
      }
      assert CleanForest(ns, q) == [ns[0]] + ns[1..];
    }
  }

  /** Cleaning never brings a match of another search into existence. */
  lemma {:induction false} CleanForestKeepsClean(ns: seq<Node>, q: Query, q': Query)
    requires Filter(Preorder(ns), q') == []
    ensures Filter(Preorder(CleanForest(ns, q)), q') == []
  {
    if ns != [] {
      PreorderCons(ns);
      FilterAppend([ns[0]] + Preorder(Children(ns[0])), Preorder(ns[1..]), q');
      FilterAppend([ns[0]], Preorder(Children(ns[0])), q');
      CleanForestPreorder(ns, q);
      CleanForestKeepsClean(ns[1..], q, q');
      if Matches(ns[0], q) {
        assert [] + Preorder(CleanForest(ns[1..], q)) == Preorder(CleanForest(ns[1..], q));
      } else {
        if ns[0].Element? {
          CleanForestKeepsClean(ns[0].children, q, q');
        }
        var c0 := CleanTree(ns[0], q);
        assert Matches(c0, q') == Matches(ns[0], q');
        FilterAppend([c0] + Preorder(CleanForest(Children(ns[0]), q)), Preorder(CleanForest(ns[1..], q)), q');
        FilterAppend([c0], Preorder(CleanForest(Children(ns[0]), q)), q');
      }
    }
  }

  /** What survives cleaning keeps its relative order, and nothing new appears. */
  lemma {:induction false} CleanForestKeepsOrder(ns: seq<Node>, q: Query)
    ensures IsSubseq(Shallows(Preorder(CleanForest(ns, q))), Shallows(Preorder(ns)))
  {
    if ns != [] {
      PreorderCons(ns);
      CleanForestPreorder(ns, q);
      CleanForestKeepsOrder(ns[1..], q);
      var head := [ns[0]] + Preorder(Children(ns[0]));
      ShallowsAppend(head, Preorder(ns[1..]));
      var rest := Shallows(Preorder(CleanForest(ns[1..], q)));
      if Matches(ns[0], q) {
        assert Preorder(CleanForest(ns, q)) == Preorder(CleanForest(ns[1..], q));
        SubseqConcat([], Shallows(head), rest, Shallows(Preorder(ns[1..])));
        assert [] + rest == rest;
      } else {
        if ns[0].Element? {
          CleanForestKeepsOrder(ns[0].children, q);
        } else {
          SubseqRefl(Shallows(Preorder(CleanForest(Children(ns[0]), q))));
        }
        var c0 := CleanTree(ns[0], q);
        var cleanedHead := [c0] + Preorder(CleanForest(Children(ns[0]), q));
        ShallowsAppend(cleanedHead, Preorder(CleanForest(ns[1..], q)));
        ShallowsAppend([c0], Preorder(CleanForest(Children(ns[0]), q)));
        ShallowsAppend([ns[0]], Preorder(Children(ns[0])));
        assert Shallows([c0]) == Shallows([ns[0]]);
        SubseqRefl(Shallows([ns[0]]));
        SubseqConcat(Shallows([c0]), Shallows([ns[0]]),
                     Shallows(Preorder(CleanForest(Children(ns[0]), q))), Shallows(Preorder(Children(ns[0]))));
        SubseqConcat(Shallows(cleanedHead), Shallows(head), rest, Shallows(Preorder(ns[1..])));
      }
    }
  }

  /** The nodes from the top of the forest down to the node at `p`, without their children. */
  function PathShallows(ns: seq<Node>, p: seq<nat>): (r: seq<Node>)
    requires ValidPath(ns, p)
    ensures |r| == |p|
    decreases |p|
  {
    [Shallow(ns[p[0]])] + (if |p| == 1 then [] else PathShallows(ns[p[0]].children, p[1..]))
  }

  /** No node of `path` is a match of the search. */
  predicate Avoids(path: seq<Node>, q: Query) {
    forall i :: 0 <= i < |path| ==> !Matches(path[i], q)
  }

  lemma {:induction false} CleanForestAppend(a: seq<Node>, b: seq<Node>, q: Query)
    ensures CleanForest(a + b, q) == CleanForest(a, q) + CleanForest(b, q)
  {
    if a != [] {
      CleanForestAppend(a[1..], b, q);
      var ab := a + b;
      assert ab != [] && ab[0] == a[0] && ab[1..] == a[1..] + b;
      var h := CleanForest([a[0]], q);
      CleanForestHead(a, q);
      CleanForestHead(ab, q);
      Assoc(h, CleanForest(a[1..], q), CleanForest(b, q));
    } else {
      assert a + b == b;
    }
  }

  lemma CleanForestHead(ns: seq<Node>, q: Query)
    requires ns != []
    ensures CleanForest(ns, q) == CleanForest([ns[0]], q) + CleanForest(ns[1..], q)
  {
    assert [ns[0]][1..] == [];
  }

  /** A top-level node that is not a match stays, cleaned, after the survivors before it. */
  lemma CleanForestAt(ns: seq<Node>, i: nat, q: Query)
    requires i < |ns| && !Matches(ns[i], q)
    ensures var j := |CleanForest(ns[..i], q)|;
            j < |CleanForest(ns, q)| && CleanForest(ns, q)[j] == CleanTree(ns[i], q)
  {
    var before, n, after := ns[..i], ns[i], ns[i + 1..];
    assert ns == before + [n] + after;
    CleanForestAppend(before + [n], after, q);
    CleanForestAppend(before, [n], q);
    assert [n][1..] == [];
    assert CleanForest([n], q) == [CleanTree(n, q)];
  }

  /**
   * A node none of whose ancestors (nor itself) is a match survives cleaning: the
   * cleaned forest has a path to a node with the same tag, classes or text, under
   * ancestors with the same tags and classes.
   */
  lemma {:induction false} CleanForestKeepsUnmatched(ns: seq<Node>, p: seq<nat>, q: Query)
    requires ValidPath(ns, p) && Avoids(PathShallows(ns, p), q)
    ensures exists p' :: ValidPath(CleanForest(ns, q), p') &&
                         PathShallows(CleanForest(ns, q), p') == PathShallows(ns, p)
    decreases |p|
  {
    var i, n := p[0], ns[p[0]];
    var path := PathShallows(ns, p);
    assert path[0] == Shallow(n);
    assert !Matches(n, q);
    CleanForestAt(ns, i, q);
    var c := CleanForest(ns, q);
    var j := |CleanForest(ns[..i], q)|;
    if |p| == 1 {
      assert ValidPath(c, [j]) && PathShallows(c, [j]) == path;
    } else {
      var below := PathShallows(n.children, p[1..]);
      assert path == [Shallow(n)] + below;
      assert Avoids(below, q) by {
        forall k | 0 <= k < |below| ensures !Matches(below[k], q) {
          assert below[k] == path[k + 1];
        }
      }
      CleanForestKeepsUnmatched(n.children, p[1..], q);
      var p'' :| ValidPath(CleanForest(n.children, q), p'') &&
                 PathShallows(CleanForest(n.children, q), p'') == below;
      var p' := [j] + p'';
      assert p'[0] == j && p'[1..] == p'';
      assert ValidPath(c, p') && PathShallows(c, p') == path;
    }
  }

  /** Every entry's search finds nothing once the whole list has been applied. */
  lemma {:induction false} CleanAllRemovesEvery(n: Node, entries: seq<string>)
    requires forall e :: e in entries ==> ',' in e
    ensures forall e :: e in entries ==> FindAll(CleanAll(n, entries), RemoveQuery(e), true) == []
  {
    if entries != [] {
      var init := entries[..|entries| - 1];
      var last := entries[|entries| - 1];
      CleanAllRemovesEvery(n, init);
      var m := CleanAll(n, init);
      forall e | e in entries
        ensures FindAll(CleanAll(n, entries), RemoveQuery(e), true) == []
      {
        if m.Element? {
          if e == last {
            CleanForestNoMatch(m.children, RemoveQuery(e));
          } else {
            assert e in init;
            CleanForestKeepsClean(m.children, RemoveQuery(last), RemoveQuery(e));
          }
        }
      }
    }
  }

  /** A document in which no entry's search finds anything is left as it is. */
  lemma {:induction false} CleanAllIdentity(n: Node, entries: seq<string>)
    requires forall e :: e in entries ==> ',' in e
    requires forall e :: e in entries ==> FindAll(n, RemoveQuery(e), true) == []
    ensures CleanAll(n, entries) == n
  {
    if entries != [] {
      CleanAllIdentity(n, entries[..|entries| - 1]);
      if n.Element? {
        CleanForestIdentity(n.children, RemoveQuery(entries[|entries| - 1]));
      }
    }
  }

  /** Cleaning twice with the same list gives the same document as cleaning once. */
  lemma CleanAllIdempotent(n: Node, entries: seq<string>)
    requires forall e :: e in entries ==> ',' in e
    ensures CleanAll(CleanAll(n, entries), entries) == CleanAll(n, entries)
  {
    CleanAllRemovesEvery(n, entries);
    CleanAllIdentity(CleanAll(n, entries), entries);
  }

  /** The document node stays, and the nodes that survive keep their relative order. */
  lemma {:induction false} CleanAllKeepsOrder(n: Node, entries: seq<string>)
    requires forall e :: e in entries ==> ',' in e
    ensures Shallow(CleanAll(n, entries)) == Shallow(n)
    ensures IsSubseq(Shallows(Descendants(CleanAll(n, entries))), Shallows(Descendants(n)))
  {
    if entries == [] {
      SubseqRefl(Shallows(Descendants(n)));
    } else {
      var m := CleanAll(n, entries[..|entries| - 1]);
      CleanAllKeepsOrder(n, entries[..|entries| - 1]);
      if m.Element? {
        CleanForestKeepsOrder(m.children, RemoveQuery(entries[|entries| - 1]));
        SubseqTrans(Shallows(Descendants(CleanAll(n, entries))), Shallows(Descendants(m)), Shallows(Descendants(n)));
      }
    }
  }

  /**
   * Nothing is removed that no entry asks for: a node such that no entry's search
   * matches it or any of its ancestors is still in the cleaned document, at the end of
   * a path through ancestors with the same tags and classes.
   */
  lemma {:induction false} CleanAllKeepsUnmatched(n: Node, entries: seq<string>, p: seq<nat>)
    requires forall e :: e in entries ==> ',' in e
    requires n.Element? && ValidPath(n.children, p)
    requires forall e :: e in entries ==> Avoids(PathShallows(n.children, p), RemoveQuery(e))
    ensures CleanAll(n, entries).Element?
    ensures exists p' :: ValidPath(CleanAll(n, entries).children, p') &&
                         PathShallows(CleanAll(n, entries).children, p') == PathShallows(n.children, p)
  {
    if entries == [] {
      assert ValidPath(CleanAll(n, entries).children, p);
    } else {
      var init, last := entries[..|entries| - 1], entries[|entries| - 1];
      assert forall e :: e in init ==> e in entries;
      CleanAllKeepsUnmatched(n, init, p);
      var m := CleanAll(n, init);
      var p1 :| ValidPath(m.children, p1) && PathShallows(m.children, p1) == PathShallows(n.children, p);
      assert last in entries;
      CleanForestKeepsUnmatched(m.children, p1, RemoveQuery(last));
      var p2 :| ValidPath(CleanForest(m.children, RemoveQuery(last)), p2) &&
                PathShallows(CleanForest(m.children, RemoveQuery(last)), p2) == PathShallows(m.children, p1);
      assert CleanAll(n, entries).children == CleanForest(m.children, RemoveQuery(last));
    }
  }

  /** Some path of `ms` leads through nodes like those on the path `p` of `ns`. */
  ghost predicate Survives(ns: seq<Node>, p: seq<nat>, ms: seq<Node>)
    requires ValidPath(ns, p)
  {
    exists p' :: ValidPath(ms, p') && PathShallows(ms, p') == PathShallows(ns, p)
  }

  /**
   * Every node of `before` that no entry's search matches, on itself or on an ancestor,
   * survives in `after`.
   */
  ghost predicate KeepsUnmatched(before: Node, after: Node, entries: seq<string>)
    requires forall e :: e in entries ==> ',' in e
  {
    before.Element? ==>
      after.Element? &&
      forall p :: ValidPath(before.children, p) &&
                  (forall e :: e in entries ==> Avoids(PathShallows(before.children, p), RemoveQuery(e))) ==>
                    Survives(before.children, p, after.children)
  }

  /**
   * `CleanAllKeepsUnmatched`, for every position of the page at once; and each
   * survivor survives once: the new document order is the old one with exactly the
   * positions flagged by `Flags` kept (see `FlagsAt`).
   */
  lemma CleanAllKeepsEveryUnmatched(n: Node, entries: seq<string>)
    requires forall e :: e in entries ==> ',' in e
    ensures KeepsUnmatched(n, CleanAll(n, entries), entries)
    ensures Shallows(Descendants(CleanAll(n, entries))) ==
              Select(Shallows(Descendants(n)), Flags(Children(n), Queries(entries)))
  {
    CleanAllSelects(n, entries);
    if n.Element? {
      CleanAllKeepsOrder(n, entries);
      forall p | ValidPath(n.children, p) &&
                 (forall e :: e in entries ==> Avoids(PathShallows(n.children, p), RemoveQuery(e)))
        ensures Survives(n.children, p, CleanAll(n, entries).children)
      {
        CleanAllKeepsUnmatched(n, entries, p);
      }
    }
  }

  // ---------------------------------------------------------------------------
  // The whole removal list at once
  // ---------------------------------------------------------------------------

  /** Some search of `qs` matches `n`. */
  predicate MatchesAny(n: Node, qs: seq<Query>) {
    exists q :: q in qs && Matches(n, q)
  }

  /** The searches of a removal list, in order. */
  function Queries(entries: seq<string>): (r: seq<Query>)
    requires forall e :: e in entries ==> ',' in e
    ensures |r| == |entries|
    ensures forall i :: 0 <= i < |entries| ==> r[i] == RemoveQuery(entries[i])
  {
    if entries == [] then []
    else
      assert forall e :: e in entries[..|entries| - 1] ==> e in entries;
      Queries(entries[..|entries| - 1]) + [RemoveQuery(entries[|entries| - 1])]
  }

  /** The forest with every element that some search of `qs` matches, and everything below it, taken out. */
  function CleanForestBy(ns: seq<Node>, qs: seq<Query>): seq<Node> {
    if ns == [] then []
    else
      (if MatchesAny(ns[0], qs) then []
       else if ns[0].Element? then [Element(ns[0].name, ns[0].classes, CleanForestBy(ns[0].children, qs))]
       else [ns[0]])
      + CleanForestBy(ns[1..], qs)
  }

  lemma MatchesAnySnoc(n: Node, qs: seq<Query>, q: Query)
    ensures MatchesAny(n, qs + [q]) <==> MatchesAny(n, qs) || Matches(n, q)
  {
    assert q in qs + [q];
    assert forall x :: x in qs ==> x in qs + [q];
  }

  /** No search removes nothing. */
  lemma {:induction false} CleanForestByNone(ns: seq<Node>)
    ensures CleanForestBy(ns, []) == ns
  {
    if ns != [] {
      CleanForestByNone(ns[1..]);
      if ns[0].Element? {
        CleanForestByNone(ns[0].children);
      }
      assert CleanForestBy(ns, []) == [ns[0]] + ns[1..];
    }
  }

  /** One more removal step on what several searches left is one removal by all of them. */
  lemma {:induction false} CleanForestByStep(ns: seq<Node>, qs: seq<Query>, q: Query)
    ensures CleanForest(CleanForestBy(ns, qs), q) == CleanForestBy(ns, qs + [q])
  {
    if ns != [] {
      var h, rest := ns[0], ns[1..];
      MatchesAnySnoc(h, qs, q);
      CleanForestByStep(rest, qs, q);
      if MatchesAny(h, qs) {
        assert CleanForestBy(ns, qs) == CleanForestBy(rest, qs);
        assert CleanForestBy(ns, qs + [q]) == CleanForestBy(rest, qs + [q]);
      } else {
        var t := if h.Element? then Element(h.name, h.classes, CleanForestBy(h.children, qs)) else h;
        assert CleanForestBy(ns, qs) == [t] + CleanForestBy(rest, qs);
        CleanForestAppend([t], CleanForestBy(rest, qs), q);
        assert Matches(t, q) == Matches(h, q);
        assert [t][1..] == [];
        if Matches(h, q) {
          assert CleanForest([t], q) == [];
          assert CleanForestBy(ns, qs + [q]) == CleanForestBy(rest, qs + [q]);
        } else {
          if h.Element? {
            CleanForestByStep(h.children, qs, q);
          }
          assert CleanForest([t], q) == [CleanTree(t, q)];
        }
      }
    }
  }

  /**
   * Applying the entries one after the other removes exactly what one removal by all
   * their searches removes: every node that one of them matches, with its subtree.
   */
  lemma {:induction false} CleanAllAtOnce(n: Node, entries: seq<string>)
    requires forall e :: e in entries ==> ',' in e
    ensures CleanAll(n, entries) ==
              if n.Element? then Element(n.name, n.classes, CleanForestBy(n.children, Queries(entries))) else n
  {
    if entries == [] {
      if n.Element? {
        CleanForestByNone(n.children);
      }
    } else {
      var init, last := entries[..|entries| - 1], entries[|entries| - 1];
      assert forall e :: e in init ==> e in entries;
      CleanAllAtOnce(n, init);
      if n.Element? {
        CleanForestByStep(n.children, Queries(init), RemoveQuery(last));
      }
    }
  }

  /** The searches of the list match a node exactly when the search of one of its entries does. */
  lemma MatchesAnyQueries(n: Node, entries: seq<string>)
    requires forall e :: e in entries ==> ',' in e
    ensures MatchesAny(n, Queries(entries)) <==> exists e :: e in entries && Matches(n, RemoveQuery(e))
  {
    var qs := Queries(entries);
    if MatchesAny(n, qs) {
      var q :| q in qs && Matches(n, q);
      var i :| 0 <= i < |qs| && qs[i] == q;
      assert entries[i] in entries;
    }
    if exists e :: e in entries && Matches(n, RemoveQuery(e)) {
      var e :| e in entries && Matches(n, RemoveQuery(e));
      var i :| 0 <= i < |entries| && entries[i] == e;
      assert qs[i] in qs;
    }
  }

  /**
   * The page after the whole removal list: its document order is the old one with
   * exactly the positions that `Flags` sets for the list's searches kept.
   */
  lemma CleanAllSelects(n: Node, entries: seq<string>)
    requires forall e :: e in entries ==> ',' in e
    ensures Shallows(Descendants(CleanAll(n, entries))) ==
              Select(Shallows(Descendants(n)), Flags(Children(n), Queries(entries)))
  {
    CleanAllAtOnce(n, entries);
    if n.Element? {
      CleanForestBySelects(n.children, Queries(entries));
    }
  }

  /**
   * One flag per node of the forest in document order: set exactly when the node is
   * kept by a removal by `qs`, that is when no search matches it or an ancestor.
   */
  function Flags(ns: seq<Node>, qs: seq<Query>): (r: seq<bool>)
    ensures |r| == |Preorder(ns)|
  {
    if ns == [] then []
    else
      var below := if ns[0].Element? then Flags(ns[0].children, qs) else [];
      (if MatchesAny(ns[0], qs) then Falses(1 + |below|) else [true] + below) + Flags(ns[1..], qs)
  }

  /** No search of `qs` matches any node of `path`. */
  predicate AvoidsAll(path: seq<Node>, qs: seq<Query>) {
    forall k :: 0 <= k < |path| ==> !MatchesAny(path[k], qs)
  }

  /** The position of the node at `p` in the document order of `ns`. */
  function PreIndex(ns: seq<Node>, p: seq<nat>): (r: nat)
    requires ValidPath(ns, p)
    ensures r < |Preorder(ns)|
    decreases |p|
  {
    PreorderAround(ns, p[0]);
    |Preorder(ns[..p[0]])| + (if |p| == 1 then 0 else 1 + PreIndex(ns[p[0]].children, p[1..]))
  }

  /** The document order of a forest around its `i`-th node. */
  lemma PreorderAround(ns: seq<Node>, i: nat)
    requires i < |ns|
    ensures Preorder(ns) == Preorder(ns[..i]) + ([ns[i]] + Preorder(Children(ns[i]))) + Preorder(ns[i + 1..])
  {
    var before, x, after := ns[..i], ns[i], ns[i + 1..];
    SplitAround(ns, i);
    PreorderAppend(before + [x], after);
    PreorderAppend(before, [x]);
    PreorderSingle(x);
  }

  lemma SplitAround<T>(ns: seq<T>, i: nat)
    requires i < |ns|
    ensures ns == ns[..i] + [ns[i]] + ns[i + 1..]
  {
  }

  lemma PreorderSingle(x: Node)
    ensures Preorder([x]) == [x] + Preorder(Children(x))
  {
    assert [x][1..] == [];
  }

  lemma FlagsSingle(x: Node, qs: seq<Query>)
    ensures var below := if x.Element? then Flags(x.children, qs) else [];
            Flags([x], qs) == if MatchesAny(x, qs) then Falses(1 + |below|) else [true] + below
  {
    assert [x][1..] == [];
  }

  lemma {:induction false} FlagsAppend(a: seq<Node>, b: seq<Node>, qs: seq<Query>)
    ensures Flags(a + b, qs) == Flags(a, qs) + Flags(b, qs)
  {
    if a == [] {
      assert a + b == b;
    } else {
      FlagsAppend(a[1..], b, qs);
      var ab := a + b;
      assert ab != [] && ab[0] == a[0] && ab[1..] == a[1..] + b;
      var below := if a[0].Element? then Flags(a[0].children, qs) else [];
      var h := if MatchesAny(a[0], qs) then Falses(1 + |below|) else [true] + below;
      assert Flags(ab, qs) == h + (Flags(a[1..], qs) + Flags(b, qs));
      Assoc(h, Flags(a[1..], qs), Flags(b, qs));
    }
  }

  lemma MatchesAnyShallow(n: Node, qs: seq<Query>)
    ensures MatchesAny(Shallow(n), qs) == MatchesAny(n, qs)
  {
    assert forall q :: Matches(Shallow(n), q) == Matches(n, q);
  }

  /**
   * The flag at the position of the node at `p` is set exactly when no search matches
   * that node or one of its ancestors; the node there is the node at `p`.
   */
  lemma {:induction false} FlagsAt(ns: seq<Node>, qs: seq<Query>, p: seq<nat>)
    requires ValidPath(ns, p)
    ensures Preorder(ns)[PreIndex(ns, p)] == NodeAt(ns, p)
    ensures Flags(ns, qs)[PreIndex(ns, p)] <==> AvoidsAll(PathShallows(ns, p), qs)
    decreases |p|
  {
    if |p| == 1 {
      FlagsAtTop(ns, qs, p);
    } else {
      FlagsAt(ns[p[0]].children, qs, p[1..]);
      FlagsAtBelow(ns, qs, p);
    }
  }

  lemma FlagsAtTop(ns: seq<Node>, qs: seq<Query>, p: seq<nat>)
    requires ValidPath(ns, p) && |p| == 1
    ensures Preorder(ns)[PreIndex(ns, p)] == NodeAt(ns, p)
    ensures Flags(ns, qs)[PreIndex(ns, p)] <==> AvoidsAll(PathShallows(ns, p), qs)
  {
    var h := ns[p[0]];
    PreorderSingle(h);
    AtBlock(ns, qs, p[0], 0);
    assert PreIndex(ns, p) == |Preorder(ns[..p[0]])|;
    PreorderSingleAt(h, 0);
    FlagsSingleAt(h, qs, 0);
    MatchesAnyShallow(h, qs);
    assert PathShallows(ns, p) == [Shallow(h)] + [];
    AvoidsAllCons(Shallow(h), [], qs);
  }

  lemma FlagsAtBelow(ns: seq<Node>, qs: seq<Query>, p: seq<nat>)
    requires ValidPath(ns, p) && |p| > 1
    requires Preorder(ns[p[0]].children)[PreIndex(ns[p[0]].children, p[1..])] == NodeAt(ns[p[0]].children, p[1..])
    requires Flags(ns[p[0]].children, qs)[PreIndex(ns[p[0]].children, p[1..])] <==>
             AvoidsAll(PathShallows(ns[p[0]].children, p[1..]), qs)
    ensures Preorder(ns)[PreIndex(ns, p)] == NodeAt(ns, p)
    ensures Flags(ns, qs)[PreIndex(ns, p)] <==> AvoidsAll(PathShallows(ns, p), qs)
  {
    var off := 1 + PreIndex(ns[p[0]].children, p[1..]);
    PreorderSingle(ns[p[0]]);
    var j := PreIndex(ns, p);
    assert j == |Preorder(ns[..p[0]])| + off;
    AtBlockIndex(ns, qs, p[0], off, j);
    PreorderAtBelow(ns, p, off);
    FlagAtBelow(ns, qs, p, off, j);
  }

  lemma FlagAtBelow(ns: seq<Node>, qs: seq<Query>, p: seq<nat>, off: nat, j: nat)
    requires ValidPath(ns, p) && |p| > 1 && off == 1 + PreIndex(ns[p[0]].children, p[1..])
    requires off < |Preorder([ns[p[0]]])| && j < |Flags(ns, qs)|
    requires Flags(ns, qs)[j] == Flags([ns[p[0]]], qs)[off]
    requires Flags(ns[p[0]].children, qs)[PreIndex(ns[p[0]].children, p[1..])] <==>
             AvoidsAll(PathShallows(ns[p[0]].children, p[1..]), qs)
    ensures Flags(ns, qs)[j] <==> AvoidsAll(PathShallows(ns, p), qs)
  {
    FlagsSingleAt(ns[p[0]], qs, off);
    FlagsAtDeep(ns, qs, p);
  }

  lemma AtBlockIndex(ns: seq<Node>, qs: seq<Query>, i: nat, off: nat, j: nat)
    requires i < |ns| && off < |Preorder([ns[i]])| && j == |Preorder(ns[..i])| + off
    ensures j < |Preorder(ns)|
    ensures Preorder(ns)[j] == Preorder([ns[i]])[off]
    ensures Flags(ns, qs)[j] == Flags([ns[i]], qs)[off]
  {
    AtBlock(ns, qs, i, off);
  }

  lemma PreorderAtBelow(ns: seq<Node>, p: seq<nat>, off: nat)
    requires ValidPath(ns, p) && |p| > 1 && off == 1 + PreIndex(ns[p[0]].children, p[1..])
    requires Preorder(ns[p[0]].children)[PreIndex(ns[p[0]].children, p[1..])] == NodeAt(ns[p[0]].children, p[1..])
    requires off < |Preorder([ns[p[0]]])|
    ensures Preorder([ns[p[0]]])[off] == NodeAt(ns, p)
  {
    PreorderSingleAt(ns[p[0]], off);
  }

  lemma FlagsAtDeep(ns: seq<Node>, qs: seq<Query>, p: seq<nat>)
    requires ValidPath(ns, p) && |p| > 1
    requires AvoidsAll(PathShallows(ns[p[0]].children, p[1..]), qs) ==
             Flags(ns[p[0]].children, qs)[PreIndex(ns[p[0]].children, p[1..])]
    ensures AvoidsAll(PathShallows(ns, p), qs) <==>
              !MatchesAny(ns[p[0]], qs) && Flags(ns[p[0]].children, qs)[PreIndex(ns[p[0]].children, p[1..])]
  {
    var h := ns[p[0]];
    var tail := PathShallows(h.children, p[1..]);
    assert PathShallows(ns, p) == [Shallow(h)] + tail;
    AvoidsAllCons(Shallow(h), tail, qs);
    MatchesAnyShallow(h, qs);
  }

  lemma PreorderSingleAt(x: Node, off: nat)
    requires off < |Preorder([x])|
    ensures off > 0 ==> x.Element? && off - 1 < |Preorder(x.children)|
    ensures Preorder([x])[off] == if off == 0 then x else Preorder(x.children)[off - 1]
  {
    PreorderSingle(x);
  }

  lemma FlagsSingleAt(x: Node, qs: seq<Query>, off: nat)
    requires off < |Preorder([x])|
    ensures off > 0 ==> x.Element? && off - 1 < |Flags(x.children, qs)|
    ensures Flags([x], qs)[off] <==> !MatchesAny(x, qs) && (off > 0 ==> Flags(x.children, qs)[off - 1])
  {
    PreorderSingle(x);
    FlagsSingle(x, qs);
  }

  /** A position `off` inside the block of the forest's `i`-th node, in document order and in the flags. */
  lemma AtBlock(ns: seq<Node>, qs: seq<Query>, i: nat, off: nat)
    requires i < |ns| && off < |Preorder([ns[i]])|
    ensures |Preorder(ns[..i])| + off < |Preorder(ns)|
    ensures Preorder(ns)[|Preorder(ns[..i])| + off] == Preorder([ns[i]])[off]
    ensures Flags(ns, qs)[|Preorder(ns[..i])| + off] == Flags([ns[i]], qs)[off]
  {
    PreorderThree(ns, i);
    FlagsThree(ns, i, qs);
    IndexBlocks(Preorder(ns), Preorder(ns[..i]), Preorder([ns[i]]), Preorder(ns[i + 1..]),
                Flags(ns, qs), Flags(ns[..i], qs), Flags([ns[i]], qs), Flags(ns[i + 1..], qs),
                off, |Preorder(ns[..i])| + off);
  }

  lemma PreorderThree(ns: seq<Node>, i: nat)
    requires i < |ns|
    ensures Preorder(ns) == Preorder(ns[..i]) + Preorder([ns[i]]) + Preorder(ns[i + 1..])
  {
    var before, x, after := ns[..i], ns[i], ns[i + 1..];
    SplitAround(ns, i);
    PreorderAppend(before + [x], after);
    PreorderAppend(before, [x]);
  }

  lemma FlagsThree(ns: seq<Node>, i: nat, qs: seq<Query>)
    requires i < |ns|
    ensures Flags(ns, qs) == Flags(ns[..i], qs) + Flags([ns[i]], qs) + Flags(ns[i + 1..], qs)
  {
    var before, x, after := ns[..i], ns[i], ns[i + 1..];
    SplitAround(ns, i);
    FlagsAppend(before + [x], after, qs);
    FlagsAppend(before, [x], qs);
  }

  lemma IndexBlocks<T, U>(w: seq<T>, a: seq<T>, b: seq<T>, c: seq<T>,
                          w': seq<U>, a': seq<U>, b': seq<U>, c': seq<U>, k: nat, j: nat)
    requires w == a + b + c && w' == a' + b' + c' && |a'| == |a| && |b'| == |b| && k < |b| && j == |a| + k
    ensures j < |w| && w[j] == b[k]
    ensures j < |w'| && w'[j] == b'[k]
  {
  }


  lemma AvoidsAllCons(x: Node, tail: seq<Node>, qs: seq<Query>)
    ensures AvoidsAll([x] + tail, qs) <==> !MatchesAny(x, qs) && AvoidsAll(tail, qs)
  {
    var path := [x] + tail;
    assert path[0] == x;
    assert forall k :: 0 <= k < |tail| ==> path[k + 1] == tail[k];
    if !MatchesAny(x, qs) && AvoidsAll(tail, qs) {
      forall k | 0 <= k < |path| ensures !MatchesAny(path[k], qs) {
        if k > 0 {
          assert path[k] == tail[k - 1];
        }
      }
    }
  }

  /**
   * The document order after a removal is the old document order with exactly the
   * flagged positions kept: every survivor once, in place, and nothing else.
   */
  lemma {:induction false} CleanForestBySelects(ns: seq<Node>, qs: seq<Query>)
    ensures Shallows(Preorder(CleanForestBy(ns, qs))) == Select(Shallows(Preorder(ns)), Flags(ns, qs))
  {
    if ns != [] {
      CleanForestBySelects(ns[1..], qs);
      if MatchesAny(ns[0], qs) {
        SelectsDropped(ns, qs);
      } else {
        if ns[0].Element? {
          CleanForestBySelects(ns[0].children, qs);
        }
        SelectsKept(ns, qs);
      }
    }
  }

  /** The document order of a non-empty forest: its first node, what is below it, the rest. */
  lemma ShallowsHead(ns: seq<Node>)
    requires ns != []
    ensures Shallows(Preorder(ns)) == ([Shallow(ns[0])] + Shallows(Preorder(Children(ns[0])))) + Shallows(Preorder(ns[1..]))
  {
    var pc, pr := Preorder(Children(ns[0])), Preorder(ns[1..]);
    PreorderCons(ns);
    ShallowsAppend([ns[0]] + pc, pr);
    ShallowsAppend([ns[0]], pc);
    assert Shallows([ns[0]]) == [Shallow(ns[0])];
  }

  lemma SelectsDropped(ns: seq<Node>, qs: seq<Query>)
    requires ns != [] && MatchesAny(ns[0], qs)
    requires Shallows(Preorder(CleanForestBy(ns[1..], qs))) == Select(Shallows(Preorder(ns[1..])), Flags(ns[1..], qs))
    ensures Shallows(Preorder(CleanForestBy(ns, qs))) == Select(Shallows(Preorder(ns)), Flags(ns, qs))
  {
    var below := if ns[0].Element? then Flags(ns[0].children, qs) else [];
    ShallowsHead(ns);
    assert CleanForestBy(ns, qs) == CleanForestBy(ns[1..], qs);
    assert Flags(ns, qs) == Falses(1 + |below|) + Flags(ns[1..], qs);
    SelectDropHead([Shallow(ns[0])] + Shallows(Preorder(Children(ns[0]))), Shallows(Preorder(ns[1..])), Flags(ns[1..], qs));
  }

  lemma SelectsKept(ns: seq<Node>, qs: seq<Query>)
    requires ns != [] && !MatchesAny(ns[0], qs)
    requires Shallows(Preorder(CleanForestBy(ns[1..], qs))) == Select(Shallows(Preorder(ns[1..])), Flags(ns[1..], qs))
    requires ns[0].Element? ==>
               Shallows(Preorder(CleanForestBy(ns[0].children, qs))) == Select(Shallows(Preorder(ns[0].children)), Flags(ns[0].children, qs))
    ensures Shallows(Preorder(CleanForestBy(ns, qs))) == Select(Shallows(Preorder(ns)), Flags(ns, qs))
  {
    var h := ns[0];
    var below := if h.Element? then Flags(h.children, qs) else [];
    var t := if h.Element? then Element(h.name, h.classes, CleanForestBy(h.children, qs)) else h;
    var c := CleanForestBy(ns, qs);
    assert c == [t] + CleanForestBy(ns[1..], qs);
    assert c != [] && c[0] == t && c[1..] == CleanForestBy(ns[1..], qs);
    ShallowsHead(c);
    ShallowsHead(ns);
    assert Flags(ns, qs) == ([true] + below) + Flags(ns[1..], qs);
    assert Shallows(Preorder(Children(t))) == Select(Shallows(Preorder(Children(h))), below);
    SelectKeepHead(Shallow(h), Shallows(Preorder(Children(h))), below, Shallows(Preorder(ns[1..])), Flags(ns[1..], qs));
  }

  lemma SelectDropHead<T>(x: seq<T>, z: seq<T>, fz: seq<bool>)
    requires |z| == |fz|
    ensures Select(x + z, Falses(|x|) + fz) == Select(z, fz)
  {
    SelectAppend(x, Falses(|x|), z, fz);
    SelectFalses(x);
  }

  lemma SelectKeepHead<T>(a: T, y: seq<T>, fy: seq<bool>, z: seq<T>, fz: seq<bool>)
    requires |y| == |fy| && |z| == |fz|
    ensures Select(([a] + y) + z, ([true] + fy) + fz) == ([a] + Select(y, fy)) + Select(z, fz)
  {
    SelectAppend([a] + y, [true] + fy, z, fz);
    SelectAppend([a], [true], y, fy);
    assert Select([a], [true]) == [a];
  }

  /**
   * An entry with an empty tag part, such as ",ad", searches for tags named "", and
   * there are none: a `div` with the class survives.
   */
  lemma EmptyNameRemovesNothing()
    ensures var ad := Element("div", ["ad"], [Text("b")]);
            CleanAll(Element(DocumentName, [], [ad]), [",ad"]) == Element(DocumentName, [], [ad])
  {
    var ad := Element("div", ["ad"], [Text("b")]);
    assert ",ad"[1..] == "ad" && "ad"[1..] == "d" && "d"[1..] == "";
    assert Split("", ',') == [""];
    assert ['d'] + "" == "d" && ['a'] + "d" == "ad";
    assert Split("d", ',') == ["d"];
    assert Split("ad", ',') == ["ad"];
    assert Split(",ad", ',') == ["", "ad"];
    var q := RemoveQuery(",ad");
    assert q == Query(Names([""]), Some("ad"));
    assert !Matches(ad, q);
    assert CleanForest([Text("b")], q) == [Text("b")];
    assert CleanForest([ad], q) == [ad];
  }

  /**
   * An entry with an empty class part, such as "div,", still passes `class_=""`,
   * which matches only tags without classes: a classed `div` survives.
   */
  lemma EmptyClassRemovesOnlyClassless()
    ensures var plain := Element("div", [], [Text("a")]);
            var ad := Element("div", ["ad"], [Text("b")]);
            CleanAll(Element(DocumentName, [], [plain, ad]), ["div,"]) == Element(DocumentName, [], [ad])
  {
    var plain := Element("div", [], [Text("a")]);
    var ad := Element("div", ["ad"], [Text("b")]);
    assert "div,"[1..] == "iv," && "iv,"[1..] == "v," && "v,"[1..] == "," && ","[1..] == "";
    assert Split(",", ',') == ["", ""];
    assert ['v'] + "" == "v" && ['i'] + "v" == "iv" && ['d'] + "iv" == "div";
    assert Split("v,", ',') == ["v", ""];
    assert Split("iv,", ',') == ["iv", ""];
    assert Split("div,", ',') == ["div", ""];
    var q := RemoveQuery("div,");
    assert q == Query(Names(["div"]), Some(""));
    assert Matches(plain, q);
    assert Join(["ad"], ' ') == "ad";
    assert !Matches(ad, q);
    assert CleanForest([Text("b")], q) == [Text("b")];
    assert CleanForest([ad], q) == [ad];
    assert CleanForest([plain, ad], q) == CleanForest([ad], q);
  }

  /** A parsed page whose tree the extraction changes in place. */
  class Soup {
    var root: Node

    constructor (root: Node)
      ensures this.root == root
    {
      this.root := root;
    }
  }

  /** `cleanSoup`: applies the `;`-separated `tag,class` entries one after the other. */
  method CleanSoup(soup: Soup, htmlTagsAndClasses: string)
    requires RemoveListWellFormed(htmlTagsAndClasses)
    modifies soup
    ensures soup.root == CleanAll(old(soup.root), Split(htmlTagsAndClasses, ';'))
  {
    var entries := Split(htmlTagsAndClasses, ';');
    for i := 0 to |entries|
      invariant soup.root == CleanAll(old(soup.root), entries[..i])
    {
      assert entries[..i + 1][..i] == entries[..i];
      soup.root := CleanTree(soup.root, RemoveQuery(entries[i]));
    }
    assert entries[..|entries|] == entries;
  }

  // ---------------------------------------------------------------------------
  // extractArticleDetails
  // ---------------------------------------------------------------------------

  /** A profile's entry for one detail: the empty string, or a selector. */
  datatype Descriptor = Empty | Sel(sel: Selector)

  datatype Result<T> = Success(value: T) | Failure(error: string)

  /** The text one detail contributes; `None` where `.get_text()` would be called on `None`. */
  function DetailText(d: Descriptor, root: Node): Option<string> {
    match d
    case Empty => Some("Unknown")
    case Sel(sel) =>
      match LocateContent(sel, root, false, true)
      case Found(n) => Some(GetText(n))
      case Fallback => Some(GetText(UnknownDoc))
      case NotFound => None
  }

  /** The details in key order; the first detail without a text stops the extraction. */
  function DetailsOf(contentDetails: seq<(string, Descriptor)>, root: Node): Result<seq<string>> {
    if contentDetails == [] then Success([])
    else
      var last := contentDetails[|contentDetails| - 1];
      match DetailsOf(contentDetails[..|contentDetails| - 1], root)
      case Failure(e) => Failure(e)
      case Success(details) =>
        match DetailText(last.1, root)
        case None => Failure(MissingDetail(last.0))
        case Some(t) => Success(details + [t])
  }

  function MissingDetail(key: string): string {
    "no element found for the detail " + key
  }

  /**
   * An empty descriptor, or a configured container that is absent from the page,
   * gives "Unknown"; a present container without the element gives no text at all;
   * otherwise the detail is the text of the element found.
   */
  lemma DetailTextMeaning(d: Descriptor, root: Node)
    ensures d.Empty? ==> DetailText(d, root) == Some("Unknown")
    ensures (d.Sel? && d.sel.containerClass != "" && FindAll(root, ContainerQuery(d.sel.containerClass), true) == [])
              ==> DetailText(d, root) == Some("Unknown")
    ensures DetailText(d, root).None? <==> d.Sel? && LocateContent(d.sel, root, false, true).NotFound?
    ensures d.Sel? && LocateContent(d.sel, root, false, true).Found? ==>
              DetailText(d, root) == Some(GetText(LocateContent(d.sel, root, false, true).node))
  {
    UnknownDocRenders();
  }

  /** The placeholder document reads "Unknown", both as text and as markup. */
  lemma UnknownDocRenders()
    ensures GetText(UnknownDoc) == "Unknown" && Markup(UnknownDoc) == "Unknown"
  {
    var ts := [Text("Unknown")];
    assert ts[1..] == [];
    assert ForestText(ts) == "Unknown";
    EscapePlain("Unknown");
    assert ForestMarkup(ts) == "Unknown";
  }

  /** One entry per detail key, in key order, unless some detail has no text. */
  lemma {:induction false} DetailsMeaning(contentDetails: seq<(string, Descriptor)>, root: Node)
    ensures DetailsOf(contentDetails, root).Success? <==>
              forall i :: 0 <= i < |contentDetails| ==> DetailText(contentDetails[i].1, root).Some?
    ensures DetailsOf(contentDetails, root).Success? ==>
              var details := DetailsOf(contentDetails, root).value;
              |details| == |contentDetails| &&
              forall i :: 0 <= i < |contentDetails| ==> details[i] == DetailText(contentDetails[i].1, root).value
  {
    if contentDetails != [] {
      var init := contentDetails[..|contentDetails| - 1];
      DetailsMeaning(init, root);
      assert forall i :: 0 <= i < |init| ==> init[i] == contentDetails[i];
    }
  }

  /** Once a prefix of the details fails, the whole extraction fails the same way. */
  lemma {:induction false} DetailsFailureStays(contentDetails: seq<(string, Descriptor)>, k: nat, root: Node)
    requires k <= |contentDetails| && DetailsOf(contentDetails[..k], root).Failure?
    ensures DetailsOf(contentDetails, root) == DetailsOf(contentDetails[..k], root)
    decreases |contentDetails| - k
  {
    if k < |contentDetails| {
      var init := contentDetails[..|contentDetails| - 1];
      assert init[..k] == contentDetails[..k];
      DetailsFailureStays(init, k, root);
    } else {
      assert contentDetails[..k] == contentDetails;
    }
  }

  /** `extractArticleDetails` */
  method ExtractArticleDetails(contentDetails: seq<(string, Descriptor)>, soup: Soup) returns (details: Result<seq<string>>)
    ensures details == DetailsOf(contentDetails, soup.root)
  {
    var collected: seq<string> := [];
    for i := 0 to |contentDetails|
      invariant DetailsOf(contentDetails[..i], soup.root) == Success(collected)
    {
      assert contentDetails[..i + 1][..i] == contentDetails[..i];
      var (key, descriptor) := contentDetails[i];
      if descriptor != Empty {
        var located := LocateContent(descriptor.sel, soup.root, false, true);
        if located.NotFound? {
          DetailsFailureStays(contentDetails, i + 1, soup.root);
          return Failure(MissingDetail(key));
        }
        var text := if located.Found? then GetText(located.node) else GetText(UnknownDoc);
        collected := collected + [text];
      } else {
        collected := collected + ["Unknown"];
      }
    }
    assert contentDetails[..|contentDetails|] == contentDetails;
    details := Success(collected);
  }

  // ---------------------------------------------------------------------------
  // extractArticleContent
  // ---------------------------------------------------------------------------

  /** The `content` part of a profile. */
  datatype ContentProfile = ContentProfile(sel: Selector, remove: string, headerImage: Descriptor, recursive: string)

  predicate ContentProfileWellFormed(c: ContentProfile) {
    c.remove != "" ==> RemoveListWellFormed(c.remove)
  }

  /** The tree the text is looked up in: cleaned by the removal list, when there is one. */
  function Cleaned(c: ContentProfile, root: Node): (r: Node)
    requires ContentProfileWellFormed(c)
    ensures c.remove == "" ==> r == root
    ensures Shallow(r) == Shallow(root)
    ensures forall e :: e in Split(c.remove, ';') && c.remove != "" ==> FindAll(r, RemoveQuery(e), true) == []
    ensures c.remove != "" ==> KeepsUnmatched(root, r, Split(c.remove, ';'))
    ensures IsSubseq(Shallows(Descendants(r)), Shallows(Descendants(root)))
    ensures c.remove != "" ==>
              Shallows(Descendants(r)) == Select(Shallows(Descendants(root)), Flags(Children(root), Queries(Split(c.remove, ';'))))
  {
    if c.remove != "" then
      CleanAllRemovesEvery(root, Split(c.remove, ';'));
      CleanAllKeepsEveryUnmatched(root, Split(c.remove, ';'));
      CleanAllKeepsOrder(root, Split(c.remove, ';'));
      CleanAll(root, Split(c.remove, ';'))
    else
      SubseqRefl(Shallows(Descendants(root)));
      root
  }

  /** The text elements: several tags, searched recursively exactly when the profile says "True". */
  function TextList(c: ContentProfile, root: Node): Located
    requires ContentProfileWellFormed(c)
  {
    LocateContent(c.sel, Cleaned(c, root), true, c.recursive == "True")
  }

  function HeaderImage(c: ContentProfile, root: Node): Located
    requires ContentProfileWellFormed(c) && c.headerImage.Sel?
  {
    LocateContent(c.headerImage.sel, Cleaned(c, root), false, true)
  }

  /**
   * The elements the assembly loop walks: the located list, or the children of the
   * placeholder document; a header image, when configured and not `None`, goes in
   * front. A placeholder inserted into the placeholder hands over its children.
   */
  function ContentElements(c: ContentProfile, root: Node): seq<Node>
    requires ContentProfileWellFormed(c)
  {
    var textList := TextList(c, root);
    var items := if textList.FoundAll? then textList.nodes else UnknownDoc.children;
    if c.headerImage.Empty? then items
    else
      match HeaderImage(c, root)
      case NotFound => items
      case Found(h) => [h] + items
      case Fallback => (if textList.FoundAll? then [UnknownDoc] else UnknownDoc.children) + items
  }

  /**
   * The page after `extractArticleContent`: cleaned and, when a found header image
   * was inserted into the placeholder document, without that image, which the
   * insertion moved out of the page.
   */
  function ContentSoupAfter(c: ContentProfile, root: Node): Node
    requires ContentProfileWellFormed(c)
  {
    var cleaned := Cleaned(c, root);
    if c.headerImage.Sel? && TextList(c, root).Fallback? && HeaderImage(c, root).Found? then
      HeaderPathLocates(c.headerImage.sel, cleaned);
      Detach(cleaned, HeaderPath(c.headerImage.sel, cleaned).value)
    else cleaned
  }

  /** A found header image is element 0 and the text elements follow in their order. */
  lemma HeaderComesFirst(c: ContentProfile, root: Node)
    requires ContentProfileWellFormed(c) && c.headerImage.Sel? && HeaderImage(c, root).Found?
    ensures var elements := ContentElements(c, root);
            var textList := TextList(c, root);
            && |elements| >= 1
            && elements[0] == HeaderImage(c, root).node
            && elements[1..] == (if textList.FoundAll? then textList.nodes else [Text("Unknown")])
  {
  }

  /** One element's contribution: its text, or its markup. */
  function Render(n: Node, clearText: bool): string {
    if clearText then GetText(n) else Str(n)
  }

  function Renderings(elements: seq<Node>, clearText: bool): seq<string> {
    seq(|elements|, i requires 0 <= i < |elements| => Render(elements[i], clearText))
  }

  /** Each piece followed by the delimiter, in order. */
  function Terminated(pieces: seq<string>, delimiter: string): string {
    if pieces == [] then "" else pieces[0] + delimiter + Terminated(pieces[1..], delimiter)
  }

  /** The assembled article: each element's rendering followed by the delimiter. */
  function Assemble(elements: seq<Node>, clearText: bool, delimiter: string): string {
    Terminated(Renderings(elements, clearText), delimiter)
  }

  lemma {:induction false} TerminatedEnds(pieces: seq<string>, delimiter: string)
    ensures pieces == [] ==> Terminated(pieces, delimiter) == ""
    ensures pieces != [] ==>
              var r := Terminated(pieces, delimiter);
              |delimiter| <= |r| && r[|r| - |delimiter|..] == delimiter
  {
    if pieces != [] {
      var rest := Terminated(pieces[1..], delimiter);
      var r := Terminated(pieces, delimiter);
      var head := pieces[0] + delimiter;
      assert r == head + rest;
      if pieces[1..] != [] {
        TerminatedEnds(pieces[1..], delimiter);
        assert r[|r| - |delimiter|..] == rest[|rest| - |delimiter|..];
      } else {
        assert rest == "";
        assert r == head;
      }
    }
  }

  /** No element gives the empty string; otherwise the text ends with the delimiter. */
  lemma AssembleEnds(elements: seq<Node>, clearText: bool, delimiter: string)
    ensures elements == [] ==> Assemble(elements, clearText, delimiter) == ""
    ensures elements != [] ==>
              var r := Assemble(elements, clearText, delimiter);
              |delimiter| <= |r| && r[|r| - |delimiter|..] == delimiter
  {
    TerminatedEnds(Renderings(elements, clearText), delimiter);
  }

  lemma {:induction false} TerminatedSnoc(pieces: seq<string>, p: string, delimiter: string)
    ensures Terminated(pieces + [p], delimiter) == Terminated(pieces, delimiter) + p + delimiter
  {
    var t := pieces + [p];
    if pieces == [] {
      assert t == [p] && t[1..] == [];
    } else {
      assert t[0] == pieces[0] && t[1..] == pieces[1..] + [p];
      TerminatedSnoc(pieces[1..], p, delimiter);
    }
  }

  lemma AssembleSnoc(elements: seq<Node>, e: Node, clearText: bool, delimiter: string)
    ensures Assemble(elements + [e], clearText, delimiter) ==
            Assemble(elements, clearText, delimiter) + Render(e, clearText) + delimiter
  {
    assert Renderings(elements + [e], clearText) == Renderings(elements, clearText) + [Render(e, clearText)];
    TerminatedSnoc(Renderings(elements, clearText), Render(e, clearText), delimiter);
  }

  lemma {:induction false} TerminatedSplit(pieces: seq<string>, d: char)
    requires forall i :: 0 <= i < |pieces| ==> d !in pieces[i]
    ensures Split(Terminated(pieces, [d]), d) == pieces + [""]
  {
    if pieces != [] {
      var rest := Terminated(pieces[1..], [d]);
      TerminatedSplit(pieces[1..], d);
      SplitConcat(pieces[0], rest, d);
      SplitNoSeparator(pieces[0], d);
      assert pieces[0] + [d] + rest == Terminated(pieces, [d]);
      assert pieces + [""] == [pieces[0]] + (pieces[1..] + [""]);
    }
  }

  /**
   * Splitting the assembled text at a one-character delimiter that no rendering
   * contains gives back the renderings, in order, and a final empty piece.
   */
  lemma AssembleSplit(elements: seq<Node>, clearText: bool, d: char)
    requires forall i :: 0 <= i < |elements| ==> d !in Render(elements[i], clearText)
    ensures Split(Assemble(elements, clearText, [d]), d) == Renderings(elements, clearText) + [""]
  {
    TerminatedSplit(Renderings(elements, clearText), d);
  }

  /**
   * The first half of `extractArticleContent`: cleans the soup when there is a
   * removal list, locates the text list and puts the header image in front.
   */
  method CollectContentElements(textDetails: ContentProfile, soup: Soup) returns (elements: seq<Node>)
    requires ContentProfileWellFormed(textDetails)
    modifies soup
    ensures soup.root == ContentSoupAfter(textDetails, old(soup.root))
    ensures elements == ContentElements(textDetails, old(soup.root))
  {
    ghost var page := soup.root;
    if textDetails.remove != "" {
      CleanSoup(soup, textDetails.remove);
    }
    assert soup.root == Cleaned(textDetails, page);
    var textList := LocateContent(textDetails.sel, soup.root, true, textDetails.recursive == "True");
    elements := if textList.FoundAll? then textList.nodes else UnknownDoc.children;
    if textDetails.headerImage.Sel? {
      var headerImage := LocateContent(textDetails.headerImage.sel, soup.root, false, true);
      if headerImage.Found? {
        if textList.Fallback? {
          // Inserting into the placeholder document moves the tag out of the page.
          HeaderPathLocates(textDetails.headerImage.sel, soup.root);
          soup.root := Detach(soup.root, HeaderPath(textDetails.headerImage.sel, soup.root).value);
        }
        elements := [headerImage.node] + elements;
      } else if headerImage.Fallback? {
        // A document inserted into a document hands over its children.
        elements := (if textList.FoundAll? then [UnknownDoc] else UnknownDoc.children) + elements;
      }
    }
  }

  /**
   * The second half of `extractArticleContent`: each element's text (or markup)
   * followed by the delimiter, appended in order.
   */
  method AssembleText(elements: seq<Node>, clearText: bool, delimiter: string) returns (assembledText: string)
    ensures assembledText == Assemble(elements, clearText, delimiter)
  {
    assembledText := "";
    for i := 0 to |elements|
      invariant assembledText == Assemble(elements[..i], clearText, delimiter)
    {
      AssembleSnoc(elements[..i], elements[i], clearText, delimiter);
      assert elements[..i + 1] == elements[..i] + [elements[i]];
      if clearText {
        assembledText := assembledText + GetText(elements[i]) + delimiter;
      } else {
        assembledText := assembledText + Str(elements[i]) + delimiter;
      }
    }
    assert elements[..|elements|] == elements;
  }

  /** `extractArticleContent` */
  method ExtractArticleContent(textDetails: ContentProfile, soup: Soup, clearText: bool, delimiter: string)
    returns (assembledText: string)
    requires ContentProfileWellFormed(textDetails)
    modifies soup
    ensures soup.root == ContentSoupAfter(textDetails, old(soup.root))
    ensures assembledText == Assemble(ContentElements(textDetails, old(soup.root)), clearText, delimiter)
  {
    var elements := CollectContentElements(textDetails, soup);
    assembledText := AssembleText(elements, clearText, delimiter);
  }

  // ---------------------------------------------------------------------------
  // extractAllDetails
  // ---------------------------------------------------------------------------

  /** The `scraping` part of a profile. */
  datatype Profile = Profile(details: seq<(string, Descriptor)>, content: ContentProfile)

  datatype Article = Article(details: seq<string>, content: string, clearText: string)

  /**
   * `extractAllDetails` on an already parsed page: the details, then the content as
   * markup, then the content as text, all three on the same soup.
   */
  method ExtractAllDetails(currentProfile: Profile, page: Node) returns (r: Result<Article>)
    requires ContentProfileWellFormed(currentProfile.content)
    ensures r.Success? <==> DetailsOf(currentProfile.details, page).Success?
    ensures r.Success? ==>
              var c := currentProfile.content;
              r.value == Article(DetailsOf(currentProfile.details, page).value,
                                 Assemble(ContentElements(c, page), false, "\n"),
                                 Assemble(ContentElements(c, ContentSoupAfter(c, page)), true, "\n"))
  {
    var articleSoup := new Soup(page);
    var articleDetails := ExtractArticleDetails(currentProfile.details, articleSoup);
    if articleDetails.Failure? {
      return Failure(articleDetails.error);
    }
    var articleContent := ExtractArticleContent(currentProfile.content, articleSoup, false, "\n");
    var articleClearText := ExtractArticleContent(currentProfile.content, articleSoup, true, "\n");
    r := Success(Article(articleDetails.value, articleContent, articleClearText));
  }

  /**
   * The second pass sees the same elements as the first: cleaning is idempotent, so
   * unless the first pass moved a header image out of the page, markup and text
   * are rendered from one and the same element list.
   */
  lemma SecondPassSeesSameElements(c: ContentProfile, root: Node)
    requires ContentProfileWellFormed(c)
    requires !(c.headerImage.Sel? && TextList(c, root).Fallback? && HeaderImage(c, root).Found?)
    ensures ContentSoupAfter(c, root) == Cleaned(c, root)
    ensures ContentElements(c, ContentSoupAfter(c, root)) == ContentElements(c, root)
  {
    if c.remove != "" {
      CleanAllIdempotent(root, Split(c.remove, ';'));
    }
  }

  /**
   * The exception to the lemma above. With no text container on the page and a
   * header image present, the markup pass inserts the image into the placeholder
   * document and so moves it out of the page; the text pass then finds no image.
   */
  lemma HeaderMovedBetweenPasses()
    ensures var img := Element("img", ["hero"], []);
            var page := Element(DocumentName, [], [img]);
            var c := ContentProfile(Selector("article-body", "p", ""), "", Sel(Selector("", "img", "hero")), "True");
            && ContentElements(c, page) == [img, Text("Unknown")]
            && ContentSoupAfter(c, page) == Element(DocumentName, [], [])
            && ContentElements(c, ContentSoupAfter(c, page)) == [Text("Unknown")]
  {
    var img := Element("img", ["hero"], []);
    var page := Element(DocumentName, [], [img]);
    var c := ContentProfile(Selector("article-body", "p", ""), "", Sel(Selector("", "img", "hero")), "True");
    var empty := Element(DocumentName, [], []);
    HeroOnPage(c, page, img, empty);
    HeroGone(c, empty);
  }

  lemma HeroOnPage(c: ContentProfile, page: Node, img: Node, empty: Node)
    requires img == Element("img", ["hero"], []) && page == Element(DocumentName, [], [img])
    requires empty == Element(DocumentName, [], [])
    requires c == ContentProfile(Selector("article-body", "p", ""), "", Sel(Selector("", "img", "hero")), "True")
    ensures ContentElements(c, page) == [img, Text("Unknown")]
    ensures ContentSoupAfter(c, page) == empty
  {
    HeroFound(c, page, img);
  }

  lemma HeroFound(c: ContentProfile, page: Node, img: Node)
    requires img == Element("img", ["hero"], []) && page == Element(DocumentName, [], [img])
    requires c == ContentProfile(Selector("article-body", "p", ""), "", Sel(Selector("", "img", "hero")), "True")
    ensures TextList(c, page) == Fallback && HeaderImage(c, page) == Found(img)
    ensures HeaderPath(c.headerImage.sel, page) == Some([0])
  {
    var header := c.headerImage.sel;
    assert Preorder([img]) == [img];
    assert Filter([img], ContainerQuery("article-body")) == [];
    assert Matches(img, ElementQuery(header, false));
    assert Filter([img], ElementQuery(header, false)) == [img];
  }

  lemma HeroGone(c: ContentProfile, empty: Node)
    requires empty == Element(DocumentName, [], [])
    requires c == ContentProfile(Selector("article-body", "p", ""), "", Sel(Selector("", "img", "hero")), "True")
    ensures ContentElements(c, empty) == [Text("Unknown")]
  {
    assert Filter([], ContainerQuery("article-body")) == [];
    assert Filter([], ElementQuery(c.headerImage.sel, false)) == [];
    assert TextList(c, empty) == Fallback && HeaderImage(c, empty) == NotFound;
  }
}
