/** The parsed page and the two rewrites the `/fetch` handler applies to it
    (app.js:39-60): the text nodes selected by `$('body *').contents()` and the
    text of the `<title>` elements. The page is a value; the in-place
    `replaceWith` and `text(...)` calls become functions that return the new tree. */
module Dom {
  import opened CaseText
  import opened Rewriter

  datatype Attr = Attr(name: string, value: string)

  /** A node of the parsed page. Comments stand for every node kind that is
      neither an element nor a text node (node type 3). */
  datatype Node =
    | Element(tag: string, attrs: seq<Attr>, children: seq<Node>)
    | Text(data: string)
    | Comment(data: string)

  // ---------------------------------------------------------------------
  // The body walk
  // ---------------------------------------------------------------------

  /** The walk over `n`. `under` says that some strict ancestor of `n` is a
      `body` element, so that `n`, if it is an element, is matched by the
      selector `body *` and its text children are rewritten. */
  function RewriteBody(w: WordPair, n: Node, under: bool): (r: Node)
    requires |w.target| > 0
    decreases n
  {
    match n
    case Element(t, a, c) => Element(t, a, RewriteChildren(w, c, under, under || t == "body"))
    case Text(_) => n
    case Comment(_) => n
  }

  /** The children of one element: text children are rewritten when `texts` holds
      (the element is matched by `body *`), element children are walked with
      `under` as their own flag, other nodes are kept. */
  function RewriteChildren(w: WordPair, cs: seq<Node>, texts: bool, under: bool): (r: seq<Node>)
    requires |w.target| > 0
    ensures |r| == |cs|
    decreases cs
  {
    if cs == [] then []
    else
      var head :=
        match cs[0]
        case Text(s) => if texts then Text(Rewrite(w, s)) else cs[0]
        case Element(_, _, _) => RewriteBody(w, cs[0], under)
        case Comment(_) => cs[0];
      [head] + RewriteChildren(w, cs[1..], texts, under)
  }

  /** The body rewrite of a whole page, from its root element. */
  function RewritePageBody(w: WordPair, root: Node): (r: Node)
    requires |w.target| > 0
    ensures Markup(r) == Markup(root) && TitleCount(r) == TitleCount(root)
  {
    RewriteBodyMarkup(w, root, false);
    RewriteBodyTitleCount(w, root, false);
    RewriteBody(w, root, false)
  }

  // ---------------------------------------------------------------------
  // The reference description of the walk: which text nodes are selected
  // ---------------------------------------------------------------------

  /** A text node in document order, with the tags of its ancestors from the root
      down to its parent. */
  datatype Slot = Slot(data: string, path: seq<string>)

  function Slots(n: Node, path: seq<string>): seq<Slot>
    decreases n
  {
    match n
    case Text(s) => [Slot(s, path)]
    case Comment(_) => []
    case Element(t, _, c) => SlotsOf(c, path + [t])
  }

  function SlotsOf(cs: seq<Node>, path: seq<string>): seq<Slot>
    decreases cs
  {
    if cs == [] then [] else Slots(cs[0], path) + SlotsOf(cs[1..], path)
  }

  /** `$('body *').contents()` keeps a text node exactly when its parent element
      lies strictly inside a `body` element. */
  predicate Selected(path: seq<string>) {
    |path| > 0 && "body" in path[..|path| - 1]
  }

  /** The text nodes of a page after the rewrite: selected ones rewritten, the rest kept. */
  function RewriteSlots(w: WordPair, ss: seq<Slot>): (r: seq<Slot>)
    requires |w.target| > 0
    ensures |r| == |ss|
  {
    seq(|ss|, i requires 0 <= i < |ss| =>
      if Selected(ss[i].path) then Slot(Rewrite(w, ss[i].data), ss[i].path) else ss[i])
  }

  lemma RewriteSlotsConcat(w: WordPair, a: seq<Slot>, b: seq<Slot>)
    requires |w.target| > 0
    ensures RewriteSlots(w, a + b) == RewriteSlots(w, a) + RewriteSlots(w, b)
  {
  }

  /** The walk rewrites exactly the selected text nodes, each with the text rewrite,
      and keeps every other text node as it was. */
  lemma {:induction false} RewriteBodySlots(w: WordPair, n: Node, path: seq<string>)
    requires |w.target| > 0 && (n.Element? || path == [])
    ensures Slots(RewriteBody(w, n, "body" in path), path) == RewriteSlots(w, Slots(n, path))
    decreases n
  {
    match n
    case Element(t, a, c) =>
      var q := path + [t];
      assert q[..|q| - 1] == path;
      assert ("body" in q) == ("body" in path || t == "body");
      RewriteChildrenSlots(w, c, q);
    case Text(_) =>
    case Comment(_) =>
  }

  lemma {:induction false} RewriteChildrenSlots(w: WordPair, cs: seq<Node>, q: seq<string>)
    requires |w.target| > 0 && |q| > 0
    ensures SlotsOf(RewriteChildren(w, cs, "body" in q[..|q| - 1], "body" in q), q)
         == RewriteSlots(w, SlotsOf(cs, q))
    decreases cs
  {
    if cs != [] {
      var texts, under := "body" in q[..|q| - 1], "body" in q;
      var r := RewriteChildren(w, cs, texts, under);
      assert r[1..] == RewriteChildren(w, cs[1..], texts, under);
      RewriteChildrenSlots(w, cs[1..], q);
      RewriteSlotsConcat(w, Slots(cs[0], q), SlotsOf(cs[1..], q));
      assert SlotsOf(r, q) == Slots(r[0], q) + SlotsOf(r[1..], q);
      match cs[0]
      case Text(s) =>
        assert Slots(r[0], q) == RewriteSlots(w, [Slot(s, q)]);
      case Element(_, _, _) => RewriteBodySlots(w, cs[0], q);
      case Comment(_) =>
    }
  }

  /** For a whole page: the text nodes after the body rewrite are those before it,
      the selected ones rewritten. */
  lemma PageBodySlots(w: WordPair, root: Node)
    requires |w.target| > 0
    ensures Slots(RewritePageBody(w, root), []) == RewriteSlots(w, Slots(root, []))
  {
    RewriteBodySlots(w, root, []);
  }

  // ---------------------------------------------------------------------
  // Markup: everything but the text
  // ---------------------------------------------------------------------

  /** The page with every text emptied: the tags, attributes, comments and nesting. */
  function Markup(n: Node): Node
    decreases n
  {
    match n
    case Element(t, a, c) => Element(t, a, MarkupOf(c))
    case Text(_) => Text("")
    case Comment(_) => n
  }

  function MarkupOf(cs: seq<Node>): (r: seq<Node>)
    ensures |r| == |cs|
    decreases cs
  {
    if cs == [] then [] else [Markup(cs[0])] + MarkupOf(cs[1..])
  }

  /** The walk never changes a tag name, an attribute (`href`, `src`, `alt`, ...),
      a comment or the shape of the tree. */
  lemma {:induction false} RewriteBodyMarkup(w: WordPair, n: Node, under: bool)
    requires |w.target| > 0
    ensures Markup(RewriteBody(w, n, under)) == Markup(n)
    decreases n
  {
    match n
    case Element(t, a, c) => RewriteChildrenMarkup(w, c, under, under || t == "body");
    case Text(_) =>
    case Comment(_) =>
  }

  lemma {:induction false} RewriteChildrenMarkup(w: WordPair, cs: seq<Node>, texts: bool, under: bool)
    requires |w.target| > 0
    ensures MarkupOf(RewriteChildren(w, cs, texts, under)) == MarkupOf(cs)
    decreases cs
  {
    if cs != [] {
      var r := RewriteChildren(w, cs, texts, under);
      assert r[1..] == RewriteChildren(w, cs[1..], texts, under);
      RewriteChildrenMarkup(w, cs[1..], texts, under);
      match cs[0]
      case Text(_) =>
      case Element(_, _, _) => RewriteBodyMarkup(w, cs[0], under);
      case Comment(_) =>
    }
  }

  // ---------------------------------------------------------------------
  // The title
  // ---------------------------------------------------------------------

  /** The text of a node: its text descendants in document order (cheerio `text()`). */
  function TextContent(n: Node): string
    decreases n
  {
    match n
    case Text(s) => s
    case Comment(_) => ""
    case Element(_, _, c) => TextContentOf(c)
  }

  function TextContentOf(cs: seq<Node>): string
    decreases cs
  {
    if cs == [] then "" else TextContent(cs[0]) + TextContentOf(cs[1..])
  }

  /** `$('title').text()`: the texts of all `title` elements in document order,
      concatenated; the empty string when there is none. */
  function TitleText(n: Node): string
    decreases n
  {
    match n
    case Element(t, _, c) => (if t == "title" then TextContentOf(c) else "") + TitleTextOf(c)
    case Text(_) => ""
    case Comment(_) => ""
  }

  function TitleTextOf(cs: seq<Node>): string
    decreases cs
  {
    if cs == [] then "" else TitleText(cs[0]) + TitleTextOf(cs[1..])
  }

  /** `$('title').text(x)`: every `title` element gets one text child `x`. */
  function SetTitle(n: Node, x: string): (r: Node)
    ensures TitleCount(r) == TitleCount(n)
    decreases n
  {
    match n
    case Element(t, a, c) => if t == "title" then Element(t, a, [Text(x)]) else Element(t, a, SetTitleOf(c, x))
    case Text(_) => n
    case Comment(_) => n
  }

  function SetTitleOf(cs: seq<Node>, x: string): (r: seq<Node>)
    ensures |r| == |cs| && TitleCountOf(r) == TitleCountOf(cs)
    decreases cs
  {
    if cs == [] then [] else [SetTitle(cs[0], x)] + SetTitleOf(cs[1..], x)
  }

  /** The number of `title` elements that are not inside another `title` element. */
  function TitleCount(n: Node): nat
    decreases n
  {
    match n
    case Element(t, _, c) => if t == "title" then 1 else TitleCountOf(c)
    case Text(_) => 0
    case Comment(_) => 0
  }

  function TitleCountOf(cs: seq<Node>): nat
    decreases cs
  {
    if cs == [] then 0 else TitleCount(cs[0]) + TitleCountOf(cs[1..])
  }

  /** `x` written `k` times. */
  function Repeat(x: string, k: nat): string {
    if k == 0 then "" else x + Repeat(x, k - 1)
  }

  lemma {:induction false} RepeatAdd(x: string, a: nat, b: nat)
    ensures Repeat(x, a + b) == Repeat(x, a) + Repeat(x, b)
    decreases a
  {
    if a > 0 {
      RepeatAdd(x, a - 1, b);
      assert a + b - 1 == (a - 1) + b;
    }
  }

  /** Reading the title back after setting it to `x` gives `x` once per title element. */
  lemma {:induction false} SetTitleReadBack(n: Node, x: string)
    ensures TitleText(SetTitle(n, x)) == Repeat(x, TitleCount(n))
    decreases n
  {
    match n
    case Element(t, a, c) =>
      if t == "title" {
        assert TextContentOf([Text(x)]) == x + TextContentOf([]);
        assert TitleTextOf([Text(x)]) == TitleText(Text(x)) + TitleTextOf([]);
      } else {
        SetTitleOfReadBack(c, x);
      }
    case Text(_) =>
    case Comment(_) =>
  }

  lemma {:induction false} SetTitleOfReadBack(cs: seq<Node>, x: string)
    ensures TitleTextOf(SetTitleOf(cs, x)) == Repeat(x, TitleCountOf(cs))
    decreases cs
  {
    if cs != [] {
      var r := SetTitleOf(cs, x);
      assert r[0] == SetTitle(cs[0], x) && r[1..] == SetTitleOf(cs[1..], x);
      SetTitleReadBack(cs[0], x);
      SetTitleOfReadBack(cs[1..], x);
      RepeatAdd(x, TitleCount(cs[0]), TitleCountOf(cs[1..]));
    }
  }

  /** The child lists of the `title` elements that are not inside another `title`
      element, in document order. */
  function TitleChildren(n: Node): (r: seq<seq<Node>>)
    ensures |r| == TitleCount(n)
    decreases n
  {
    match n
    case Element(t, _, c) => if t == "title" then [c] else TitleChildrenOf(c)
    case Text(_) => []
    case Comment(_) => []
  }

  function TitleChildrenOf(cs: seq<Node>): (r: seq<seq<Node>>)
    ensures |r| == TitleCountOf(cs)
    decreases cs
  {
    if cs == [] then [] else TitleChildren(cs[0]) + TitleChildrenOf(cs[1..])
  }

  /** After the title write every `title` element holds exactly one text node, `x`. */
  lemma {:induction false} SetTitleChildren(n: Node, x: string)
    ensures TitleChildren(SetTitle(n, x)) == seq(TitleCount(n), i => [Text(x)])
    decreases n
  {
    match n
    case Element(t, a, c) =>
      if t == "title" {
        assert seq(1, i => [Text(x)]) == [[Text(x)]];
      } else {
        SetTitleOfChildren(c, x);
      }
    case Text(_) =>
    case Comment(_) =>
  }

  lemma {:induction false} SetTitleOfChildren(cs: seq<Node>, x: string)
    ensures TitleChildrenOf(SetTitleOf(cs, x)) == seq(TitleCountOf(cs), i => [Text(x)])
    decreases cs
  {
    if cs != [] {
      var r := SetTitleOf(cs, x);
      assert r[0] == SetTitle(cs[0], x) && r[1..] == SetTitleOf(cs[1..], x);
      SetTitleChildren(cs[0], x);
      SetTitleOfChildren(cs[1..], x);
      var a, b := TitleCount(cs[0]), TitleCountOf(cs[1..]);
      assert seq(a, i => [Text(x)]) + seq(b, i => [Text(x)]) == seq(a + b, i => [Text(x)]);
    }
  }

  /** The body walk keeps the number of title elements (it never touches a tag). */
  lemma {:induction false} RewriteBodyTitleCount(w: WordPair, n: Node, under: bool)
    requires |w.target| > 0
    ensures TitleCount(RewriteBody(w, n, under)) == TitleCount(n)
    decreases n
  {
    match n
    case Element(t, a, c) => RewriteChildrenTitleCount(w, c, under, under || t == "body");
    case Text(_) =>
    case Comment(_) =>
  }

  lemma {:induction false} RewriteChildrenTitleCount(w: WordPair, cs: seq<Node>, texts: bool, under: bool)
    requires |w.target| > 0
    ensures TitleCountOf(RewriteChildren(w, cs, texts, under)) == TitleCountOf(cs)
    decreases cs
  {
    if cs != [] {
      var r := RewriteChildren(w, cs, texts, under);
      assert r[1..] == RewriteChildren(w, cs[1..], texts, under);
      RewriteChildrenTitleCount(w, cs[1..], texts, under);
      match cs[0]
      case Text(_) =>
      case Element(_, _, _) => RewriteBodyTitleCount(w, cs[0], under);
      case Comment(_) =>
    }
  }

  // ---------------------------------------------------------------------
  // The title text read from the text nodes
  // ---------------------------------------------------------------------

  /** The texts of the slots, concatenated. */
  function AllData(ss: seq<Slot>): string {
    if ss == [] then "" else ss[0].data + AllData(ss[1..])
  }

  /** The texts of the slots that lie inside a `title` element, concatenated. */
  function TitleData(ss: seq<Slot>): string {
    if ss == [] then "" else (if "title" in ss[0].path then ss[0].data else "") + TitleData(ss[1..])
  }

  lemma {:induction false} DataConcat(a: seq<Slot>, b: seq<Slot>)
    ensures AllData(a + b) == AllData(a) + AllData(b)
    ensures TitleData(a + b) == TitleData(a) + TitleData(b)
    decreases |a|
  {
    if a == [] {
      assert a + b == b;
    } else {
      assert (a + b)[0] == a[0] && (a + b)[1..] == a[1..] + b;
      DataConcat(a[1..], b);
    }
  }

  /** No `title` element lies inside another `title` element. */
  predicate NoNestedTitle(n: Node)
    decreases n
  {
    match n
    case Element(t, _, c) => if t == "title" then TitleCountOf(c) == 0 else NoNestedTitleOf(c)
    case Text(_) => true
    case Comment(_) => true
  }

  predicate NoNestedTitleOf(cs: seq<Node>)
    decreases cs
  {
    cs == [] || (NoNestedTitle(cs[0]) && NoNestedTitleOf(cs[1..]))
  }

  /** The text of a node is the text of its text nodes, in document order. */
  lemma {:induction false} TextContentSlots(n: Node, q: seq<string>)
    ensures TextContent(n) == AllData(Slots(n, q))
    decreases n
  {
    match n
    case Element(t, _, c) => TextContentOfSlots(c, q + [t]);
    case Text(s) => assert AllData([Slot(s, q)]) == s + AllData([]);
    case Comment(_) =>
  }

  lemma {:induction false} TextContentOfSlots(cs: seq<Node>, q: seq<string>)
    ensures TextContentOf(cs) == AllData(SlotsOf(cs, q))
    decreases cs
  {
    if cs != [] {
      TextContentSlots(cs[0], q);
      TextContentOfSlots(cs[1..], q);
      DataConcat(Slots(cs[0], q), SlotsOf(cs[1..], q));
    }
  }

  /** Below a `title` element every text node is inside a title. */
  lemma {:induction false} TitleDataInside(n: Node, q: seq<string>)
    requires "title" in q
    ensures TitleData(Slots(n, q)) == AllData(Slots(n, q))
    decreases n
  {
    match n
    case Element(t, _, c) =>
      assert "title" in q + [t];
      TitleDataInsideOf(c, q + [t]);
    case Text(s) =>
      assert TitleData([Slot(s, q)]) == s + TitleData([]);
      assert AllData([Slot(s, q)]) == s + AllData([]);
    case Comment(_) =>
  }

  lemma {:induction false} TitleDataInsideOf(cs: seq<Node>, q: seq<string>)
    requires "title" in q
    ensures TitleData(SlotsOf(cs, q)) == AllData(SlotsOf(cs, q))
    decreases cs
  {
    if cs != [] {
      TitleDataInside(cs[0], q);
      TitleDataInsideOf(cs[1..], q);
      DataConcat(Slots(cs[0], q), SlotsOf(cs[1..], q));
    }
  }

  /** `$('title').text()` is the text of the text nodes inside `title` elements, in
      document order, when no title lies inside another. */
  lemma {:induction false} TitleTextSlots(n: Node, q: seq<string>)
    requires NoNestedTitle(n) && "title" !in q
    ensures TitleText(n) == TitleData(Slots(n, q))
    decreases n
  {
    match n
    case Element(t, _, c) =>
      if t == "title" {
        TitleTextOfNoTitle(c);
        assert "title" in q + [t];
        TitleDataInsideOf(c, q + [t]);
        TextContentOfSlots(c, q + [t]);
      } else {
        assert "title" !in q + [t];
        TitleTextOfSlots(c, q + [t]);
      }
    case Text(s) => assert TitleData([Slot(s, q)]) == "" + TitleData([]);
    case Comment(_) =>
  }

  lemma {:induction false} TitleTextOfSlots(cs: seq<Node>, q: seq<string>)
    requires NoNestedTitleOf(cs) && "title" !in q
    ensures TitleTextOf(cs) == TitleData(SlotsOf(cs, q))
    decreases cs
  {
    if cs != [] {
      TitleTextSlots(cs[0], q);
      TitleTextOfSlots(cs[1..], q);
      DataConcat(Slots(cs[0], q), SlotsOf(cs[1..], q));
    }
  }

  /** The body walk never nests one title in another (it never touches a tag). */
  lemma {:induction false} RewriteBodyNoNested(w: WordPair, n: Node, under: bool)
    requires |w.target| > 0 && NoNestedTitle(n)
    ensures NoNestedTitle(RewriteBody(w, n, under))
    decreases n
  {
    match n
    case Element(t, a, c) =>
      if t == "title" {
        RewriteChildrenTitleCount(w, c, under, under || t == "body");
      } else {
        RewriteChildrenNoNested(w, c, under, under || t == "body");
      }
    case Text(_) =>
    case Comment(_) =>
  }

  lemma {:induction false} RewriteChildrenNoNested(w: WordPair, cs: seq<Node>, texts: bool, under: bool)
    requires |w.target| > 0 && NoNestedTitleOf(cs)
    ensures NoNestedTitleOf(RewriteChildren(w, cs, texts, under))
    decreases cs
  {
    if cs != [] {
      var r := RewriteChildren(w, cs, texts, under);
      assert r[1..] == RewriteChildren(w, cs[1..], texts, under);
      RewriteChildrenNoNested(w, cs[1..], texts, under);
      match cs[0]
      case Text(_) =>
      case Element(_, _, _) => RewriteBodyNoNested(w, cs[0], under);
      case Comment(_) =>
    }
  }

  /** The title text the handler reads after the body walk is the text of the
      page's text nodes inside `title` elements, each rewritten when it is selected. */
  lemma PageTitleSlots(w: WordPair, root: Node)
    requires |w.target| > 0 && NoNestedTitle(root)
    ensures TitleText(RewritePageBody(w, root)) == TitleData(RewriteSlots(w, Slots(root, [])))
  {
    RewriteBodyNoNested(w, root, false);
    TitleTextSlots(RewritePageBody(w, root), []);
    PageBodySlots(w, root);
  }

  // ---------------------------------------------------------------------
  // What the title write keeps
  // ---------------------------------------------------------------------

  /** The page with every text emptied and the content of every `title` element
      dropped: the tags, attributes, comments and nesting outside the titles. */
  function TitleFrame(n: Node): Node
    decreases n
  {
    match n
    case Element(t, a, c) => Element(t, a, if t == "title" then [] else TitleFrameOf(c))
    case Text(_) => Text("")
    case Comment(_) => n
  }

  function TitleFrameOf(cs: seq<Node>): (r: seq<Node>)
    ensures |r| == |cs|
    decreases cs
  {
    if cs == [] then [] else [TitleFrame(cs[0])] + TitleFrameOf(cs[1..])
  }

  /** The text nodes that do not lie inside a `title` element, in document order. */
  function OutsideTitles(ss: seq<Slot>): (r: seq<Slot>)
    ensures |r| <= |ss|
    ensures forall i :: 0 <= i < |r| ==> "title" !in r[i].path
  {
    if ss == [] then []
    else (if "title" in ss[0].path then [] else [ss[0]]) + OutsideTitles(ss[1..])
  }

  lemma {:induction false} OutsideTitlesConcat(a: seq<Slot>, b: seq<Slot>)
    ensures OutsideTitles(a + b) == OutsideTitles(a) + OutsideTitles(b)
    decreases a
  {
    if a != [] {
      assert (a + b)[0] == a[0] && (a + b)[1..] == a[1..] + b;
      OutsideTitlesConcat(a[1..], b);
    } else {
      assert a + b == b;
    }
  }

  /** Every text node below a path that passes through a `title` is inside a title. */
  lemma {:induction false} InsideTitle(n: Node, q: seq<string>)
    requires "title" in q
    ensures OutsideTitles(Slots(n, q)) == []
    decreases n
  {
    match n
    case Element(t, _, c) => InsideTitleOf(c, q + [t]);
    case Text(_) =>
    case Comment(_) =>
  }

  lemma {:induction false} InsideTitleOf(cs: seq<Node>, q: seq<string>)
    requires "title" in q
    ensures OutsideTitles(SlotsOf(cs, q)) == []
    decreases cs
  {
    if cs != [] {
      InsideTitle(cs[0], q);
      InsideTitleOf(cs[1..], q);
      OutsideTitlesConcat(Slots(cs[0], q), SlotsOf(cs[1..], q));
    }
  }

  /** The title write keeps every tag, attribute, comment and nesting outside the
      `title` elements. */
  lemma {:induction false} SetTitleFrame(n: Node, x: string)
    ensures TitleFrame(SetTitle(n, x)) == TitleFrame(n)
    decreases n
  {
    match n
    case Element(t, a, c) => if t != "title" { SetTitleOfFrame(c, x); }
    case Text(_) =>
    case Comment(_) =>
  }

  lemma {:induction false} SetTitleOfFrame(cs: seq<Node>, x: string)
    ensures TitleFrameOf(SetTitleOf(cs, x)) == TitleFrameOf(cs)
    decreases cs
  {
    if cs != [] {
      var r := SetTitleOf(cs, x);
      assert r[0] == SetTitle(cs[0], x) && r[1..] == SetTitleOf(cs[1..], x);
      SetTitleFrame(cs[0], x);
      SetTitleOfFrame(cs[1..], x);
    }
  }

  /** The title write keeps every text node outside the `title` elements. */
  lemma {:induction false} SetTitleSlots(n: Node, x: string, q: seq<string>)
    requires "title" !in q
    ensures OutsideTitles(Slots(SetTitle(n, x), q)) == OutsideTitles(Slots(n, q))
    decreases n
  {
    match n
    case Element(t, a, c) =>
      if t == "title" {
        var p := q + [t];
        assert SlotsOf([Text(x)], p) == [Slot(x, p)] + SlotsOf([], p);
        assert "title" in p;
        InsideTitleOf(c, p);
      } else {
        assert "title" !in q + [t];
        SetTitleOfSlots(c, x, q + [t]);
      }
    case Text(_) =>
    case Comment(_) =>
  }

  lemma {:induction false} SetTitleOfSlots(cs: seq<Node>, x: string, q: seq<string>)
    requires "title" !in q
    ensures OutsideTitles(SlotsOf(SetTitleOf(cs, x), q)) == OutsideTitles(SlotsOf(cs, q))
    decreases cs
  {
    if cs != [] {
      var r := SetTitleOf(cs, x);
      assert r[0] == SetTitle(cs[0], x) && r[1..] == SetTitleOf(cs[1..], x);
      SetTitleSlots(cs[0], x, q);
      SetTitleOfSlots(cs[1..], x, q);
      OutsideTitlesConcat(Slots(r[0], q), SlotsOf(r[1..], q));
      OutsideTitlesConcat(Slots(cs[0], q), SlotsOf(cs[1..], q));
    }
  }

  /** Dropping the texts first changes nothing for the title frame. */
  lemma {:induction false} TitleFrameMarkup(n: Node)
    ensures TitleFrame(Markup(n)) == TitleFrame(n)
    decreases n
  {
    match n
    case Element(t, a, c) => if t != "title" { TitleFrameOfMarkup(c); }
    case Text(_) =>
    case Comment(_) =>
  }

  lemma {:induction false} TitleFrameOfMarkup(cs: seq<Node>)
    ensures TitleFrameOf(MarkupOf(cs)) == TitleFrameOf(cs)
    decreases cs
  {
    if cs != [] {
      var r := MarkupOf(cs);
      assert r[0] == Markup(cs[0]) && r[1..] == MarkupOf(cs[1..]);
      TitleFrameMarkup(cs[0]);
      TitleFrameOfMarkup(cs[1..]);
    }
  }

  // ---------------------------------------------------------------------
  // The whole page rewrite
  // ---------------------------------------------------------------------

  /** The rewritten page and the title reported beside it. */
  datatype Page = Page(content: Node, title: string)

  /** Body text nodes first, then the title: its text is read from the page the body
      walk produced, substituted when it contains the target word in any case, and
      written back; the reported title is read back from the final page. */
  function RewritePage(w: WordPair, root: Node): (r: Page)
    requires |w.target| > 0
    ensures TitleCount(r.content) == TitleCount(root)
  {
    var body := RewritePageBody(w, root);
    var titleText := TitleText(body);
    var content :=
      if ContainsIgnoreCase(titleText, w.target) then SetTitle(body, Substitute(w, titleText)) else body;
    Page(content, TitleText(content))
  }

  /** With exactly one title element the reported title is the rewrite of its text;
      with none the reported title is empty and the page is the body walk's. */
  lemma RewritePageTitle(w: WordPair, root: Node)
    requires |w.target| > 0
    ensures TitleCount(root) == 1 ==>
      RewritePage(w, root).title == Rewrite(w, TitleText(RewritePageBody(w, root)))
    ensures TitleCount(root) == 0 ==>
      RewritePage(w, root) == Page(RewritePageBody(w, root), "")
  {
    var body := RewritePageBody(w, root);
    var titleText := TitleText(body);
    RewriteBodyTitleCount(w, root, false);
    SetTitleReadBack(body, Substitute(w, titleText));
    assert Repeat(Substitute(w, titleText), 1) == Substitute(w, titleText) + "";
    if TitleCount(root) == 0 {
      TitleTextNoTitle(body);
    }
  }

  /** A page without a title element has the empty title text. */
  lemma {:induction false} TitleTextNoTitle(n: Node)
    requires TitleCount(n) == 0
    ensures TitleText(n) == ""
    decreases n
  {
    match n
    case Element(t, a, c) => TitleTextOfNoTitle(c);
    case Text(_) =>
    case Comment(_) =>
  }

  lemma {:induction false} TitleTextOfNoTitle(cs: seq<Node>)
    requires TitleCountOf(cs) == 0
    ensures TitleTextOf(cs) == ""
    decreases cs
  {
    if cs != [] {
      TitleTextNoTitle(cs[0]);
      TitleTextOfNoTitle(cs[1..]);
    }
  }

  /** The page the handler returns keeps every tag, attribute (`href`, `src`, `alt`, ...),
      comment and nesting outside the `title` elements, and its text nodes outside
      the titles are those of the body walk: the selected ones rewritten, the rest kept. */
  lemma RewritePageKeeps(w: WordPair, root: Node)
    requires |w.target| > 0
    ensures TitleFrame(RewritePage(w, root).content) == TitleFrame(root)
    ensures OutsideTitles(Slots(RewritePage(w, root).content, []))
         == OutsideTitles(RewriteSlots(w, Slots(root, [])))
  {
    var body := RewritePageBody(w, root);
    var x := Substitute(w, TitleText(body));
    RewriteBodyMarkup(w, root, false);
    TitleFrameMarkup(body);
    TitleFrameMarkup(root);
    SetTitleFrame(body, x);
    PageBodySlots(w, root);
    SetTitleSlots(body, x, []);
  }

  /** The title elements of the returned page: when the title text read after the
      body walk contains the target word in any case, every `title` element holds
      exactly one text node, the substituted title text; otherwise the page is the
      body walk's result. */
  lemma RewritePageTitleChildren(w: WordPair, root: Node)
    requires |w.target| > 0
    ensures var tt := TitleText(RewritePageBody(w, root));
      ContainsIgnoreCase(tt, w.target) ==>
        TitleChildren(RewritePage(w, root).content) == seq(TitleCount(root), i => [Text(Substitute(w, tt))])
    ensures var tt := TitleText(RewritePageBody(w, root));
      !ContainsIgnoreCase(tt, w.target) ==> RewritePage(w, root).content == RewritePageBody(w, root)
  {
    var body := RewritePageBody(w, root);
    SetTitleChildren(body, Substitute(w, TitleText(body)));
  }
}
