/** The concrete cases the integration tests of the proxy pin down, proved of the
    model: the three case forms, an irregular form, and the test page. */
module Scenarios {
  import opened CaseText
  import opened Replace
  import opened Rewriter
  import opened Dom
  import opened Handler

  /** A text without the first letter of the pattern is kept by a stage. */
  lemma Kept(a: string, p: string, r: string)
    requires |p| > 0 && p[0] !in a
    ensures ReplaceAll(a, p, r) == a
  {
    ReplaceAllSkip(a, "", p, r);
    assert a + "" == a;
  }

  lemma Whole(p: string, r: string)
    requires |p| > 0
    ensures ReplaceAll(p, p, r) == r
  {
    ReplaceAllHit("", p, r);
    assert p + "" == p && r + "" == r;
  }

  lemma SubstUpper()
    ensures Substitute(YaleFale, "YALE") == "FALE"
  {
    YaleFaleStages();
    Whole("YALE", "FALE");
    Kept("FALE", "Yale", "Fale");
    Kept("FALE", "yale", "fale");
  }

  lemma SubstTitle()
    ensures Substitute(YaleFale, "Yale") == "Fale"
  {
    YaleFaleStages();
    ReplaceAllNear('Y', "ale", "YALE", "FALE");
    assert ['Y'] + "ale" == "Yale";
    Kept("ale", "YALE", "FALE");
    Whole("Yale", "Fale");
    Kept("Fale", "yale", "fale");
  }

  lemma SubstLower()
    ensures Substitute(YaleFale, "yale") == "fale"
  {
    YaleFaleStages();
    Kept("yale", "YALE", "FALE");
    Kept("yale", "Yale", "Fale");
    Whole("yale", "fale");
  }

  lemma SubstIrregular()
    ensures Substitute(YaleFale, "yALE") == "yALE"
  {
    YaleFaleStages();
    Kept("yALE", "YALE", "FALE");
    Kept("yALE", "Yale", "Fale");
    ReplaceAllNear('y', "ALE", "yale", "fale");
    assert ['y'] + "ALE" == "yALE";
    Kept("ALE", "yale", "fale");
  }

  /** The three case forms become the three replacement forms. */
  lemma CaseForms()
    ensures Rewrite(YaleFale, "YALE") == "FALE"
    ensures Rewrite(YaleFale, "Yale") == "Fale"
    ensures Rewrite(YaleFale, "yale") == "fale"
  {
    RewriteIsSubstitute(YaleFale, "YALE");
    RewriteIsSubstitute(YaleFale, "Yale");
    RewriteIsSubstitute(YaleFale, "yale");
    SubstUpper();
    SubstTitle();
    SubstLower();
  }

  /** `yALE` passes the case-insensitive guard but matches none of the three
      literal patterns, so it is kept as it is. */
  lemma IrregularForm()
    ensures ContainsIgnoreCase("yALE", "yale")
    ensures Rewrite(YaleFale, "yALE") == "yALE"
  {
    assert Lower("yALE") == "yale";
    assert "yALE"[..4] == "yALE";
    RewriteIsSubstitute(YaleFale, "yALE");
    SubstIrregular();
  }

  /** The texts of the test page (a heading, a link and the title) and what they
      become. */
  const Heading := "Welcome to Yale University"
  const HeadingOut := "Welcome to Fale University"
  const LinkText := "About Yale"
  const LinkTextOut := "About Fale"
  const PageTitle := "Yale University Test Page"
  const PageTitleOut := "Fale University Test Page"

  /** A stage over `a + [x] + c` where neither `a` nor `c` holds the first letter of
      the pattern and `x` is not followed by the pattern's second letter. */
  lemma KeptAround(s: string, a: string, x: char, c: string, p: string, r: string)
    requires |p| > 1 && s == a + [x] + c && |c| > 0
    requires p[0] !in a && p[0] !in c && c[0] != p[1]
    ensures ReplaceAll(s, p, r) == s
  {
    assert s == a + ([x] + c);
    ReplaceAllSkip(a, [x] + c, p, r);
    ReplaceAllNear(x, c, p, r);
    Kept(c, p, r);
  }

  /** A stage over `a + p + d` where neither `a` nor `d` holds the first letter of
      the pattern. */
  lemma OneHit(s: string, a: string, d: string, p: string, r: string)
    requires |p| > 0 && s == a + p + d
    requires p[0] !in a && p[0] !in d
    ensures ReplaceAll(s, p, r) == a + r + d
  {
    assert s == a + (p + d);
    ReplaceAllSkip(a, p + d, p, r);
    ReplaceAllHit(d, p, r);
    Kept(d, p, r);
  }

  lemma HeadingUpper()
    ensures ReplaceAll(Heading, "YALE", "FALE") == Heading
  {
    assert Heading == Heading[..11] + [Heading[11]] + Heading[12..];
    KeptAround(Heading, Heading[..11], Heading[11], Heading[12..], "YALE", "FALE");
  }

  lemma HeadingHit()
    ensures ReplaceAll(Heading, "Yale", "Fale") == Heading[..11] + "Fale" + Heading[15..]
  {
    var a, d := Heading[..11], Heading[15..];
    assert Heading == a + "Yale" + d;
    assert 'Y' !in a && 'Y' !in d;
    OneHit(Heading, a, d, "Yale", "Fale");
  }

  lemma HeadingOutSplit()
    ensures HeadingOut == Heading[..11] + "Fale" + Heading[15..]
  {
  }

  lemma HeadingTitle()
    ensures ReplaceAll(Heading, "Yale", "Fale") == HeadingOut
  {
    HeadingHit();
    HeadingOutSplit();
  }

  lemma HeadingLower()
    ensures ReplaceAll(HeadingOut, "yale", "fale") == HeadingOut
  {
    assert HeadingOut == HeadingOut[..25] + "y";
    ReplaceAllSkip(HeadingOut[..25], "y", "yale", "fale");
    ReplaceAllShort("y", "yale", "fale");
  }

  lemma LinkTextUpper()
    ensures ReplaceAll(LinkText, "YALE", "FALE") == LinkText
  {
    assert LinkText == LinkText[..6] + [LinkText[6]] + LinkText[7..];
    KeptAround(LinkText, LinkText[..6], LinkText[6], LinkText[7..], "YALE", "FALE");
  }

  lemma LinkTextTitle()
    ensures ReplaceAll(LinkText, "Yale", "Fale") == LinkTextOut
  {
    assert LinkText == LinkText[..6] + "Yale" + "";
    OneHit(LinkText, LinkText[..6], "", "Yale", "Fale");
    assert LinkTextOut == LinkText[..6] + "Fale" + "";
  }

  lemma LinkTextStages()
    ensures ReplaceAll(LinkText, "YALE", "FALE") == LinkText
    ensures ReplaceAll(LinkText, "Yale", "Fale") == LinkTextOut
    ensures ReplaceAll(LinkTextOut, "yale", "fale") == LinkTextOut
  {
    LinkTextUpper();
    LinkTextTitle();
    Kept(LinkTextOut, "yale", "fale");
  }

  lemma PageTitleUpper()
    ensures ReplaceAll(PageTitle, "YALE", "FALE") == PageTitle
  {
    assert PageTitle == "" + [PageTitle[0]] + PageTitle[1..];
    KeptAround(PageTitle, "", PageTitle[0], PageTitle[1..], "YALE", "FALE");
  }

  lemma PageTitleHit()
    ensures ReplaceAll(PageTitle, "Yale", "Fale") == "" + "Fale" + PageTitle[4..]
  {
    var d := PageTitle[4..];
    assert PageTitle == "" + "Yale" + d;
    assert 'Y' !in d;
    OneHit(PageTitle, "", d, "Yale", "Fale");
  }

  lemma PageTitleOutSplit()
    ensures PageTitleOut == "" + "Fale" + PageTitle[4..]
  {
  }

  lemma PageTitleTitle()
    ensures ReplaceAll(PageTitle, "Yale", "Fale") == PageTitleOut
  {
    PageTitleHit();
    PageTitleOutSplit();
  }

  lemma PageTitleLower()
    ensures ReplaceAll(PageTitleOut, "yale", "fale") == PageTitleOut
  {
    assert PageTitleOut == PageTitleOut[..14] + [PageTitleOut[14]] + PageTitleOut[15..];
    KeptAround(PageTitleOut, PageTitleOut[..14], PageTitleOut[14], PageTitleOut[15..], "yale", "fale");
  }

  lemma SubstHeading()
    ensures Substitute(YaleFale, Heading) == HeadingOut
  {
    YaleFaleStages();
    HeadingUpper();
    HeadingTitle();
    HeadingLower();
  }

  lemma SubstLinkText()
    ensures Substitute(YaleFale, LinkText) == LinkTextOut
  {
    YaleFaleStages();
    LinkTextStages();
  }

  lemma SubstPageTitle()
    ensures Substitute(YaleFale, PageTitle) == PageTitleOut
  {
    YaleFaleStages();
    PageTitleUpper();
    PageTitleTitle();
    PageTitleLower();
  }

  /** The texts of the test page, rewritten. */
  lemma TestPageTexts()
    ensures Rewrite(YaleFale, Heading) == HeadingOut
    ensures Rewrite(YaleFale, LinkText) == LinkTextOut
    ensures Rewrite(YaleFale, PageTitle) == PageTitleOut
  {
    RewriteIsSubstitute(YaleFale, Heading);
    RewriteIsSubstitute(YaleFale, LinkText);
    RewriteIsSubstitute(YaleFale, PageTitle);
    SubstHeading();
    SubstLinkText();
    SubstPageTitle();
  }

  /** The paragraph of the test page, `Yale University is a private Ivy League
      research university in New Haven, Connecticut.`, split after each of its three
      `y`s; every piece after the first starts with a space. */
  const Para1 := " University"
  const Para2 := " is a private Ivy"
  const Para3 := " League research university"
  const Para4 := " in New Haven, Connecticut."
  const ParaTail := Para1 + (Para2 + (Para3 + Para4))
  const Para := "Yale" + ParaTail
  const ParaOut := "Fale" + ParaTail

  /** A stage passes over a piece whose only possible first letter of the pattern is
      its last character, when the next character is not the pattern's second letter. */
  lemma EndKept(a: string, b: string, p: string, r: string)
    requires |p| > 1 && |a| > 0 && |b| > 0
    requires p[0] !in a[..|a| - 1] && b[0] != p[1]
    ensures ReplaceAll(a + b, p, r) == a + ReplaceAll(b, p, r)
  {
    var x := a[|a| - 1];
    assert a == a[..|a| - 1] + [x];
    assert a + b == a[..|a| - 1] + ([x] + b);
    ReplaceAllSkip(a[..|a| - 1], [x] + b, p, r);
    ReplaceAllNear(x, b, p, r);
  }

  lemma ParaNoCapital()
    ensures 'Y' !in ParaTail
  {
    assert 'Y' !in Para1 && 'Y' !in Para2 && 'Y' !in Para3 && 'Y' !in Para4;
  }

  lemma ParaUpper()
    ensures ReplaceAll(Para, "YALE", "FALE") == Para
  {
    ParaNoCapital();
    assert Para == ['Y'] + ("ale" + ParaTail);
    ReplaceAllNear('Y', "ale" + ParaTail, "YALE", "FALE");
    Kept("ale" + ParaTail, "YALE", "FALE");
  }

  lemma ParaTitle()
    ensures ReplaceAll(Para, "Yale", "Fale") == ParaOut
  {
    ParaNoCapital();
    ReplaceAllHit(ParaTail, "Yale", "Fale");
    Kept(ParaTail, "Yale", "Fale");
  }

  lemma ParaLower1()
    ensures ReplaceAll(ParaTail, "yale", "fale") == Para1 + ReplaceAll(Para2 + (Para3 + Para4), "yale", "fale")
  {
    assert Para1[..|Para1| - 1] == " Universit";
    EndKept(Para1, Para2 + (Para3 + Para4), "yale", "fale");
  }

  lemma ParaLower2()
    ensures ReplaceAll(Para2 + (Para3 + Para4), "yale", "fale") == Para2 + ReplaceAll(Para3 + Para4, "yale", "fale")
  {
    assert Para2[..|Para2| - 1] == " is a private Iv";
    EndKept(Para2, Para3 + Para4, "yale", "fale");
  }

  lemma ParaLower3()
    ensures ReplaceAll(Para3 + Para4, "yale", "fale") == Para3 + Para4
  {
    assert Para3[..|Para3| - 1] == " League research universit";
    EndKept(Para3, Para4, "yale", "fale");
    Kept(Para4, "yale", "fale");
  }

  lemma ParaLower()
    ensures ReplaceAll(ParaOut, "yale", "fale") == ParaOut
  {
    ReplaceAllSkip("Fale", ParaTail, "yale", "fale");
    ParaLower1();
    ParaLower2();
    ParaLower3();
  }

  /** The paragraph becomes `Fale University is a private Ivy League research
      university in New Haven, Connecticut.`: the `y`s of `Ivy` and `university`
      are kept. */
  lemma SubstPara()
    ensures Rewrite(YaleFale, Para) == ParaOut
  {
    RewriteIsSubstitute(YaleFale, Para);
    YaleFaleStages();
    ParaUpper();
    ParaTitle();
    ParaLower();
  }

  /** The second link of the page, `Yale Admissions`, and its last paragraph,
      `For more information, contact: info@yale.edu`. */
  const AdmissionsTail := " Admissions"
  const Admissions := "Yale" + AdmissionsTail
  const AdmissionsOut := "Fale" + AdmissionsTail
  const NoteHead := "For more information," + " contact: info@"
  const NoteTail := ".edu"
  const Note := NoteHead + "yale" + NoteTail
  const NoteOut := NoteHead + "fale" + NoteTail

  lemma AdmissionsUpper()
    ensures ReplaceAll(Admissions, "YALE", "FALE") == Admissions
  {
    assert Admissions == ['Y'] + ("ale" + AdmissionsTail);
    ReplaceAllNear('Y', "ale" + AdmissionsTail, "YALE", "FALE");
    Kept("ale" + AdmissionsTail, "YALE", "FALE");
  }

  lemma AdmissionsTitle()
    ensures ReplaceAll(Admissions, "Yale", "Fale") == AdmissionsOut
  {
    ReplaceAllHit(AdmissionsTail, "Yale", "Fale");
    Kept(AdmissionsTail, "Yale", "Fale");
  }

  lemma AdmissionsLower()
    ensures ReplaceAll(AdmissionsOut, "yale", "fale") == AdmissionsOut
  {
    assert 'y' !in AdmissionsTail;
    Kept(AdmissionsOut, "yale", "fale");
  }

  lemma SubstAdmissions()
    ensures Rewrite(YaleFale, Admissions) == AdmissionsOut
  {
    RewriteIsSubstitute(YaleFale, Admissions);
    YaleFaleStages();
    AdmissionsUpper();
    AdmissionsTitle();
    AdmissionsLower();
  }

  lemma NoteNoLetter()
    ensures 'Y' !in Note && 'y' !in NoteHead && 'y' !in NoteTail
  {
    assert 'Y' !in NoteHead && 'y' !in NoteHead;
  }

  lemma NoteLower()
    ensures ReplaceAll(Note, "yale", "fale") == NoteOut
  {
    NoteNoLetter();
    OneHit(Note, NoteHead, NoteTail, "yale", "fale");
  }

  /** The address in the last paragraph is rewritten too: `info@fale.edu`. */
  lemma SubstNote()
    ensures Rewrite(YaleFale, Note) == NoteOut
  {
    RewriteIsSubstitute(YaleFale, Note);
    YaleFaleStages();
    NoteNoLetter();
    Kept(Note, "YALE", "FALE");
    Kept(Note, "Yale", "Fale");
    NoteLower();
  }

  /** The texts in the body of the test page. */
  datatype BodyTexts = BodyTexts(heading: string, para: string, link: string, admissions: string, note: string)

  const Texts := BodyTexts(Heading, Para, LinkText, Admissions, Note)
  const TextsOut := BodyTexts(HeadingOut, ParaOut, LinkTextOut, AdmissionsOut, NoteOut)

  /** A page built on the integration test's page: a title in the head; in the body
      a `Yale` text directly under `<body>` (where the test's page has only
      whitespace), a heading, a paragraph, two links, an image and a last
      paragraph. */
  const Direct := "Yale"
  const Href := Attr("href", "https://www.yale.edu/about")
  const Href2 := Attr("href", "https://www.yale.edu/admissions")
  const Logo := Element("img", [Attr("src", "https://www.yale.edu/images/logo.png"), Attr("alt", "Yale Logo")], [])

  function TestBody(b: BodyTexts): Node {
    Element("body", [], [
      Text(Direct),
      Element("h1", [], [Text(b.heading)]),
      Element("p", [], [Text(b.para)]),
      Element("a", [Href], [Text(b.link)]),
      Element("a", [Href2], [Text(b.admissions)]),
      Logo,
      Element("p", [], [Text(b.note)])])
  }

  function TestDoc(title: string, b: BodyTexts): Node {
    Element("html", [], [
      Element("head", [], [Element("title", [], [Text(title)])]),
      TestBody(b)])
  }

  /** One text child of an element matched by `body *` is rewritten. */
  lemma Leaf(tag: string, attrs: seq<Attr>, s: string)
    ensures RewriteBody(YaleFale, Element(tag, attrs, [Text(s)]), true)
         == Element(tag, attrs, [Text(Rewrite(YaleFale, s))])
  {
    assert RewriteChildren(YaleFale, [Text(s)], true, true) == [Text(Rewrite(YaleFale, s))];
  }

  /** The walk over a child list, one child at a time. */
  lemma WalkElement(a: Node, rest: seq<Node>, texts: bool, under: bool)
    requires a.Element?
    ensures RewriteChildren(YaleFale, [a] + rest, texts, under)
         == [RewriteBody(YaleFale, a, under)] + RewriteChildren(YaleFale, rest, texts, under)
  {
    assert ([a] + rest)[0] == a && ([a] + rest)[1..] == rest;
  }

  lemma WalkText(s: string, rest: seq<Node>, under: bool)
    ensures RewriteChildren(YaleFale, [Text(s)] + rest, false, under)
         == [Text(s)] + RewriteChildren(YaleFale, rest, false, under)
  {
    assert ([Text(s)] + rest)[0] == Text(s) && ([Text(s)] + rest)[1..] == rest;
  }

  /** The children of the test page's body as a chain of one-element prefixes. */
  lemma BodyChildren(h: Node, q: Node, l: Node, m: Node, e: Node)
    ensures [Text(Direct), h, q, l, m, Logo, e]
         == [Text(Direct)] + ([h] + ([q] + ([l] + ([m] + ([Logo] + ([e] + []))))))
  {
  }

  /** Every body text rewritten. */
  function RewriteTexts(b: BodyTexts): BodyTexts {
    BodyTexts(Rewrite(YaleFale, b.heading), Rewrite(YaleFale, b.para), Rewrite(YaleFale, b.link),
              Rewrite(YaleFale, b.admissions), Rewrite(YaleFale, b.note))
  }

  /** The body walk: the direct text of `<body>` is kept, the texts of the heading,
      the paragraphs and the links are rewritten, the image is kept with its `src`
      and `alt`, and both links keep their `href`. */
  lemma BodyWalk(b: BodyTexts)
    ensures RewriteBody(YaleFale, TestBody(b), false) == TestBody(RewriteTexts(b))
  {
    var b' := RewriteTexts(b);
    var h, h' := Element("h1", [], [Text(b.heading)]), Element("h1", [], [Text(b'.heading)]);
    var q, q' := Element("p", [], [Text(b.para)]), Element("p", [], [Text(b'.para)]);
    var l, l' := Element("a", [Href], [Text(b.link)]), Element("a", [Href], [Text(b'.link)]);
    var m, m' := Element("a", [Href2], [Text(b.admissions)]), Element("a", [Href2], [Text(b'.admissions)]);
    var e, e' := Element("p", [], [Text(b.note)]), Element("p", [], [Text(b'.note)]);
    Leaf("h1", [], b.heading);
    Leaf("p", [], b.para);
    Leaf("a", [Href], b.link);
    Leaf("a", [Href2], b.admissions);
    Leaf("p", [], b.note);
    assert RewriteBody(YaleFale, Logo, true) == Logo;
    BodyChildren(h, q, l, m, e);
    BodyChildren(h', q', l', m', e');
    var r5 := [e] + [];
    var r4 := [Logo] + r5;
    var r3 := [m] + r4;
    var r2 := [l] + r3;
    var r1 := [q] + r2;
    var r0 := [h] + r1;
    WalkElement(e, [], false, true);
    WalkElement(Logo, r5, false, true);
    WalkElement(m, r4, false, true);
    WalkElement(l, r3, false, true);
    WalkElement(q, r2, false, true);
    WalkElement(h, r1, false, true);
    WalkText(Direct, r0, true);
  }

  lemma TestTexts()
    ensures RewriteTexts(Texts) == TextsOut
  {
    TestPageTexts();
    SubstPara();
    SubstAdmissions();
    SubstNote();
  }

  lemma TestDocWalk()
    ensures RewritePageBody(YaleFale, TestDoc(PageTitle, Texts)) == TestDoc(PageTitle, TextsOut)
  {
    BodyWalk(Texts);
    TestTexts();
    var t := Element("title", [], [Text(PageTitle)]);
    var hd := Element("head", [], [t]);
    assert RewriteChildren(YaleFale, [Text(PageTitle)], false, false) == [Text(PageTitle)];
    assert RewriteBody(YaleFale, t, false) == t;
    assert RewriteChildren(YaleFale, [t], false, false) == [t];
    assert RewriteBody(YaleFale, hd, false) == hd;
    var b := TestBody(Texts);
    assert RewriteChildren(YaleFale, [b], false, false) == [TestBody(TextsOut)];
    assert RewriteChildren(YaleFale, [hd, b], false, false) == [hd, TestBody(TextsOut)];
  }

  /** The title functions over a child list, one child at a time. */
  lemma Cons(a: Node, rest: seq<Node>, x: string)
    ensures TextContentOf([a] + rest) == TextContent(a) + TextContentOf(rest)
    ensures TitleTextOf([a] + rest) == TitleText(a) + TitleTextOf(rest)
    ensures TitleCountOf([a] + rest) == TitleCount(a) + TitleCountOf(rest)
    ensures SetTitleOf([a] + rest, x) == [SetTitle(a, x)] + SetTitleOf(rest, x)
  {
    assert ([a] + rest)[1..] == rest;
  }

  /** A leaf element without a title: no title text, and the title write keeps it. */
  lemma Untitled(tag: string, attrs: seq<Attr>, s: string, x: string)
    requires tag != "title"
    ensures TitleText(Element(tag, attrs, [Text(s)])) == ""
    ensures TitleCount(Element(tag, attrs, [Text(s)])) == 0
    ensures SetTitle(Element(tag, attrs, [Text(s)]), x) == Element(tag, attrs, [Text(s)])
  {
    Cons(Text(s), [], x);
    assert [Text(s)] + [] == [Text(s)];
  }

  /** The body of the test page holds no title element. */
  lemma TestBodyUntitled(b: BodyTexts, x: string)
    ensures TitleText(TestBody(b)) == ""
    ensures TitleCount(TestBody(b)) == 0
    ensures SetTitle(TestBody(b), x) == TestBody(b)
  {
    var h := Element("h1", [], [Text(b.heading)]);
    var q := Element("p", [], [Text(b.para)]);
    var l := Element("a", [Href], [Text(b.link)]);
    var m := Element("a", [Href2], [Text(b.admissions)]);
    var e := Element("p", [], [Text(b.note)]);
    Untitled("h1", [], b.heading, x);
    Untitled("p", [], b.para, x);
    Untitled("a", [Href], b.link, x);
    Untitled("a", [Href2], b.admissions, x);
    Untitled("p", [], b.note, x);
    assert SetTitle(Logo, x) == Logo;
    BodyChildren(h, q, l, m, e);
    var r5 := [e] + [];
    var r4 := [Logo] + r5;
    var r3 := [m] + r4;
    var r2 := [l] + r3;
    var r1 := [q] + r2;
    var r0 := [h] + r1;
    Cons(e, [], x);
    Cons(Logo, r5, x);
    Cons(m, r4, x);
    Cons(l, r3, x);
    Cons(q, r2, x);
    Cons(h, r1, x);
    Cons(Text(Direct), r0, x);
  }

  lemma TestDocTitle(title: string, b: BodyTexts)
    ensures TitleText(TestDoc(title, b)) == title
    ensures TitleCount(TestDoc(title, b)) == 1
  {
    var t := Element("title", [], [Text(title)]);
    var hd := Element("head", [], [t]);
    var body := TestBody(b);
    TestBodyUntitled(b, "");
    Cons(Text(title), [], "");
    Cons(t, [], "");
    Cons(body, [], "");
    Cons(hd, [body], "");
    assert [Text(title)] + [] == [Text(title)] && [t] + [] == [t];
    assert [body] + [] == [body] && [hd] + [body] == [hd, body];
    assert TitleText(t) == title;
    assert TitleText(hd) == title;
  }

  lemma TestDocSetTitle(title: string, b: BodyTexts, x: string)
    ensures SetTitle(TestDoc(title, b), x) == TestDoc(x, b)
  {
    var t := Element("title", [], [Text(title)]);
    var hd := Element("head", [], [t]);
    var body := TestBody(b);
    TestBodyUntitled(b, x);
    Cons(t, [], x);
    Cons(body, [], x);
    Cons(hd, [body], x);
    assert [t] + [] == [t] && [body] + [] == [body] && [hd] + [body] == [hd, body];
    assert SetTitle(t, x) == Element("title", [], [Text(x)]);
    assert SetTitle(hd, x) == Element("head", [], [Element("title", [], [Text(x)])]);
  }

  /** The page built on the integration test's page: the title is reported as
      `Fale University Test Page`; the texts of the heading, both paragraphs and both
      links are rewritten (`info@yale.edu` becomes `info@fale.edu`); the text directly
      under `<body>`, the links' `href`s and the image's `src` and `alt` are kept. */
  lemma TestPage()
    ensures RewritePage(YaleFale, TestDoc(PageTitle, Texts)) == Page(TestDoc(PageTitleOut, TextsOut), PageTitleOut)
  {
    TestDocWalk();
    TestDocTitle(PageTitle, TextsOut);
    TestDocTitle(PageTitleOut, TextsOut);
    TestPageTexts();
    SubstPageTitle();
    assert ContainsIgnoreCase(PageTitle, YaleFale.target);
    TestDocSetTitle(PageTitle, TextsOut, PageTitleOut);
  }

  /** A request for the test page answers 200 with the rewritten page, the
      rewritten title and the URL as given; an address the transport cannot reach
      answers 500. */
  lemma TestRequest(f: string -> FetchResult)
    requires f("https://example.com/") == Ok(TestDoc(PageTitle, Texts))
    requires f("not-a-valid-url") == NetErr
    ensures Handle(YaleFale, Some("https://example.com/"), f)
         == Response(200, Success(true, TestDoc(PageTitleOut, TextsOut), PageTitleOut, "https://example.com/"))
    ensures Handle(YaleFale, Some("not-a-valid-url"), f).status == 500
  {
    TestPage();
    HandleOutcomes(YaleFale, "https://example.com/", f);
    HandleOutcomes(YaleFale, "not-a-valid-url", f);
  }
}
