/**
 Small corpora worked through the model: reading, the backlink pass and
 rendering, for the situations the generator is meant to handle.
 */
module Scenarios {
  import opened Seqs
  import opened Links
  import opened Pages
  import opened Html

  /** A reference on its own, `[[t]]`: one target, and the text becomes its anchor. */
  lemma ReferenceAlone(m: string, t: string, keys: set<string>)
    requires IsTarget(t)
    requires m == "[[" + t + "]]"
    ensures Scan(m) == [t]
    ensures Resolve(m, keys) == Anchor(t, keys)
  {
    var e: string := [];
    assert m == "[[" + t + "]]" + e;
    ResolveMatch(t, e, keys);
    assert Tokens(e) == [];
    assert Resolve(e, keys) == [] && Scan(e) == [];
    assert Anchor(t, keys) + e == Anchor(t, keys);
    assert [t] + Scan(e) == [t];
  }

  /** The links of a text whose scan finds `t` twice are `[t]`. */
  lemma UniqTwice(t: string)
    ensures Uniq([t, t]) == [t]
  {
    var one, two := [t], [t, t];
    assert one[..0] == [] && two[..1] == one;
    assert Uniq(one) == one;
  }

  /**
   A text that refers to the same target twice, `p[[t]]q[[t]]`: one link,
   and both occurrences replaced, each on its own.
   */
  lemma RepeatedReference(s: string, p: string, q: string, t: string, keys: set<string>)
    requires NoOpening(p) && NoOpening(q)
    requires IsTarget(t)
    requires s == p + "[[" + t + "]]" + q + "[[" + t + "]]"
    ensures Scan(s) == [t, t]
    ensures ExtractLinks(s) == [t]
    ensures Resolve(s, keys) == p + Anchor(t, keys) + q + Anchor(t, keys)
  {
    var m := "[[" + t + "]]";
    var first := m + (q + m);
    assert s == p + first;
    ScanTwice(s, p, first, q, m, t, keys);
    ResolveTwice(s, p, first, q, m, t, keys);
    UniqTwice(t);
  }

  lemma ScanTwice(s: string, p: string, first: string, q: string, m: string, t: string, keys: set<string>)
    requires NoOpening(p) && NoOpening(q)
    requires IsTarget(t)
    requires m == "[[" + t + "]]"
    requires first == m + (q + m)
    requires s == p + first
    ensures Scan(s) == [t, t]
  {
    ScanBoth(q, m, t, keys);
    ResolvePlainPrefix(p, first, keys);
  }

  /** The scan of `[[t]]q[[t]]`. */
  lemma ScanBoth(q: string, m: string, t: string, keys: set<string>)
    requires NoOpening(q)
    requires IsTarget(t)
    requires m == "[[" + t + "]]"
    ensures Scan(m + (q + m)) == [t, t]
  {
    ReferenceAlone(m, t, keys);
    ResolvePlainPrefix(q, m, keys);
    ResolveMatch(t, q + m, keys);
    assert [t] + [t] == [t, t];
  }

  lemma ResolveTwice(s: string, p: string, first: string, q: string, m: string, t: string, keys: set<string>)
    requires NoOpening(p) && NoOpening(q)
    requires IsTarget(t)
    requires m == "[[" + t + "]]"
    requires first == m + (q + m)
    requires s == p + first
    ensures Resolve(s, keys) == p + Anchor(t, keys) + q + Anchor(t, keys)
  {
    var a := Anchor(t, keys);
    ResolveBoth(q, m, t, keys);
    ResolvePlainPrefix(p, first, keys);
    assert Resolve(s, keys) == p + (a + (q + a));
    Reassociate(p, a, q, a);
  }

  /** `[[t]]q[[t]]` resolves to the anchor, `q` and the anchor again. */
  lemma ResolveBoth(q: string, m: string, t: string, keys: set<string>)
    requires NoOpening(q)
    requires IsTarget(t)
    requires m == "[[" + t + "]]"
    ensures Resolve(m + (q + m), keys) == Anchor(t, keys) + (q + Anchor(t, keys))
  {
    ReferenceAlone(m, t, keys);
    ResolvePlainPrefix(q, m, keys);
    ResolveMatch(t, q + m, keys);
  }

  lemma Reassociate<T>(w: seq<T>, x: seq<T>, y: seq<T>, z: seq<T>)
    ensures w + (x + (y + z)) == w + x + y + z
  {
  }

  /** The text of the repeated-reference example: `see [[B]] and [[B]]`. */
  lemma RepeatedReferenceExample(s: string, keys: set<string>)
    requires s == "see [[B]] and [[B]]"
    requires keys == {"A", "B"}
    ensures ExtractLinks(s) == ["B"]
    ensures Resolve(s, keys) == "see " + "<a href=\"B.html\">B</a>" + " and " + "<a href=\"B.html\">B</a>"
  {
    RepeatedText(s, keys);
    RepeatedReference(s, "see ", " and ", "B", keys);
  }

  /** `see [[B]] and [[B]]` is plain text, a reference to the page `B`, plain text and the same reference. */
  lemma RepeatedText(s: string, keys: set<string>)
    requires s == "see [[B]] and [[B]]"
    requires keys == {"A", "B"}
    ensures NoOpening("see ") && NoOpening(" and ") && IsTarget("B")
    ensures s == "see " + "[[" + "B" + "]]" + " and " + "[[" + "B" + "]]"
    ensures Anchor("B", keys) == "<a href=\"B.html\">B</a>"
  {
    assert "B"[0] != ']';
    assert "B" in keys;
    PlainSeparators();
  }

  /** The plain pieces `see ` and ` and ` of the example hold no `[`, so no `[[` opens in them. */
  lemma PlainSeparators()
    ensures '[' !in "see " && '[' !in " and "
    ensures NoOpening("see ") && NoOpening(" and ")
  {
    assert forall i :: 0 <= i < 4 ==> "see "[i] != '[';
    assert forall i :: 0 <= i < 5 ==> " and "[i] != '[';
  }

  /** A text with one reference, `p[[t]]`, where no `[[` opens inside `p`. */
  lemma SingleReference(s: string, p: string, t: string, keys: set<string>)
    requires NoOpening(p)
    requires IsTarget(t)
    requires s == p + "[[" + t + "]]"
    ensures Scan(s) == [t]
    ensures ExtractLinks(s) == [t]
    ensures Resolve(s, keys) == p + Anchor(t, keys)
  {
    var m := "[[" + t + "]]";
    assert s == p + m;
    ReferenceAlone(m, t, keys);
    ResolvePlainPrefix(p, m, keys);
    UniqOfNoDup([t]);
  }

  /** `x[1] ` holds a single `[` only, so no match can start inside it. */
  lemma LoneBracketText()
    ensures NoOpening("x[1] ")
    ensures IsTarget("B")
  {
    assert "B"[0] != ']';
    forall i | 0 <= i < 5 && "x[1] "[i] == '['
      ensures i + 1 < 5 && "x[1] "[i + 1] != '['
    {
      assert i == 1;
    }
  }

  /** A lone `[` before a reference stays plain text: `x[1] [[B]]` links to `B` only. */
  lemma LoneBracket(s: string, keys: set<string>)
    requires s == "x[1] [[B]]"
    ensures Scan(s) == ["B"]
    ensures ExtractLinks(s) == ["B"]
    ensures Resolve(s, keys) == "x[1] " + Anchor("B", keys)
  {
    LoneBracketText();
    assert s == "x[1] " + "[[" + "B" + "]]";
    SingleReference(s, "x[1] ", "B", keys);
  }

  /** `[[a` followed by a line break opens no match, and `a` holds no bracket. */
  lemma BrokenOpeningText()
    ensures '[' !in "a" && ']' !in "a" && IsTarget("b")
    ensures "[[a\n" == "[[" + "a" + "\n"
    ensures "[[b]]" == "[[" + "b" + "]]"
  {
    assert "b"[0] != ']';
  }

  /**
   An opening that the line ends before it is closed: in `[[a` + newline +
   `[[b]]` the scan passes over the first `[[`, which stays in the output as
   text, and takes the match on the next line.
   */
  lemma BrokenOpening(s: string, keys: set<string>)
    requires s == "[[a\n" + "[[b]]"
    ensures Scan(s) == ["b"]
    ensures ExtractLinks(s) == ["b"]
    ensures Resolve(s, keys) == "[[a\n" + Anchor("b", keys)
  {
    BrokenOpeningText();
    NewlineBreaksMatch("a", "[[b]]");
    ResolveUnmatched("[[a\n", "[[b]]", keys);
    ReferenceAlone("[[b]]", "b", keys);
    UniqOfNoDup(["b"]);
  }

  /** `a] [[b` is a possible target: its one `]` is followed by a space. */
  lemma LeftmostText()
    ensures IsTarget("a] [[b")
    ensures NoOpening("")
  {
    forall j | 0 <= j < 6 && "a] [[b"[j] == ']'
      ensures j + 1 < 6 && "a] [[b"[j + 1] != ']'
    {
      assert j == 1;
    }
  }

  /**
   The leftmost opening wins: in `[[a] [[b]]` the match starts at the first
   `[[` and runs to the first `]]`, so the one link is `a] [[b`, not `b`.
   */
  lemma LeftmostOpening(s: string, keys: set<string>)
    requires s == "[[a] [[b]]"
    ensures Scan(s) == ["a] [[b"]
    ensures ExtractLinks(s) == ["a] [[b"]
    ensures Resolve(s, keys) == Anchor("a] [[b", keys)
  {
    LeftmostText();
    assert s == "" + "[[" + "a] [[b" + "]]";
    SingleReference(s, "", "a] [[b", keys);
    assert "" + Anchor("a] [[b", keys) == Anchor("a] [[b", keys);
  }

  /** Two documents of distinct names are read into two pages, in order. */
  lemma TwoDocuments(docs: seq<Document>, x: string, y: string, cx: string, cy: string)
    requires x != y
    requires docs == [Document(x, cx), Document(y, cy)]
    ensures Uniq(Names(docs)) == [x, y]
    ensures Table(docs).Keys == {x, y}
    ensures Table(docs)[x] == NewPage(docs[0]) && Table(docs)[y] == NewPage(docs[1])
  {
    assert Names(docs) == [x, y];
    assert Uniq([x, y]) == Uniq([x] + [y]);
    assert Uniq([x]) == Uniq([] + [x]);
    TableLastWins(docs, 0);
    TableLastWins(docs, 1);
  }

  /** Over the order `[x, y]`, the sources of a page are those of the two that link to it. */
  lemma TwoSources(pages: map<string, Page>, x: string, y: string, t: string)
    requires x in pages && y in pages
    ensures Sources(pages, [x, y], t) ==
      (if t in pages[x].links then [x] else []) + (if t in pages[y].links then [y] else [])
  {
    SourcesSnoc(pages, [], x, t);
    SourcesSnoc(pages, [x], y, t);
    assert [] + [x] == [x] && [x] + [y] == [x, y];
  }

  /** Two distinct pages that link to each other end up each other's only backlink. */
  lemma TwoPages(docs: seq<Document>, x: string, y: string, cx: string, cy: string)
    requires x != y
    requires docs == [Document(x, cx), Document(y, cy)]
    requires ExtractLinks(cx) == [y] && ExtractLinks(cy) == [x]
    ensures Uniq(Names(docs)) == [x, y]
    ensures var pages := Indexed(Table(docs), Uniq(Names(docs)));
      && pages.Keys == {x, y}
      && pages[x].links == [y] && pages[y].links == [x]
      && pages[x].backlinks == [y] && pages[y].backlinks == [x]
      && pages[x].name == x && pages[x].content == cx
      && pages[y].name == y && pages[y].content == cy
  {
    TwoDocuments(docs, x, y, cx, cy);
    var table := Table(docs);
    assert table[x].links == [y] && table[y].links == [x];
    TwoBacklinks(table, x, y);
  }

  /** The backlink pass over `[x, y]` when `x` links only to `y` and `y` only to `x`. */
  lemma TwoBacklinks(table: map<string, Page>, x: string, y: string)
    requires x != y && table.Keys == {x, y}
    requires table[x].links == [y] && table[y].links == [x]
    requires table[x].backlinks == [] && table[y].backlinks == []
    ensures Indexed(table, [x, y])[x].backlinks == [y]
    ensures Indexed(table, [x, y])[y].backlinks == [x]
  {
    TwoSources(table, x, y, x);
    TwoSources(table, x, y, y);
    assert [] + [y] == [y] && [x] + [] == [x];
  }

  /** The texts of the two-page example: A links to B only, B to A only. */
  lemma MutualTexts(a: string, b: string)
    requires a == "see [[B]] and [[B]]" && b == "see [[A]]"
    ensures ExtractLinks(a) == ["B"] && ExtractLinks(b) == ["A"]
    ensures "A" != "B"
  {
    var keys: set<string> := {"A", "B"};
    RepeatedReferenceExample(a, keys);
    BackReferenceText(b);
    SingleReference(b, "see ", "A", keys);
    assert "A"[0] != "B"[0];
  }

  /**
   The two-page example: A says "see [[B]] and [[B]]", B says "see [[A]]".
   Each lists the other once as a link and once as a backlink, and page A
   shows two anchors to B and one backlink entry.
   */
  lemma MutualReferences(docs: seq<Document>, a: string, b: string)
    requires a == "see [[B]] and [[B]]" && b == "see [[A]]"
    requires docs == [Document("A", a), Document("B", b)]
    ensures var pages := Indexed(Table(docs), Uniq(Names(docs)));
      && pages.Keys == {"A", "B"}
      && pages["A"].links == ["B"] && pages["B"].links == ["A"]
      && pages["A"].backlinks == ["B"] && pages["B"].backlinks == ["A"]
      && pages["A"] == Page("A", a, ["B"], ["B"]) && pages["B"] == Page("B", b, ["A"], ["A"])
  {
    MutualTexts(a, b);
    TwoPages(docs, "A", "B", a, b);
    var pages := Indexed(Table(docs), Uniq(Names(docs)));
    assert pages["A"] == Page(pages["A"].name, pages["A"].content, pages["A"].links, pages["A"].backlinks);
    assert pages["B"] == Page(pages["B"].name, pages["B"].content, pages["B"].links, pages["B"].backlinks);
    TwoPages(docs, "A", "B", a, b);
  }

  /** The record of page A, rendered: two anchors to B in the body and one backlink entry. */
  lemma RenderPageA(page: Page, a: string, keys: set<string>)
    requires a == "see [[B]] and [[B]]" && keys == {"A", "B"}
    requires page == Page("A", a, ["B"], ["B"])
    ensures WrapHtml(page, keys) ==
      Preamble("A") + "see " + "<a href=\"B.html\">B</a>" + " and " + "<a href=\"B.html\">B</a>" + "</main>"
      + "<h2>backlinks</h2><ul>" + ListItem("B") + "</ul>"
  {
    RepeatedReferenceExample(a, keys);
    ItemsSingle("B");
  }

  /** `see [[A]]` splits into plain text and one reference to `A`. */
  lemma BackReferenceText(b: string)
    requires b == "see [[A]]"
    ensures IsTarget("A")
    ensures b == "see " + "[[" + "A" + "]]"
    ensures '[' !in "see "
    ensures Anchor("A", {"A", "B"}) == "<a href=\"A.html\">A</a>"
  {
    assert "A"[0] != ']';
    assert "A" in {"A", "B"};
  }

  /** The record of page B, rendered: one anchor to A in the body and one backlink entry. */
  lemma RenderPageB(page: Page, b: string, keys: set<string>)
    requires b == "see [[A]]" && keys == {"A", "B"}
    requires page == Page("B", b, ["A"], ["A"])
    ensures WrapHtml(page, keys) ==
      Preamble("B") + "see " + "<a href=\"A.html\">A</a>" + "</main>"
      + "<h2>backlinks</h2><ul>" + ListItem("A") + "</ul>"
  {
    BackReferenceText(b);
    SingleReference(b, "see ", "A", keys);
    ItemsSingle("A");
  }

  /** The two-page example, read, indexed and rendered: the file of page A. */
  lemma MutualReferencesPageA(docs: seq<Document>, a: string, b: string)
    requires a == "see [[B]] and [[B]]" && b == "see [[A]]"
    requires docs == [Document("A", a), Document("B", b)]
    ensures var pages := Indexed(Table(docs), Uniq(Names(docs)));
      WrapHtml(pages["A"], pages.Keys) ==
        Preamble("A") + "see " + "<a href=\"B.html\">B</a>" + " and " + "<a href=\"B.html\">B</a>" + "</main>"
        + "<h2>backlinks</h2><ul>" + ListItem("B") + "</ul>"
  {
    MutualReferences(docs, a, b);
    var pages := Indexed(Table(docs), Uniq(Names(docs)));
    RenderPageA(pages["A"], a, pages.Keys);
  }

  /** The two-page example, read, indexed and rendered: the file of page B. */
  lemma MutualReferencesPageB(docs: seq<Document>, a: string, b: string)
    requires a == "see [[B]] and [[B]]" && b == "see [[A]]"
    requires docs == [Document("A", a), Document("B", b)]
    ensures var pages := Indexed(Table(docs), Uniq(Names(docs)));
      WrapHtml(pages["B"], pages.Keys) ==
        Preamble("B") + "see " + "<a href=\"A.html\">A</a>" + "</main>"
        + "<h2>backlinks</h2><ul>" + ListItem("A") + "</ul>"
  {
    MutualReferences(docs, a, b);
    var pages := Indexed(Table(docs), Uniq(Names(docs)));
    RenderPageB(pages["B"], b, pages.Keys);
  }

  /** A single document gives a single page, its own backlink only if it links to itself. */
  lemma OnePage(docs: seq<Document>, x: string, c: string)
    requires docs == [Document(x, c)]
    ensures Uniq(Names(docs)) == [x]
    ensures var pages := Indexed(Table(docs), Uniq(Names(docs)));
      && pages.Keys == {x}
      && pages[x].links == ExtractLinks(c)
      && pages[x].backlinks == if x in ExtractLinks(c) then [x] else []
  {
    assert Names(docs) == [x];
    assert Uniq([x]) == Uniq([] + [x]);
    TableLastWins(docs, 0);
    SourcesSnoc(Table(docs), [], x, x);
    assert [] + [x] == [x];
  }

  /**
   A reference to a page that does not exist: it is still a link, it is
   rendered as a missing-link marker, and it gives no page a backlink.
   */
  lemma MissingTarget(docs: seq<Document>, x: string, c: string, p: string, t: string)
    requires NoOpening(p) && IsTarget(t) && t != x
    requires c == p + "[[" + t + "]]"
    requires docs == [Document(x, c)]
    ensures var pages := Indexed(Table(docs), Uniq(Names(docs)));
      && pages.Keys == {x}
      && pages[x].links == [t]
      && pages[x].backlinks == []
      && Resolve(c, pages.Keys) == p + Anchor(t, pages.Keys)
      && Anchor(t, pages.Keys) == "<a class=\"missing-link\">" + t + "</a>"
  {
    var keys: set<string> := {x};
    SingleReference(c, p, t, keys);
    OnePage(docs, x, c);
  }

  /** `see [[Ghost]]` splits into plain text and one reference to a name other than `A`. */
  lemma GhostText(c: string)
    requires c == "see [[Ghost]]"
    ensures IsTarget("Ghost") && "Ghost" != "A"
    ensures c == "see " + "[[" + "Ghost" + "]]"
    ensures '[' !in "see "
    ensures Anchor("Ghost", {"A"}) == "<a class=\"missing-link\">Ghost</a>"
  {
    assert forall j :: 0 <= j < 5 ==> "Ghost"[j] != ']';
    assert |"Ghost"| != |"A"|;
  }

  /** The missing-page example: page A says "see [[Ghost]]" and there is no page Ghost. */
  lemma MissingPage(docs: seq<Document>, c: string)
    requires c == "see [[Ghost]]"
    requires docs == [Document("A", c)]
    ensures var pages := Indexed(Table(docs), Uniq(Names(docs)));
      && pages.Keys == {"A"}
      && pages["A"].links == ["Ghost"]
      && pages["A"].backlinks == []
      && Resolve(c, pages.Keys) == "see " + Anchor("Ghost", pages.Keys)
      && Anchor("Ghost", pages.Keys) == "<a class=\"missing-link\">Ghost</a>"
  {
    GhostText(c);
    MissingTarget(docs, "A", c, "see ", "Ghost");
    var pages := Indexed(Table(docs), Uniq(Names(docs)));
    assert pages.Keys == {"A"};
  }

  /**
   Two documents of the same name: one page, in the place of the first,
   holding the record of the second.
   */
  lemma DuplicateName(docs: seq<Document>, x: string, c1: string, c2: string)
    requires docs == [Document(x, c1), Document(x, c2)]
    ensures Uniq(Names(docs)) == [x]
    ensures Table(docs).Keys == {x}
    ensures Table(docs)[x] == NewPage(Document(x, c2))
  {
    assert Names(docs) == [x, x];
    assert Uniq([x, x]) == Uniq([x] + [x]);
    assert Uniq([x]) == Uniq([] + [x]);
    TableLastWins(docs, 1);
  }
}
