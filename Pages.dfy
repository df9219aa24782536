/**
 The page table of `Thimble::Generator`: one record per input document,
 keyed by page name, and the backlink relation computed over it.
 */
module Pages {
  import opened Seqs
  import opened Links

  /** An input text file: its base name without `.txt`, and its content. */
  datatype Document = Document(name: string, text: string)

  /** The hash stored in `@pages` for one page. */
  datatype Page = Page(name: string, content: string, links: seq<string>, backlinks: seq<string>)

  /** The record built for a freshly read document, with no backlinks yet. */
  function NewPage(d: Document): (p: Page)
    ensures p.name == d.name && p.content == d.text && p.backlinks == []
    ensures NoDup(p.links) && forall t :: t in p.links <==> t in Scan(d.text)
  {
    Page(d.name, d.text, ExtractLinks(d.text), [])
  }

  function Names(docs: seq<Document>): (names: seq<string>)
    ensures |names| == |docs|
    ensures forall i :: 0 <= i < |docs| ==> names[i] == docs[i].name
  {
    if docs == [] then [] else Names(docs[..|docs| - 1]) + [docs[|docs| - 1].name]
  }

  /**
   The table the reading loop builds: documents are stored in turn, so a
   later document with the same name replaces the earlier record.
   */
  function Table(docs: seq<Document>): (pages: map<string, Page>)
    ensures forall k :: k in pages <==> k in Names(docs)
    ensures forall k :: k in pages ==> pages[k].name == k && pages[k].backlinks == [] && NoDup(pages[k].links)
  {
    if docs == [] then map[]
    else
      var d := docs[|docs| - 1];
      assert Names(docs) == Names(docs[..|docs| - 1]) + [d.name];
      Table(docs[..|docs| - 1])[d.name := NewPage(d)]
  }

  /** The record for a name is built from the last document of that name. */
  lemma {:induction false} TableLastWins(docs: seq<Document>, i: nat)
    requires i < |docs|
    requires forall j :: i < j < |docs| ==> docs[j].name != docs[i].name
    ensures docs[i].name in Table(docs)
    ensures Table(docs)[docs[i].name] == NewPage(docs[i])
  {
    if i < |docs| - 1 {
      TableLastWins(docs[..|docs| - 1], i);
    }
  }

  /**
   `order` lists the keys of `pages` once each, and every record sits under
   its own name with links free of repeats.
   */
  ghost predicate Consistent(pages: map<string, Page>, order: seq<string>)
  {
    && NoDup(order)
    && (forall n :: n in order <==> n in pages)
    && (forall k :: k in pages ==> pages[k].name == k && NoDup(pages[k].links))
  }

  lemma TableSnoc(docs: seq<Document>, d: Document)
    ensures Table(docs + [d]) == Table(docs)[d.name := NewPage(d)]
    ensures Names(docs + [d]) == Names(docs) + [d.name]
  {
    assert (docs + [d])[..|docs|] == docs;
  }

  lemma MapUpdateUnion<K, V>(m: map<K, V>, t: map<K, V>, k: K, v: V)
    ensures (m + t)[k := v] == m + t[k := v]
  {
  }

  /**
   Reading documents into a consistent table keeps it consistent: a new name
   is appended to the order, a known one keeps its place.
   */
  lemma LoadConsistent(pages: map<string, Page>, order: seq<string>, docs: seq<Document>)
    requires Consistent(pages, order)
    ensures Consistent(pages + Table(docs), Uniq(order + Names(docs)))
  {
  }

  /**
   One turn of the reading loop, over `table` and `keys` as the loop holds
   them after `i` documents: the record is stored, and the name joins the
   order only if it is new.
   */
  lemma LoadStep(pages: map<string, Page>, order: seq<string>, docs: seq<Document>, i: nat,
                 table: map<string, Page>, keys: seq<string>)
    requires Consistent(pages, order)
    requires i < |docs|
    requires table == pages + Table(docs[..i]) && keys == Uniq(order + Names(docs[..i]))
    ensures table[docs[i].name := NewPage(docs[i])] == pages + Table(docs[..i + 1])
    ensures (if docs[i].name in table then keys else keys + [docs[i].name]) == Uniq(order + Names(docs[..i + 1]))
    ensures Consistent(table[docs[i].name := NewPage(docs[i])], if docs[i].name in table then keys else keys + [docs[i].name])
  {
    PrefixSnoc(docs, i);
    LoadTableStep(pages, docs[..i], docs[i]);
    LoadOrderStep(pages, order, docs[..i], docs[i]);
    LoadConsistent(pages, order, docs[..i + 1]);
  }

  /** Reading one more document stores its record in the table read so far. */
  lemma LoadTableStep(pages: map<string, Page>, prefix: seq<Document>, d: Document)
    ensures pages + Table(prefix + [d]) == (pages + Table(prefix))[d.name := NewPage(d)]
  {
    TableSnoc(prefix, d);
    MapUpdateUnion(pages, Table(prefix), d.name, NewPage(d));
  }

  /** Reading one more document adds its name to the order only if it is not yet a key. */
  lemma LoadOrderStep(pages: map<string, Page>, order: seq<string>, prefix: seq<Document>, d: Document)
    requires Consistent(pages, order)
    ensures Uniq(order + Names(prefix + [d])) ==
      if d.name in pages + Table(prefix) then Uniq(order + Names(prefix))
      else Uniq(order + Names(prefix)) + [d.name]
  {
    var seen := order + Names(prefix);
    TableSnoc(prefix, d);
    assert order + Names(prefix + [d]) == seen + [d.name];
    UniqSnoc(seen, d.name);
    LoadConsistent(pages, order, prefix);
    assert d.name in Uniq(seen) <==> d.name in pages + Table(prefix);
  }

  /** Every page among `names` whose links name `t`, in the order of `names`. */
  function Sources(pages: map<string, Page>, names: seq<string>, t: string): (r: seq<string>)
    ensures forall n :: n in r ==> n in names
  {
    if names == [] then []
    else
      var init, last := names[..|names| - 1], names[|names| - 1];
      assert names == init + [last];
      Sources(pages, init, t) + if last in pages && t in pages[last].links then [last] else []
  }

  /** `n` is listed as a source of `t` exactly when it is a page among `names` that links to `t`. */
  lemma {:induction false} SourcesIff(pages: map<string, Page>, names: seq<string>, t: string)
    ensures forall n :: n in Sources(pages, names, t) <==> n in names && n in pages && t in pages[n].links
  {
    if names != [] {
      var init, last := names[..|names| - 1], names[|names| - 1];
      assert names == init + [last];
      SourcesIff(pages, init, t);
    }
  }

  /** A pass over distinct names lists each source once. */
  lemma {:induction false} SourcesNoDup(pages: map<string, Page>, names: seq<string>, t: string)
    requires NoDup(names)
    ensures NoDup(Sources(pages, names, t))
  {
    if names != [] {
      var init, last := names[..|names| - 1], names[|names| - 1];
      assert names == init + [last];
      SourcesNoDup(pages, init, t);
      SourcesIff(pages, init, t);
    }
  }

  lemma SourcesSnoc(pages: map<string, Page>, names: seq<string>, n: string, t: string)
    requires n in pages
    ensures Sources(pages, names + [n], t) == Sources(pages, names, t) + if t in pages[n].links then [n] else []
  {
    assert (names + [n])[..|names|] == names;
  }

  /** Entries of `init`, listed in its order, stay in order when one more name follows `init`. */
  lemma ExtendInOrder(init: seq<string>, last: string, r: seq<string>)
    requires forall y :: y in r ==> y in init
    requires forall i, j :: 0 <= i < j < |r| ==> IndexOf(init, r[i]) < IndexOf(init, r[j])
    ensures forall i, j :: 0 <= i < j < |r| ==> IndexOf(init + [last], r[i]) < IndexOf(init + [last], r[j])
  {
    forall i, j | 0 <= i < j < |r|
      ensures IndexOf(init + [last], r[i]) < IndexOf(init + [last], r[j])
    {
      IndexOfExtend(init, [last], r[i]);
      IndexOfExtend(init, [last], r[j]);
    }
  }

  /** ... and appending that new name to the list keeps it in order. */
  lemma AppendInOrder(init: seq<string>, last: string, r: seq<string>)
    requires last !in init
    requires forall y :: y in r ==> y in init
    requires forall i, j :: 0 <= i < j < |r| ==> IndexOf(init, r[i]) < IndexOf(init, r[j])
    ensures forall i, j :: 0 <= i < j < |r + [last]| ==>
      IndexOf(init + [last], (r + [last])[i]) < IndexOf(init + [last], (r + [last])[j])
  {
    ExtendInOrder(init, last, r);
    IndexOfFresh(init, last);
    var r' := r + [last];
    forall i, j | 0 <= i < j < |r'|
      ensures IndexOf(init + [last], r'[i]) < IndexOf(init + [last], r'[j])
    {
      assert r'[i] == r[i];
      IndexOfExtend(init, [last], r[i]);
      if j < |r| {
        assert r'[j] == r[j];
      } else {
        assert r'[j] == last;
      }
    }
  }

  /** Backlinks are listed in the order in which their sources were inserted. */
  lemma {:induction false} SourcesInOrder(pages: map<string, Page>, names: seq<string>, t: string)
    requires NoDup(names)
    ensures forall i, j :: 0 <= i < j < |Sources(pages, names, t)| ==>
      IndexOf(names, Sources(pages, names, t)[i]) < IndexOf(names, Sources(pages, names, t)[j])
  {
    if names != [] {
      var init, last := names[..|names| - 1], names[|names| - 1];
      assert names == init + [last];
      var r := Sources(pages, init, t);
      SourcesInOrder(pages, init, t);
      SourcesIff(pages, init, t);
      if last in pages && t in pages[last].links {
        assert Sources(pages, names, t) == r + [last];
        AppendInOrder(init, last, r);
      } else {
        ExtendInOrder(init, last, r);
        assert Sources(pages, names, t) == r;
      }
    }
  }

  /**
   The table after the backlink pass over `order`: each page's backlinks get
   every source page whose links name it appended; nothing else changes.
   */
  function Indexed(pages: map<string, Page>, order: seq<string>): (r: map<string, Page>)
    ensures r.Keys == pages.Keys
    ensures forall k :: k in r ==>
      && r[k].name == pages[k].name
      && r[k].content == pages[k].content
      && r[k].links == pages[k].links
  {
    map k | k in pages :: pages[k].(backlinks := pages[k].backlinks + Sources(pages, order, k))
  }

  /** The table with the link from page `n` to `t` taken out. */
  function WithoutLink(pages: map<string, Page>, n: string, t: string): (r: map<string, Page>)
    requires n in pages
    ensures r.Keys == pages.Keys
    ensures t !in r[n].links
    ensures forall k :: k in pages && k != n ==> r[k] == pages[k]
    ensures forall u :: u != t ==> (u in r[n].links <==> u in pages[n].links)
  {
    pages[n := pages[n].(links := Remove(pages[n].links, t))]
  }

  /** Taking out a link to `t` changes no list of sources of another name. */
  lemma {:induction false} SourcesIgnoreLink(pages: map<string, Page>, names: seq<string>, n: string, t: string, k: string)
    requires n in pages && k != t
    ensures Sources(WithoutLink(pages, n, t), names, k) == Sources(pages, names, k)
    decreases |names|
  {
    if names != [] {
      SourcesIgnoreLink(pages, names[..|names| - 1], n, t, k);
    }
  }

  /**
   A link to a name that is not a page stays among the links of its page,
   and the backlink pass gives every page the same backlinks as if the link
   were not there.
   */
  lemma DanglingLink(pages: map<string, Page>, order: seq<string>, n: string, t: string)
    requires n in pages && t !in pages && t in pages[n].links
    ensures t in Indexed(pages, order)[n].links
    ensures forall k :: k in pages ==>
      Indexed(pages, order)[k].backlinks == Indexed(WithoutLink(pages, n, t), order)[k].backlinks
  {
    forall k | k in pages
      ensures Indexed(pages, order)[k].backlinks == Indexed(WithoutLink(pages, n, t), order)[k].backlinks
    {
      SourcesIgnoreLink(pages, order, n, t, k);
    }
  }

  /**
   The table in the middle of the backlink pass: the pages `done` have been
   handled completely, and page `current` has been handled for the links
   `targets` so far.
   */
  function Partial(pages: map<string, Page>, done: seq<string>, current: string, targets: seq<string>): (r: map<string, Page>)
    ensures r.Keys == pages.Keys
    ensures forall k :: k in r ==> r[k].links == pages[k].links
  {
    map k | k in pages :: pages[k].(backlinks := pages[k].backlinks + Sources(pages, done, k)
      + if k in targets then [current] else [])
  }

  lemma PartialStart(pages: map<string, Page>, done: seq<string>, current: string)
    ensures Partial(pages, done, current, []) == Indexed(pages, done)
  {
    var a, b := Partial(pages, done, current, []), Indexed(pages, done);
    forall k | k in pages
      ensures a[k] == b[k]
    {
      assert a[k].backlinks == b[k].backlinks;
    }
  }

  /** Handling one more link `t` of `current` appends `current` to the backlinks of `t`, if `t` is a page. */
  lemma PartialStep(pages: map<string, Page>, done: seq<string>, current: string, targets: seq<string>, t: string)
    requires t !in targets
    ensures var p := Partial(pages, done, current, targets);
      Partial(pages, done, current, targets + [t]) ==
        if t in p then p[t := p[t].(backlinks := p[t].backlinks + [current])] else p
  {
    var p, q := Partial(pages, done, current, targets), Partial(pages, done, current, targets + [t]);
    var p' := if t in p then p[t := p[t].(backlinks := p[t].backlinks + [current])] else p;
    forall k | k in pages
      ensures q[k] == p'[k]
    {
      if k == t {
        assert q[k].backlinks == p[k].backlinks + [current];
      } else {
        assert k in targets + [t] <==> k in targets;
      }
    }
    assert q.Keys == p'.Keys;
  }

  /**
   The turn for link `j` of page `current`: the links hold no repeats, so the
   link is new to the prefix already handled, and `PartialStep` applies.
   */
  lemma PartialNext(pages: map<string, Page>, done: seq<string>, current: string, j: nat)
    requires current in pages && NoDup(pages[current].links)
    requires j < |pages[current].links|
    ensures var links := pages[current].links;
      var p, t := Partial(pages, done, current, links[..j]), links[j];
      Partial(pages, done, current, links[..j + 1]) ==
        if t in p then p[t := p[t].(backlinks := p[t].backlinks + [current])] else p
  {
    var links := pages[current].links;
    PrefixSnoc(links, j);
    assert links[j] !in links[..j] by {
      forall i | 0 <= i < j
        ensures links[..j][i] != links[j]
      {
        assert links[..j][i] == links[i];
      }
    }
    PartialStep(pages, done, current, links[..j], links[j]);
  }

  /** The backlink pass keeps the table consistent with its key order. */
  lemma IndexedConsistent(pages: map<string, Page>, order: seq<string>, done: seq<string>)
    requires Consistent(pages, order)
    ensures Consistent(Indexed(pages, done), order)
  {
  }

  /** Before the pass, the table is as it was read. */
  lemma IndexedNothing(pages: map<string, Page>)
    ensures Indexed(pages, []) == pages
  {
    var a := Indexed(pages, []);
    forall k | k in pages
      ensures a[k] == pages[k]
    {
      assert a[k].backlinks == pages[k].backlinks;
    }
  }

  /** Once every link of `current` is handled, `current` counts as done. */
  lemma PartialFinish(pages: map<string, Page>, done: seq<string>, current: string)
    requires current in pages
    ensures Partial(pages, done, current, pages[current].links) == Indexed(pages, done + [current])
  {
    var a, b := Partial(pages, done, current, pages[current].links), Indexed(pages, done + [current]);
    forall k | k in pages
      ensures a[k] == b[k]
    {
      PartialFinishAt(pages, done, current, k);
    }
  }

  /** The record of one page `k` once every link of `current` is handled. */
  lemma PartialFinishAt(pages: map<string, Page>, done: seq<string>, current: string, k: string)
    requires current in pages && k in pages
    ensures Partial(pages, done, current, pages[current].links)[k] == Indexed(pages, done + [current])[k]
  {
    var before, extra := Sources(pages, done, k), if k in pages[current].links then [current] else [];
    SourcesSnoc(pages, done, current, k);
    assert Sources(pages, done + [current], k) == before + extra;
    var earlier := pages[k].backlinks;
    assert earlier + before + extra == earlier + (before + extra);
    assert Partial(pages, done, current, pages[current].links)[k] == pages[k].(backlinks := earlier + before + extra);
    assert Indexed(pages, done + [current])[k] == pages[k].(backlinks := earlier + (before + extra));
  }

  /**
   Starting from empty backlinks, a pass over every page exactly once makes
   backlinks the inverse of the link relation restricted to existing pages:
   `n` is a backlink of `t` exactly when `t` is a page and one of `n`'s links.
   Each source is listed once, in the order of the pass.
   */
  lemma BacklinksInverse(pages: map<string, Page>, order: seq<string>)
    requires NoDup(order)
    requires forall n :: n in order <==> n in pages
    requires forall k :: k in pages ==> pages[k].backlinks == []
    ensures forall t :: t in pages ==> InverseAt(pages, order, t)
  {
    forall t | t in pages
      ensures InverseAt(pages, order, t)
    {
      var r := Indexed(pages, order);
      assert r[t].backlinks == Sources(pages, order, t);
      SourcesIff(pages, order, t);
      SourcesNoDup(pages, order, t);
      SourcesInOrder(pages, order, t);
    }
  }

  /**
   After the pass over `order`, the backlinks of `t` name exactly the pages
   whose links name `t`, each once, in the order of the pass.
   */
  ghost predicate InverseAt(pages: map<string, Page>, order: seq<string>, t: string)
    requires t in pages
    requires forall n :: n in order <==> n in pages
  {
    var backlinks := Indexed(pages, order)[t].backlinks;
    && (forall n :: n in backlinks ==> n in pages)
    && (forall n :: n in pages ==> (n in backlinks <==> t in pages[n].links))
    && NoDup(backlinks)
    && (forall i, j :: 0 <= i < j < |backlinks| ==> IndexOf(order, backlinks[i]) < IndexOf(order, backlinks[j]))
  }

  /**
   The state after reading `docs` into an empty table and running the
   backlink pass: one page per distinct name, keyed by its own name, whose
   links are those written in the last document of that name, and whose
   backlinks are exactly the pages that link to it.
   */
  lemma GeneratedGraph(docs: seq<Document>)
    ensures var pages := Indexed(Table(docs), Uniq(Names(docs)));
      && (forall k :: k in pages <==> k in Names(docs))
      && (forall k :: k in pages ==> pages[k].name == k)
      && (forall i :: 0 <= i < |docs| && (forall j :: i < j < |docs| ==> docs[j].name != docs[i].name) ==>
            pages[docs[i].name].content == docs[i].text && pages[docs[i].name].links == ExtractLinks(docs[i].text))
      && (forall t, n :: t in pages && n in pages ==> (n in pages[t].backlinks <==> t in pages[n].links))
      && (forall t, n :: t in pages && n in pages[t].backlinks ==> n in pages)
      && (forall t :: t in pages ==> NoDup(pages[t].backlinks))
  {
    var table, order := Table(docs), Uniq(Names(docs));
    BacklinksInverse(table, order);
    var pages := Indexed(table, order);
    forall i | 0 <= i < |docs| && (forall j :: i < j < |docs| ==> docs[j].name != docs[i].name)
      ensures pages[docs[i].name].content == docs[i].text && pages[docs[i].name].links == ExtractLinks(docs[i].text)
    {
      TableLastWins(docs, i);
    }
    forall t | t in pages
      ensures forall n :: n in pages ==> (n in pages[t].backlinks <==> t in pages[n].links)
      ensures forall n :: n in pages[t].backlinks ==> n in pages
      ensures NoDup(pages[t].backlinks)
    {
      assert InverseAt(table, order, t);
    }
  }
}
