/**
 `Thimble::Generator#generate`: the page hash `@pages`, filled by the reading
 loop and then updated in place by the backlink loop, and the rendering loop
 that produces one HTML text per page. Ruby hashes iterate in insertion
 order, so the hash is modelled by a map together with the sequence of its
 keys in the order they were first inserted.
 */
module Generator {
  import opened Seqs
  import opened Links
  import opened Pages
  import opened Html

  /** The name of the output file written for a page. */
  function OutputName(name: string): string
  {
    name + ".html"
  }

  /** Distinct pages are written to distinct files. */
  lemma OutputNameInjective(a: string, b: string)
    requires OutputName(a) == OutputName(b)
    ensures a == b
  {
    assert |a| == |b|;
    assert a == OutputName(a)[..|a|] && b == OutputName(b)[..|b|];
  }

  /** The file written for one page: its output name and its rendered text. */
  function Output(pages: map<string, Page>, name: string): (string, string)
    requires name in pages
  {
    (OutputName(name), WrapHtml(pages[name], pages.Keys))
  }

  /** The files written for the pages `names`, in order. */
  function Outputs(pages: map<string, Page>, names: seq<string>): (r: seq<(string, string)>)
    requires forall i :: 0 <= i < |names| ==> names[i] in pages
    ensures |r| == |names|
  {
    seq(|names|, i requires 0 <= i < |names| => Output(pages, names[i]))
  }

  /** The files of one more page are those before it followed by its own. */
  lemma OutputsSnoc(pages: map<string, Page>, names: seq<string>, i: nat)
    requires forall i :: 0 <= i < |names| ==> names[i] in pages
    requires i < |names|
    ensures Outputs(pages, names[..i + 1]) == Outputs(pages, names[..i]) + [Output(pages, names[i])]
  {
    var a, b := Outputs(pages, names[..i + 1]), Outputs(pages, names[..i]) + [Output(pages, names[i])];
    forall k | 0 <= k < i + 1
      ensures a[k] == b[k]
    {
      assert names[..i + 1][k] == names[k];
      if k < i {
        assert names[..i][k] == names[k];
      }
    }
  }

  /** Entry `i` of the outputs is the file of the page `names[i]`. */
  lemma OutputsAt(pages: map<string, Page>, names: seq<string>)
    requires forall i :: 0 <= i < |names| ==> names[i] in pages
    ensures forall i :: 0 <= i < |names| ==> Outputs(pages, names)[i] == Output(pages, names[i])
  {
  }

  class Generator {
    var pages: map<string, Page>
    var order: seq<string>

    /** `order` lists the keys of `pages` once each; every record sits under its own name. */
    ghost predicate Valid()
      reads this
    {
      Consistent(pages, order)
    }

    constructor ()
      ensures Valid()
      ensures pages == map[] && order == []
    {
      pages := map[];
      order := [];
    }

    /**
     The reading loop: store a record for every document; a name seen before
     keeps its place in the order and gets the later record.
     */
    method Load(docs: seq<Document>)
      requires Valid()
      modifies this
      ensures Valid()
      ensures pages == old(pages) + Table(docs)
      ensures order == Uniq(old(order) + Names(docs))
    {
      ghost var pages0, order0 := pages, order;
      var table, keys := pages, order;
      UniqOfNoDup(keys);
      assert order0 + Names(docs[..0]) == keys;
      var i := 0;
      while i < |docs|
        invariant 0 <= i <= |docs|
        invariant table == pages0 + Table(docs[..i])
        invariant keys == Uniq(order0 + Names(docs[..i]))
        modifies {}
      {
        var d := docs[i];
        LoadStep(pages0, order0, docs, i, table, keys);
        keys := if d.name in table then keys else keys + [d.name];
        table := table[d.name := NewPage(d)];
        i := i + 1;
      }
      assert docs[..i] == docs;
      LoadConsistent(pages0, order0, docs);
      pages, order := table, keys;
    }

    /**
     The backlink loop: for every page in order, and every link of it that
     names a page, append the page's name to that page's backlinks.
     */
    method IndexBacklinks()
      requires Valid()
      modifies this`pages
      ensures Valid()
      ensures pages == Indexed(old(pages), order)
    {
      ghost var start := pages;
      IndexedNothing(start);
      assert order[..0] == [];
      var i := 0;
      while i < |order|
        invariant 0 <= i <= |order|
        invariant pages == Indexed(start, order[..i])
      {
        assert order[i] in start;
        LinkFrom(start, order[..i], order[i]);
        PrefixSnoc(order, i);
        i := i + 1;
      }
      PrefixAll(order);
      IndexedConsistent(start, order, order);
    }

    /**
     The inner loop of the backlink pass for page `name`: every link of it
     that names a page gets `name` appended to that page's backlinks. The
     links of a page hold no repeats, as `extract_links` returns them.
     */
    method LinkFrom(ghost start: map<string, Page>, ghost done: seq<string>, name: string)
      requires name in start && NoDup(start[name].links)
      requires pages == Indexed(start, done)
      modifies this`pages
      ensures pages == Indexed(start, done + [name])
    {
      var links := pages[name].links;
      assert links == start[name].links;
      PartialStart(start, done, name);
      var j := 0;
      while j < |links|
        invariant 0 <= j <= |links|
        invariant pages == Partial(start, done, name, links[..j])
      {
        var outbound := links[j];
        PartialNext(start, done, name, j);
        if outbound in pages {
          pages := pages[outbound := pages[outbound].(backlinks := pages[outbound].backlinks + [name])];
        }
        j := j + 1;
      }
      PrefixAll(links);
      PartialFinish(start, done, name);
    }

    /** The rendering loop: one output per page, in order, each of its own file name. */
    method RenderAll() returns (outputs: seq<(string, string)>)
      requires Valid()
      ensures outputs == Outputs(pages, order)
      ensures |outputs| == |order|
      ensures forall i :: 0 <= i < |order| ==> outputs[i] == Output(pages, order[i])
    {
      outputs := [];
      var i := 0;
      while i < |order|
        invariant 0 <= i <= |order|
        invariant outputs == Outputs(pages, order[..i])
      {
        OutputsSnoc(pages, order, i);
        outputs := outputs + [Output(pages, order[i])];
        i := i + 1;
      }
      PrefixAll(order);
      OutputsAt(pages, order);
    }

    /** `generate`: read every document, index the backlinks, render every page. */
    method Generate(docs: seq<Document>) returns (outputs: seq<(string, string)>)
      requires Valid()
      modifies this
      ensures Valid()
      ensures order == Uniq(old(order) + Names(docs))
      ensures pages == Indexed(old(pages) + Table(docs), order)
      ensures |outputs| == |order|
      ensures forall i :: 0 <= i < |order| ==>
        outputs[i] == Output(pages, order[i])
    {
      Load(docs);
      IndexBacklinks();
      outputs := RenderAll();
    }
  }
}
