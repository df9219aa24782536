# Thimble link graph, in Dafny

Thimble turns a directory of plain-text pages into static HTML. A page can
refer to another page by writing `[[Name]]` anywhere in its text.
`Thimble::Generator#generate` (in `lib/thimble.rb`) works in three passes:

1. It reads every document into the page hash `@pages`. Each record is keyed
   by page name and holds the name, the content, the page's links and an
   empty backlink list.
2. It walks every page's links, and for every link that names an existing
   page, it appends the linking page's name to that page's backlinks.
3. It renders each page. Every reference becomes an anchor: a link to
   `Name.html` when the page exists, and a `missing-link` marker when it does
   not. The backlink list follows the body and is shown only when it is not
   empty.

The model has six modules:

- `Seqs`: Ruby's `uniq`, the "no duplicates" predicate and first-occurrence
  indices.
- `Links`: the scan Ruby performs for the pattern `\[\[(.*?)\]\]`, written as
  a tokenizer. It gives `extract_links` (`ExtractLinks`) and
  `preprocess_content` (`Resolve`).
  - The lazy `.*?` closes the match at the first `]]`.
  - `.` stops at a newline.
  - A failed match start moves on by one character.
  - Matches do not overlap.
- `Pages`: the page records and the two specifications every pass is
  proved against:
  - `Table`: the page table after reading a list of documents;
  - `Indexed`: the table after the backlink pass over a key order.
- `Html`: the tag structure `wrap_html` produces.
- `Generator`: the class `Generator`. Its `pages` field is a `map`. Its
  `order` field is the sequence of keys in first-insertion order (Ruby
  hashes iterate in insertion order). Its methods are the three loops of
  `generate`, written as `while` loops with invariants.
- `Scenarios`: small worked corpora. One has two pages that refer to each
  other, one has a reference to a missing page, and one has two documents
  of the same name. Others cover how the scan treats a lone `[`, an opening
  that a newline cuts off, and two openings in a row.

Documents enter as a sequence of `(name, text)` values. Directory globbing,
`File.basename` and `File.read` are not modelled, and the order of the sequence
stands for the order `Dir.glob` returns.

## Model

| member | source | states |
|---|---|---|
| Links.FindClose | lib/thimble.rb:48 | the lazy `(.*?)\]\]` after an opening `[[` stops at the first `]]` with no newline before it; no result exactly when there is no such position |
| Links.FirstCloseUnique | lib/thimble.rb:48 | (helper) the closing position of a match is unique |
| Links.CloseShift | lib/thimble.rb:48 | (helper) past a first character that is neither a newline nor the start of `]]`, the first closing position moves on by one |
| Links.CloseTarget | lib/thimble.rb:48 | (helper) the text before the first closing `]]` is a possible target |
| Links.MatchAt | lib/thimble.rb:48 | a match at the start of a text spans `[[` + target + `]]`, its length is the target's plus four, and the target is a possible target |
| Links.MatchIff | lib/thimble.rb:48 | `[[t]]` at the start of a text matches with exactly `t` as its capture if and only if `t` has no newline, no `]]` inside, and does not end in `]` (the lazy match would close one `]` early) |
| Links.MatchStopsAtNewline | lib/thimble.rb:48 | a match never reaches past a newline |
| Links.Tokens | lib/thimble.rb:48 | every match the left-to-right scan takes has a possible target; where it takes a match and where it emits text is stated by TokensStep and TokensUnmatched |
| Links.TokensStep | lib/thimble.rb:48 | (helper) one step of the scan: where a match starts, it is taken whole and the scan resumes after it; otherwise one character is emitted as text and the scan moves on by one |
| Links.UnparseCons | lib/thimble.rb:48 | (helper) spelling out tokens one at a time |
| Links.RenderCons | lib/thimble.rb:52-59 | (helper) rendering tokens one at a time |
| Links.TargetsCons | lib/thimble.rb:48 | (helper) collecting targets one token at a time |
| Links.LitsCons | lib/thimble.rb:48 | (helper) plain-text tokens built one character at a time |
| Links.TokensUnmatched | lib/thimble.rb:48 | when no match starts at any position of a prefix, the scan emits the prefix character by character and goes on with the rest: the earliest opening that can match is the one taken |
| Links.LitsRender | lib/thimble.rb:52-59 | plain-text tokens render as their own characters |
| Links.LitsTargets | lib/thimble.rb:48 | plain-text tokens contribute no target |
| Links.TokensRoundTrip | lib/thimble.rb:48 | the scan loses nothing: the tokens spell out the original text |
| Links.ExtractLinks | lib/thimble.rb:47-49 | the links of a text contain no repeats, and a name is a link exactly when the scan finds it |
| Links.ExtractLinksProperties | lib/thimble.rb:47-49 | links are in order of first occurrence in the scan; no link contains a newline or `]]` |
| Links.TargetsAreTargets | lib/thimble.rb:48 | every scanned target is a possible target |
| Links.Scan | lib/thimble.rb:48 | `scan(...).flatten`: the captures of the matches, each a possible target |
| Links.Anchor | lib/thimble.rb:53-58 | the anchor ends with the target text and `</a>`, and it opens as a link `<a href="` exactly when the target is a page |
| Links.Resolve | lib/thimble.rb:51-60 | the scanned text with every match replaced by its anchor; its properties are stated by ResolveWithoutMatches, ResolveUnmatched, ResolvePlainPrefix and ResolveMatch |
| Links.Render | lib/thimble.rb:52-59 | the text `gsub` reassembles: each plain character as itself and each match as its anchor, in order; its properties are stated by RenderCons, LitsRender and RenderWithoutRefs |
| Links.RenderWithoutRefs | lib/thimble.rb:52-59 | rendering tokens without references gives back their text |
| Links.ResolveWithoutMatches | lib/thimble.rb:51-60 | text in which the scan finds no match is returned unchanged |
| Links.ResolveUnmatched | lib/thimble.rb:48-60 | text in which no match starts is copied unchanged and adds no link, whatever follows it |
| Links.ResolvePlainPrefix | lib/thimble.rb:48-60 | text in which every `[` is followed by a character other than `[` is copied unchanged and adds no link: a lone `[` opens nothing |
| Links.NewlineBreaksMatch | lib/thimble.rb:48 | an opening `[[` whose line ends before any bracket starts no match at any of its positions, whatever follows the newline |
| Links.ResolveMatch | lib/thimble.rb:48-59 | a match `[[t]]` is one reference token and becomes a link to `t.html` when `t` is a page and a missing-link marker otherwise, and the rest is resolved independently |
| Seqs.IndexOf | lib/thimble.rb:48 | the first position of an element: it holds the element, and no earlier position does |
| Seqs.Uniq | lib/thimble.rb:48 | `uniq` keeps exactly the elements of its input, with no repeats |
| Seqs.UniqSnoc | lib/thimble.rb:48 | (helper) appending an element to the input appends it to `uniq`'s result unless it already occurred |
| Seqs.UniqFirstOccurrence | lib/thimble.rb:48 | `uniq` keeps elements in the order of their first occurrence |
| Seqs.UniqOfNoDup | lib/thimble.rb:48 | `uniq` of a sequence without repeats is that sequence |
| Seqs.IndexOfExtend | lib/thimble.rb:32 | (helper) an element of a prefix keeps its first position in every extension |
| Seqs.IndexOfFresh | lib/thimble.rb:32 | (helper) an element appended to a sequence that lacks it sits at the end |
| Seqs.PrefixSnoc | lib/thimble.rb:21 | (helper) the next prefix of a sequence is the previous one plus one element |
| Seqs.PrefixAll | lib/thimble.rb:21 | (helper) the whole prefix is the sequence |
| Seqs.ConsAssoc | lib/thimble.rb:52-59 | (helper) concatenation regrouped around one element |
| Seqs.Remove | lib/thimble.rb:34 | (helper) the elements of a sequence other than one value |
| Pages.Names | lib/thimble.rb:21-22 | the page names of the documents, one per document, in order |
| Pages.NewPage | lib/thimble.rb:24-29 | the fresh record carries the document's name and text and no backlinks; its links are those of `extract_links`: no repeats, exactly the scanned targets |
| Pages.Table | lib/thimble.rb:21-30 | the table has a key exactly for every document name; each record has its name as key, no backlinks and links without repeats |
| Pages.TableLastWins | lib/thimble.rb:24-29 | a record holds the last document of its name: a later document overwrites an earlier one |
| Pages.TableSnoc | lib/thimble.rb:24-29 | (helper) reading one more document stores its record under its name |
| Pages.LoadConsistent | lib/thimble.rb:21-30 | (helper) reading keeps the key order free of repeats and equal to the key set, with every record under its own name |
| Pages.MapUpdateUnion | lib/thimble.rb:24 | (helper) storing a key in a union of maps stores it in the right-hand map |
| Pages.LoadTableStep | lib/thimble.rb:24-29 | (helper) reading one more document stores its record in the table read so far, over any earlier record of that name |
| Pages.LoadOrderStep | lib/thimble.rb:24 | reading one more document adds its name to the key order only if it is not already a key, as Ruby hashes keep the first insertion's place |
| Pages.LoadStep | lib/thimble.rb:24-29 | one turn of the reading loop: the record is stored, and the name joins the order only if it is new |
| Pages.Sources | lib/thimble.rb:32-37 | the pages, among a list of names, whose links name a given page |
| Pages.SourcesIff | lib/thimble.rb:32-37 | `n` is a source of `t` if and only if `n` is a listed page whose links contain `t` |
| Pages.SourcesNoDup | lib/thimble.rb:32-37 | a page never appears twice among the sources when the pass visits each page once |
| Pages.SourcesSnoc | lib/thimble.rb:32-37 | (helper) visiting one more page appends it once to the sources of every page it links to |
| Pages.ExtendInOrder | lib/thimble.rb:32 | (helper) names listed in pass order stay in pass order when the pass visits one more page |
| Pages.AppendInOrder | lib/thimble.rb:32-35 | (helper) appending the newly visited page to a list in pass order keeps it in pass order |
| Pages.SourcesInOrder | lib/thimble.rb:32-37 | sources are listed in the order the pass visits them |
| Pages.Indexed | lib/thimble.rb:32-37 | the backlink pass keeps the key set and every page's name, content and links, so it changes only backlinks |
| Pages.WithoutLink | lib/thimble.rb:33-34 | taking one link out of one page leaves the other pages and the other links as they were |
| Pages.SourcesIgnoreLink | lib/thimble.rb:34 | taking out a link to `t` does not change the sources of any other name |
| Pages.DanglingLink | lib/thimble.rb:34 | a link to a name that is not a page stays among the links and gives every page the same backlinks as if it were absent |
| Pages.Partial | lib/thimble.rb:32-37 | the table in the middle of the pass keeps keys and links |
| Pages.PartialStart | lib/thimble.rb:33 | before the inner loop, the state is the pass over the pages already done |
| Pages.PartialStep | lib/thimble.rb:34-35 | one turn of the inner loop appends the current page to the backlinks of its link target, if that target is a page, and otherwise changes nothing |
| Pages.PartialNext | lib/thimble.rb:34-35 | (helper) the turn for link `j` of a page: the link is new to the links already handled, so `PartialStep` applies |
| Pages.PartialFinishAt | lib/thimble.rb:33-36 | (helper) PartialFinish for one key: that page's backlinks are the same either way |
| Pages.PartialFinish | lib/thimble.rb:33-36 | after all links of a page, the state is the pass over one more page |
| Pages.IndexedNothing | lib/thimble.rb:32 | a pass over no pages changes nothing |
| Pages.IndexedConsistent | lib/thimble.rb:32-37 | (helper) the backlink pass keeps the table consistent |
| Pages.BacklinksInverse | lib/thimble.rb:32-37 | from empty backlinks, `n` is a backlink of page `t` exactly when `t` is among `n`'s links; without repeats; in pass order; only existing pages |
| Pages.GeneratedGraph | lib/thimble.rb:21-37 | after reading and indexing: one page per name, under its own name, holding the last document of that name; backlinks are exactly the inverse of the link relation restricted to pages, without repeats |
| Html.BacklinkList | lib/thimble.rb:77-84 | the heading and list are there exactly when there are backlinks, and there is nothing otherwise |
| Html.WrapHtml | lib/thimble.rb:62-96 | the title, the heading, the resolved body in `<main>`, then the backlink list; its properties are stated by BacklinkListIff and the rendered-page scenarios |
| Html.Preamble | lib/thimble.rb:68-76 | the `<title>` and `<h1>` holding the page name, then the opening `<main>`; WrapHtml puts it before the body, and the rendered-page scenarios show it in place |
| Html.ListItem | lib/thimble.rb:81 | one backlink entry: an `<li>` holding a link to the linking page's `.html` file, shown by its name; ItemsSingle states the one-entry list |
| Html.Items | lib/thimble.rb:80-82 | the entries of the backlink list, one `ListItem` per backlink, in order; ItemsAppend and ItemsSingle state this |
| Html.ItemsAppend | lib/thimble.rb:80-82 | the backlink list has one entry per backlink, in order |
| Html.ItemsSingle | lib/thimble.rb:81 | (helper) one backlink gives one `<li>` linking to its page |
| Html.BacklinkListIff | lib/thimble.rb:76-84 | a rendered page ends with the backlink list if and only if it has backlinks; otherwise it ends right after the body |
| Generator.OutputName | lib/thimble.rb:41 | the file of a page is its name with `.html` added |
| Generator.OutputNameInjective | lib/thimble.rb:41 | distinct page names give distinct output file names |
| Generator.Output | lib/thimble.rb:40-41 | the file written for one page: its output name and its rendered text |
| Generator.Outputs | lib/thimble.rb:39-42 | one output per name, in order |
| Generator.OutputsSnoc | lib/thimble.rb:39-42 | (helper) the outputs of one more name are the earlier outputs followed by that page's file |
| Generator.OutputsAt | lib/thimble.rb:39-42 | entry `i` of the outputs is the file of the page `names[i]` |
| Generator.Generator.constructor | lib/thimble.rb:12-16 | a new generator has an empty page hash |
| Generator.Generator.Load | lib/thimble.rb:21-30 | the reading loop leaves the table `Table(docs)` over the previous pages, the keys in first-insertion order, and the table consistent |
| Generator.Generator.LinkFrom | lib/thimble.rb:33-36 | the inner loop over one page's links leaves the table exactly at the pass over one more page |
| Generator.Generator.IndexBacklinks | lib/thimble.rb:32-37 | the nested backlink loops leave exactly `Indexed` of the previous table over the key order |
| Generator.Generator.RenderAll | lib/thimble.rb:39-42 | one output per page in key order: file name `name.html` and the rendered page |
| Generator.Generator.Generate | lib/thimble.rb:18-43 | the three passes in sequence: the order, the indexed table and the outputs |
| Scenarios.ReferenceAlone | lib/thimble.rb:47-59 | `[[t]]` on its own scans to `[t]` and resolves to the anchor of `t` |
| Scenarios.UniqTwice | lib/thimble.rb:48 | a target found twice is one link |
| Scenarios.RepeatedReference | lib/thimble.rb:47-59 | a text with two occurrences of one reference has that one link, and both occurrences are replaced |
| Scenarios.ScanTwice | lib/thimble.rb:48 | the scan of `p[[t]]q[[t]]` finds `t` twice |
| Scenarios.ScanBoth | lib/thimble.rb:48 | the scan of `[[t]]q[[t]]` finds `t` twice |
| Scenarios.ResolveTwice | lib/thimble.rb:52-59 | `p[[t]]q[[t]]` resolves to `p`, anchor, `q`, anchor |
| Scenarios.ResolveBoth | lib/thimble.rb:52-59 | `[[t]]q[[t]]` resolves to anchor, `q`, anchor |
| Scenarios.Reassociate | lib/thimble.rb:52-59 | (helper) regrouping the pieces of a resolved text |
| Scenarios.RepeatedReferenceExample | lib/thimble.rb:47-59 | `see [[B]] and [[B]]` has links `[B]` and two anchors to `B.html` |
| Scenarios.RepeatedText | lib/thimble.rb:48 | (helper) `see [[B]] and [[B]]` is plain text, a reference to B, plain text and the same reference |
| Scenarios.PlainSeparators | lib/thimble.rb:48 | (helper) the plain pieces `see ` and ` and ` hold no `[`, so no match starts in them |
| Scenarios.SingleReference | lib/thimble.rb:47-59 | `p[[t]]`, where no `[[` opens inside `p`, has links `[t]` and resolves to `p` and one anchor |
| Scenarios.LoneBracketText | lib/thimble.rb:48 | (helper) `x[1] ` holds no `[[` |
| Scenarios.LoneBracket | lib/thimble.rb:47-59 | `x[1] [[B]]` has links `[B]` and resolves to `x[1] ` and one anchor |
| Scenarios.BrokenOpeningText | lib/thimble.rb:48 | (helper) literal facts about `[[a` and a newline |
| Scenarios.BrokenOpening | lib/thimble.rb:47-59 | in `[[a`, a newline, `[[b]]`, the first opening is passed over and kept as text; the one link is `b` |
| Scenarios.LeftmostText | lib/thimble.rb:48 | (helper) `a] [[b` is a possible target |
| Scenarios.LeftmostOpening | lib/thimble.rb:47-59 | in `[[a] [[b]]` the match starts at the first `[[` and closes at the first `]]`, so the one link is `a] [[b` |
| Scenarios.TwoDocuments | lib/thimble.rb:21-30 | two documents of distinct names give two pages, in reading order |
| Scenarios.TwoSources | lib/thimble.rb:32-37 | over two pages, the sources of a page are those of the two that link to it, in order |
| Scenarios.TwoPages | lib/thimble.rb:21-37 | two pages that link only to each other are each other's only backlink |
| Scenarios.TwoBacklinks | lib/thimble.rb:32-37 | the backlink pass over two pages that link only to each other |
| Scenarios.MutualTexts | lib/thimble.rb:47-49 | `see [[B]] and [[B]]` links to B only, `see [[A]]` to A only |
| Scenarios.MutualReferences | lib/thimble.rb:21-37 | A = `see [[B]] and [[B]]`, B = `see [[A]]`: links `[B]` and `[A]`, backlinks `[B]` and `[A]`, and each generated record in full |
| Scenarios.RenderPageA | lib/thimble.rb:62-96 | the record of page A renders two anchors to B and one backlink entry for B |
| Scenarios.MutualReferencesPageA | lib/thimble.rb:18-96 | page A of the generated table renders two anchors to B and one backlink entry for B |
| Scenarios.BackReferenceText | lib/thimble.rb:48 | `see [[A]]` is plain text followed by one reference to `A` |
| Scenarios.RenderPageB | lib/thimble.rb:62-96 | the record of page B renders one anchor to A and one backlink entry for A |
| Scenarios.MutualReferencesPageB | lib/thimble.rb:18-96 | page B of the generated table renders one anchor to A and one backlink entry for A |
| Scenarios.OnePage | lib/thimble.rb:21-37 | one document gives one page, which is its own backlink only if it links to itself |
| Scenarios.MissingTarget | lib/thimble.rb:32-60 | a reference to a name that is not a page is kept as a link, gives no backlink and renders as a missing-link marker |
| Scenarios.GhostText | lib/thimble.rb:48 | `see [[Ghost]]` is plain text followed by one reference to `Ghost`, which is not `A` |
| Scenarios.MissingPage | lib/thimble.rb:21-60 | A = `see [[Ghost]]` alone: links `[Ghost]`, no backlinks, a missing-link marker |
| Scenarios.DuplicateName | lib/thimble.rb:24-29 | two documents named `x` give one page `x` holding the second document |

Two policies that a reader might expect are not what the source does. The
model follows the source in both:

- **Duplicate names.** An alternative policy would raise a
  `DuplicateNameError` when two documents derive the same page name.
  `generate` has no such check: the later assignment to `@pages[page_name]` overwrites the record,
  and the key keeps its original place in the hash order. `Table`,
  `TableLastWins`, `Generator.Generator.Load` and `Scenarios.DuplicateName`
  model this overwrite.
- **Backlink order.** An alternative reading would treat backlinks as a set
  visited in an unspecified order. In the source, the list is in hash-insertion order of
  the linking pages. `Pages.SourcesInOrder` and `Pages.BacklinksInverse`
  state that order. Set membership is stated separately, with no repeats.

A page that links to itself becomes its own backlink. The source appends its
name to itself like any other existing target, and `Scenarios.OnePage` states
this.

## Left out

- The command-line interface (`Thimble::CLI`), option parsing and the default
  output directory: they are outside the generator.
- Directory creation, globbing, `File.basename`, `File.read`, `File.write`
  and `File.join` with the output directory: file-system I/O. Documents are
  given as a sequence, and outputs are returned as `(file name, text)` pairs.
- The ERB template text beyond its tag structure. The doctype, the head, the
  meta tag, the style sheet and the layout whitespace are left out, and
  `Html.WrapHtml` keeps only the `<title>`, `<h1>`, `<main>`, `<h2>`, `<ul>`
  and `<li>` structure. This is template text, not logic.
- HTML escaping: the source does none, and neither does the model.
- Generator.OutputNameInjective: distinct names give distinct file names, but
  the file system's case folding is not modelled. On a case-insensitive file
  system, `A.html` and `a.html` are one file, so pages named `A` and `a` (from
  documents in different directories) would overwrite each other's output.
- A `DuplicateNameError`: the source does not raise it (see above).
- Ruby regular-expression features the pattern does not use. The model
  covers: lazy `.*?`, `.` not matching a newline, one closing `]]`, a scan
  that moves on by one character after a failed start, and non-overlapping
  matches. Characters are Dafny `char`s, with no encoding or multi-byte
  handling.
- Ruby's reference semantics for the record hashes are not modelled. In the
  source, the loop variable `data` and `@pages[outbound]` share one hash
  object. In the model, records are values, and the backlink method replaces
  a record with an updated copy. The links of a page do not change during
  the pass, so the outcome is the same.
