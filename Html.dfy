/**
 The structure of the page `wrap_html` produces: the title, the body with
 references resolved, and a backlink list that is present only when the page
 has backlinks. The document head, style sheet and layout whitespace of the
 template are not modelled.
 */
module Html {
  import opened Links
  import opened Pages

  /** One entry of the backlink list. */
  function ListItem(link: string): string
  {
    "<li><a href=\"" + link + ".html\">" + link + "</a></li>"
  }

  /** The entries of the backlink list, one per backlink. */
  function Items(links: seq<string>): string
  {
    if links == [] then [] else ListItem(links[0]) + Items(links[1..])
  }

  /** `<% unless backlinks.empty? %>`: the heading and the list, or nothing at all. */
  function BacklinkList(links: seq<string>): (html: string)
    ensures html == [] <==> links == []
  {
    if links == [] then [] else "<h2>backlinks</h2><ul>" + Items(links) + "</ul>"
  }

  function Preamble(title: string): string
  {
    "<title>" + title + "</title><h1>" + title + "</h1><main>"
  }

  /** `wrap_html`: title, resolved body, optional backlink list. */
  function WrapHtml(page: Page, keys: set<string>): string
  {
    Preamble(page.name) + Resolve(page.content, keys) + "</main>" + BacklinkList(page.backlinks)
  }

  /** The list has one entry per backlink, in the order of the backlinks. */
  lemma {:induction false} ItemsAppend(a: seq<string>, b: seq<string>)
    ensures Items(a + b) == Items(a) + Items(b)
  {
    if a != [] {
      assert (a + b)[1..] == a[1..] + b;
      ItemsAppend(a[1..], b);
    } else {
      assert a + b == b;
    }
  }

  lemma ItemsSingle(link: string)
    ensures Items([link]) == ListItem(link)
  {
  }

  predicate EndsWith(s: string, suffix: string)
  {
    |suffix| <= |s| && s[|s| - |suffix|..] == suffix
  }

  /**
   The rendered page closes with the backlink list exactly when the page has
   backlinks; without backlinks it closes right after the body.
   */
  lemma BacklinkListIff(page: Page, keys: set<string>)
    ensures EndsWith(WrapHtml(page, keys), "</ul>") <==> page.backlinks != []
    ensures page.backlinks == [] <==> EndsWith(WrapHtml(page, keys), "</main>")
  {
    var h := WrapHtml(page, keys);
    if page.backlinks == [] {
      assert h == (Preamble(page.name) + Resolve(page.content, keys)) + "</main>";
      assert h[|h| - 5..] == "main>"[..] by {
        assert h[|h| - 5..] == "</main>"[2..];
      }
    } else {
      var pre := Preamble(page.name) + Resolve(page.content, keys) + "</main>" + "<h2>backlinks</h2><ul>" + Items(page.backlinks);
      assert h == pre + "</ul>";
      assert h[|h| - 5..] == "</ul>";
      assert h[|h| - 7..][2..] == "</ul>";
    }
  }
}
