/**
 Wiki references `[[TARGET]]` in a page's text: the left-to-right,
 non-overlapping scan that Ruby performs for the pattern `\[\[(.*?)\]\]`,
 written out as a tokenizer; `extract_links` (the scanned targets, with
 duplicates dropped) and `preprocess_content` (every match replaced by an
 anchor, everything else copied).
 */
module Links {
  import opened Seqs

  datatype Option<T> = None | Some(value: T)

  /** One piece of scanned text: a character outside every match, or a whole match. */
  datatype Token = Lit(ch: char) | Ref(target: string)

  /** A match at the start of a text: its target and how many characters it spans. */
  datatype Match = Match(target: string, length: nat)

  /** `s` holds the closing delimiter `]]` at position `k`. */
  predicate ClosesAt(s: string, k: int)
  {
    0 <= k && k + 1 < |s| && s[k] == ']' && s[k + 1] == ']'
  }

  /**
   The lazy `.*?` followed by `\]\]` stops at `k`: `k` is the first `]]` in `s`,
   and no newline (which `.` does not match) comes before it.
   */
  predicate FirstClose(s: string, k: nat)
  {
    && ClosesAt(s, k)
    && '\n' !in s[..k]
    && forall j :: 0 <= j < k ==> !ClosesAt(s, j)
  }

  lemma FirstCloseUnique(s: string, k1: nat, k2: nat)
    requires FirstClose(s, k1) && FirstClose(s, k2)
    ensures k1 == k2
  {
  }

  /** Search for the end of a match whose opening `[[` has just been read. */
  function FindClose(s: string): (r: Option<nat>)
    ensures r.Some? ==> FirstClose(s, r.value)
    ensures r.None? ==> forall k: nat :: !FirstClose(s, k)
    decreases |s|
  {
    if ClosesAt(s, 0) then Some(0)
    else if s == [] then None
    else if s[0] == '\n' then
      assert forall k: nat :: 0 < k < |s| ==> s[..k][0] == '\n';
      None
    else
      match FindClose(s[1..])
      case None =>
        assert forall k: nat :: !FirstClose(s, k) by {
          forall k: nat | FirstClose(s, k)
            ensures false
          {
            CloseShift(s, k - 1);
          }
        }
        None
      case Some(k) =>
        CloseShift(s, k);
        Some(k + 1)
  }

  /** Past a first character that is neither a newline nor the start of `]]`, the search moves on by one. */
  lemma CloseShift(s: string, k: nat)
    requires s != [] && s[0] != '\n' && !ClosesAt(s, 0)
    ensures FirstClose(s, k + 1) <==> FirstClose(s[1..], k)
  {
    var rest := s[1..];
    assert forall j :: 0 <= j < |rest| ==> ClosesAt(rest, j) == ClosesAt(s, j + 1);
    if k + 1 <= |s| {
      assert s[..k + 1] == [s[0]] + rest[..k];
    }
    if FirstClose(s, k + 1) {
      forall j | 0 <= j < k
        ensures !ClosesAt(rest, j)
      {
        assert !ClosesAt(s, j + 1);
      }
    }
    if FirstClose(rest, k) {
      forall j | 0 <= j < k + 1
        ensures !ClosesAt(s, j)
      {
        if j > 0 {
          assert !ClosesAt(rest, j - 1);
        }
      }
    }
  }

  /**
   A possible target: no newline, and every `]` in it is followed, inside the
   target, by a character other than `]`. Exactly these texts `t` make
   `[[t]]` a complete match (see MatchIff).
   */
  predicate IsTarget(t: string)
  {
    && '\n' !in t
    && forall j :: 0 <= j < |t| && t[j] == ']' ==> j + 1 < |t| && t[j + 1] != ']'
  }

  /** The text before the first closing delimiter is a possible target. */
  lemma CloseTarget(u: string, k: nat)
    requires FirstClose(u, k)
    ensures IsTarget(u[..k])
  {
    var t := u[..k];
    forall j | 0 <= j < |t| && t[j] == ']'
      ensures j + 1 < |t| && t[j + 1] != ']'
    {
      assert u[j] == ']';
      assert !ClosesAt(u, j);
      assert u[j + 1] != ']';
      if j + 1 < |t| {
        assert t[j + 1] == u[j + 1];
      }
    }
  }

  /** The regular expression tried at the first position of `s`. */
  function MatchAt(s: string): (r: Option<Match>)
    ensures r.Some? ==> 4 <= r.value.length <= |s| && r.value.length == |r.value.target| + 4
    ensures r.Some? ==> s[..r.value.length] == "[[" + r.value.target + "]]"
    ensures r.Some? ==> IsTarget(r.value.target)
  {
    if |s| >= 2 && s[0] == '[' && s[1] == '[' then
      match FindClose(s[2..])
      case Some(k) =>
        CloseTarget(s[2..], k);
        assert s[2..k + 2] == s[2..][..k];
        Some(Match(s[2..k + 2], k + 4))
      case None => None
    else None
  }

  /** `[[t]]` at the start of a text matches with target `t` exactly when `t` is a possible target. */
  lemma MatchIff(t: string, rest: string)
    ensures MatchAt("[[" + t + "]]" + rest) == Some(Match(t, |t| + 4)) <==> IsTarget(t)
  {
    var s := "[[" + t + "]]" + rest;
    if IsTarget(t) {
      var u := s[2..];
      assert u == t + "]]" + rest;
      assert u[..|t|] == t;
      assert forall j :: 0 <= j < |t| ==> u[j] == t[j];
      assert FirstClose(u, |t|);
      var r := FindClose(u);
      FirstCloseUnique(u, r.value, |t|);
      assert s[2..|t| + 2] == t;
    }
  }

  /** A match never reaches past a newline: it closes before the first one. */
  lemma MatchStopsAtNewline(u: string, rest: string)
    requires MatchAt("[[" + u + "\n" + rest).Some?
    ensures MatchAt("[[" + u + "\n" + rest).value.length <= |u| + 2
  {
    var s := "[[" + u + "\n" + rest;
    var v := s[2..];
    assert v == u + "\n" + rest;
    var k := FindClose(v).value;
    assert v[|u|] == '\n';
  }

  /** The scan of Ruby's `String#scan`/`String#gsub` for `\[\[(.*?)\]\]`, left to right. */
  function Tokens(s: string): (ts: seq<Token>)
    ensures forall i :: 0 <= i < |ts| && ts[i].Ref? ==> IsTarget(ts[i].target)
    decreases |s|
  {
    if s == [] then []
    else
      match MatchAt(s)
      case Some(m) => [Ref(m.target)] + Tokens(s[m.length..])
      case None => [Lit(s[0])] + Tokens(s[1..])
  }

  /** The text a token sequence was scanned from. */
  function Unparse(ts: seq<Token>): string
  {
    if ts == [] then []
    else
      match ts[0]
      case Lit(c) => [c] + Unparse(ts[1..])
      case Ref(t) => "[[" + t + "]]" + Unparse(ts[1..])
  }

  /** Scanning loses nothing: the tokens spell out the text again. */
  lemma {:induction false} TokensRoundTrip(s: string)
    ensures Unparse(Tokens(s)) == s
    decreases |s|
  {
    if s != [] {
      TokensStep(s);
      match MatchAt(s)
      case Some(m) =>
        var rest := s[m.length..];
        assert Tokens(s) == [Ref(m.target)] + Tokens(rest);
        UnparseCons(Ref(m.target), Tokens(rest));
        TokensRoundTrip(rest);
        assert Unparse(Tokens(s)) == s[..m.length] + rest;
        assert s == s[..m.length] + rest;
      case None =>
        var rest := s[1..];
        assert Tokens(s) == [Lit(s[0])] + Tokens(rest);
        UnparseCons(Lit(s[0]), Tokens(rest));
        TokensRoundTrip(rest);
        assert Unparse(Tokens(s)) == [s[0]] + rest;
        assert s == [s[0]] + rest;
    }
  }

  /** The targets of the matches, in scan order. */
  function Targets(ts: seq<Token>): seq<string>
  {
    if ts == [] then []
    else if ts[0].Ref? then [ts[0].target] + Targets(ts[1..])
    else Targets(ts[1..])
  }

  /** `content.scan(/\[\[(.*?)\]\]/).flatten`. */
  function Scan(s: string): (targets: seq<string>)
    ensures forall t :: t in targets ==> IsTarget(t)
  {
    TargetsAreTargets(Tokens(s));
    Targets(Tokens(s))
  }

  /** `extract_links`: the scanned targets with repeats dropped. */
  function ExtractLinks(s: string): (links: seq<string>)
    ensures NoDup(links)
    ensures forall t :: t in links <==> t in Scan(s)
  {
    Uniq(Scan(s))
  }

  /** Every scanned target is a possible target. */
  lemma {:induction false} TargetsAreTargets(ts: seq<Token>)
    requires forall i :: 0 <= i < |ts| && ts[i].Ref? ==> IsTarget(ts[i].target)
    ensures forall t :: t in Targets(ts) ==> IsTarget(t)
  {
    if ts != [] {
      TargetsAreTargets(ts[1..]);
    }
  }

  /**
   The links are ordered by first occurrence in the scan, and none of them
   holds a newline or the closing `]]`.
   */
  lemma ExtractLinksProperties(s: string)
    ensures forall i, j :: 0 <= i < j < |ExtractLinks(s)| ==>
      IndexOf(Scan(s), ExtractLinks(s)[i]) < IndexOf(Scan(s), ExtractLinks(s)[j])
    ensures forall t :: t in ExtractLinks(s) ==> '\n' !in t && forall k :: !ClosesAt(t, k)
  {
    UniqFirstOccurrence(Scan(s));
    TargetsAreTargets(Tokens(s));
  }

  /**
   The anchor that replaces one match (the block given to `gsub`): it shows
   the target, and it is a link exactly when the target is a page.
   */
  function Anchor(t: string, keys: set<string>): (a: string)
    ensures |a| >= |t| + 13 && a[|a| - |t| - 4..] == t + "</a>"
    ensures a[..9] == "<a href=\"" <==> t in keys
  {
    if t in keys then "<a href=\"" + t + ".html\">" + t + "</a>"
    else
      var a := "<a class=\"missing-link\">" + t + "</a>";
      assert a[3] == 'c' != "<a href=\""[3];
      a
  }

  function Render(ts: seq<Token>, keys: set<string>): string
  {
    if ts == [] then []
    else
      match ts[0]
      case Lit(c) => [c] + Render(ts[1..], keys)
      case Ref(t) => Anchor(t, keys) + Render(ts[1..], keys)
  }

  /** `preprocess_content`: every match replaced by its anchor. */
  function Resolve(s: string, keys: set<string>): string
  {
    Render(Tokens(s), keys)
  }

  lemma {:induction false} RenderWithoutRefs(ts: seq<Token>, keys: set<string>)
    requires Targets(ts) == []
    ensures Render(ts, keys) == Unparse(ts)
  {
    if ts != [] {
      RenderWithoutRefs(ts[1..], keys);
    }
  }

  /** Text without a match is returned as it is. */
  lemma ResolveWithoutMatches(s: string, keys: set<string>)
    requires Scan(s) == []
    ensures Resolve(s, keys) == s
  {
    RenderWithoutRefs(Tokens(s), keys);
    TokensRoundTrip(s);
  }

  /** No match of the pattern starts at any position of `p` when `p` is followed by `s`. */
  predicate NoMatchIn(p: string, s: string)
  {
    forall i :: 0 <= i < |p| ==> MatchAt((p + s)[i..]).None?
  }

  /** The characters of `p`, each as a token outside every match. */
  function Lits(p: string): seq<Token>
  {
    if p == [] then [] else [Lit(p[0])] + Lits(p[1..])
  }

  /** One step of the scan: a match is taken whole, otherwise one character. */
  lemma TokensStep(u: string)
    requires u != []
    ensures MatchAt(u).Some? ==> Tokens(u) == [Ref(MatchAt(u).value.target)] + Tokens(u[MatchAt(u).value.length..])
    ensures MatchAt(u).None? ==> Tokens(u) == [Lit(u[0])] + Tokens(u[1..])
  {
  }

  /** Unparsing goes token by token. */
  lemma UnparseCons(tok: Token, ts: seq<Token>)
    ensures Unparse([tok] + ts) == (if tok.Lit? then [tok.ch] else "[[" + tok.target + "]]") + Unparse(ts)
  {
    var l := [tok] + ts;
    assert l[0] == tok && l[1..] == ts;
  }

  /** Rendering goes token by token. */
  lemma RenderCons(tok: Token, ts: seq<Token>, keys: set<string>)
    ensures Render([tok] + ts, keys) == (if tok.Lit? then [tok.ch] else Anchor(tok.target, keys)) + Render(ts, keys)
  {
    var l := [tok] + ts;
    assert l[0] == tok && l[1..] == ts;
  }

  /** Collecting targets goes token by token. */
  lemma TargetsCons(tok: Token, ts: seq<Token>)
    ensures Targets([tok] + ts) == (if tok.Lit? then [] else [tok.target]) + Targets(ts)
  {
    var l := [tok] + ts;
    assert l[0] == tok && l[1..] == ts;
  }

  /**
   The scan moves on one character at a time wherever no match starts:
   every such character is a token of its own, and the scan of the rest is
   unaffected.
   */
  lemma {:induction false} TokensUnmatched(p: string, s: string)
    requires NoMatchIn(p, s)
    ensures Tokens(p + s) == Lits(p) + Tokens(s)
    decreases |p|
  {
    if p != [] {
      var u := p + s;
      assert u[0..] == u;
      assert u[1..] == p[1..] + s;
      TokensStep(u);
      forall i | 0 <= i < |p[1..]|
        ensures MatchAt((p[1..] + s)[i..]).None?
      {
        assert (p[1..] + s)[i..] == u[i + 1..];
      }
      TokensUnmatched(p[1..], s);
      LitsCons(p, Tokens(s));
    } else {
      assert p + s == s;
    }
  }

  lemma LitsCons(p: string, ts: seq<Token>)
    requires p != []
    ensures Lits(p) + ts == [Lit(p[0])] + (Lits(p[1..]) + ts)
  {
    assert Lits(p) == [Lit(p[0])] + Lits(p[1..]);
  }

  /** Literal tokens render as their characters. */
  lemma {:induction false} LitsRender(p: string, ts: seq<Token>, keys: set<string>)
    ensures Render(Lits(p) + ts, keys) == p + Render(ts, keys)
    decreases |p|
  {
    if p != [] {
      var l := Lits(p[1..]) + ts;
      LitsCons(p, ts);
      RenderCons(Lit(p[0]), l, keys);
      LitsRender(p[1..], ts, keys);
      ConsAssoc(p[0], p[1..], Render(ts, keys));
      assert p == [p[0]] + p[1..];
    } else {
      assert Lits(p) + ts == ts;
    }
  }

  /** Literal tokens hold no target. */
  lemma {:induction false} LitsTargets(p: string, ts: seq<Token>)
    ensures Targets(Lits(p) + ts) == Targets(ts)
    decreases |p|
  {
    if p != [] {
      var l := Lits(p[1..]) + ts;
      LitsCons(p, ts);
      TargetsCons(Lit(p[0]), l);
      LitsTargets(p[1..], ts);
    } else {
      assert Lits(p) + ts == ts;
    }
  }

  /**
   Text at none of whose positions a match starts is copied unchanged and
   contributes no target; the rest of the text is resolved and scanned on
   its own.
   */
  lemma ResolveUnmatched(p: string, s: string, keys: set<string>)
    requires NoMatchIn(p, s)
    ensures Resolve(p + s, keys) == p + Resolve(s, keys)
    ensures Scan(p + s) == Scan(s)
  {
    TokensUnmatched(p, s);
    LitsRender(p, Tokens(s), keys);
    LitsTargets(p, Tokens(s));
  }

  /** No `[[` starts inside `p`, not even one completed by the text after it. */
  predicate NoOpening(p: string)
  {
    forall i :: 0 <= i < |p| && p[i] == '[' ==> i + 1 < |p| && p[i + 1] != '['
  }

  /** Text in which no `[[` starts is copied unchanged and contributes no target. */
  lemma ResolvePlainPrefix(p: string, s: string, keys: set<string>)
    requires NoOpening(p)
    ensures Resolve(p + s, keys) == p + Resolve(s, keys)
    ensures Scan(p + s) == Scan(s)
  {
    forall i | 0 <= i < |p|
      ensures MatchAt((p + s)[i..]).None?
    {
      var v := (p + s)[i..];
      assert v[0] == p[i];
      if p[i] == '[' {
        assert v[1] == p[i + 1];
      }
    }
    ResolveUnmatched(p, s, keys);
  }

  /**
   An opening `[[` whose target would run into a newline is no match: a text
   `[[u` followed by a newline, with no bracket in `u`, is copied as it is.
   */
  lemma NewlineBreaksMatch(u: string, rest: string)
    requires '[' !in u && ']' !in u
    ensures NoMatchIn("[[" + u + "\n", rest)
  {
    var p := "[[" + u + "\n";
    var v := p + rest;
    assert v == "[[" + u + "\n" + rest;
    if MatchAt(v).Some? {
      MatchStopsAtNewline(u, rest);
    }
    forall i | 0 <= i < |p|
      ensures MatchAt(v[i..]).None?
    {
      if i == 0 {
        assert v[0..] == v;
      } else {
        assert v[i..][0] == v[i];
        if i == 1 {
          assert v[i..][1] == v[2];
          assert v[2] == if |u| > 0 then u[0] else '\n';
        } else {
          assert v[i] == if i < |u| + 2 then u[i - 2] else '\n';
        }
      }
    }
  }

  /**
   A match is replaced on its own terms: a link to a key, a missing-link
   marker otherwise; the scan goes on right after it.
   */
  lemma ResolveMatch(t: string, s: string, keys: set<string>)
    requires IsTarget(t)
    ensures Tokens("[[" + t + "]]" + s) == [Ref(t)] + Tokens(s)
    ensures Resolve("[[" + t + "]]" + s, keys) == Anchor(t, keys) + Resolve(s, keys)
    ensures Scan("[[" + t + "]]" + s) == [t] + Scan(s)
  {
    var u := "[[" + t + "]]" + s;
    MatchIff(t, s);
    assert u[|t| + 4..] == s;
  }
}
