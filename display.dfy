// How the pathfinders print a path: `to_titlecase`, `LinkedPage::fmt_title`,
// `LinkedPage::count` and `LinkedPage::unwind` (src/main.rs, src/bin/find_average.rs).
// The `pages` table that `unwind` queries for a title and its redirect flag is a map
// from an id to that pair; a missing row makes the query's `unwrap` panic, which the
// model reports as `None`.

module PathDisplay {
  import opened Text
  import opened TitleIdentity
  import opened LinkGraph

  /** `char::to_uppercase().next()`, on ASCII letters. */
  function AsciiUpper(c: char): (r: char)
    ensures 'a' <= c <= 'z' ==> r as int == c as int - 32
    ensures !('a' <= c <= 'z') ==> r == c
  {
    if 'a' <= c <= 'z' then (c as int - 32) as char else c
  }

  /** `to_titlecase` with the `capitalise` flag it carries from one character to the
      next: a space sets it, any other character clears it, and the first character
      after it is set is uppercased. */
  function TitlecaseFrom(s: string, capitalise: bool): (r: string)
    decreases |s|
  {
    if s == [] then []
    else if s[0] == ' ' then [' '] + TitlecaseFrom(s[1..], true)
    else if capitalise then [AsciiUpper(s[0])] + TitlecaseFrom(s[1..], false)
    else [s[0]] + TitlecaseFrom(s[1..], false)
  }

  function Titlecase(s: string): string {
    TitlecaseFrom(s, true)
  }

  /** A position that starts a word: the first one, or one right after a space. */
  predicate WordStart(s: string, i: nat)
    requires i < |s|
  {
    i == 0 || s[i - 1] == ' '
  }

  /** The character that `TitlecaseFrom(s, capitalise)` puts at position `i`. */
  function CasedAt(s: string, i: nat, capitalise: bool): char
    requires i < |s|
  {
    if s[i] == ' ' then ' '
    else if (if i == 0 then capitalise else s[i - 1] == ' ') then AsciiUpper(s[i])
    else s[i]
  }

  lemma {:induction false} TitlecaseFromAt(s: string, capitalise: bool)
    decreases |s|
    ensures |TitlecaseFrom(s, capitalise)| == |s|
    ensures forall i :: 0 <= i < |s| ==> TitlecaseFrom(s, capitalise)[i] == CasedAt(s, i, capitalise)
  {
    if s != [] {
      var rest := s[1..];
      TitlecaseFromAt(rest, s[0] == ' ');
      var r := TitlecaseFrom(s, capitalise);
      assert r[1..] == TitlecaseFrom(rest, s[0] == ' ');
      assert r[0] == CasedAt(s, 0, capitalise);
      forall i | 1 <= i < |s| ensures r[i] == CasedAt(s, i, capitalise) {
        assert r[i] == r[1..][i - 1] && s[i] == rest[i - 1];
        if i > 1 {
          assert s[i - 1] == rest[i - 2];
        }
        assert r[1..][i - 1] == CasedAt(rest, i - 1, s[0] == ' ');
      }
    }
  }

  /** The length and the spaces are kept; the character that starts a word is
      uppercased, and every other character is left as it is. */
  lemma TitlecaseAt(s: string)
    ensures |Titlecase(s)| == |s|
    ensures forall i :: 0 <= i < |s| ==> (Titlecase(s)[i] == ' ' <==> s[i] == ' ')
    ensures forall i :: 0 <= i < |s| && WordStart(s, i) ==> Titlecase(s)[i] == AsciiUpper(s[i])
    ensures forall i :: 0 <= i < |s| && !WordStart(s, i) ==> Titlecase(s)[i] == s[i]
  {
    TitlecaseFromAt(s, true);
  }

  /** When every character that starts a word is ASCII, titlecasing only changes the
      case of ASCII letters, so the displayed title has the id of the title it was made
      from. (A word that starts with a non-ASCII letter, as in "Café élan", can change
      in a way that lowercasing does not undo, and its id may differ.) */
  lemma TitlecaseSameId(hash: Hasher, s: string)
    requires forall i :: 0 <= i < |s| && WordStart(s, i) ==> (s[i] as int) < 128
    ensures SameUpToAsciiCase(s, Titlecase(s))
    ensures TitleId(hash, Titlecase(s)) == TitleId(hash, s)
  {
    TitlecaseAt(s);
    CaseInsensitive(hash, s, Titlecase(s));
  }

  /** `to_titlecase`: the character loop with its `capitalise` flag. */
  method ToTitlecase(name: string) returns (r: string)
    ensures r == Titlecase(name)
  {
    r := "";
    var capitalise := true;
    for i := 0 to |name|
      invariant |r| == i
      invariant capitalise <==> (i == 0 || name[i - 1] == ' ')
      invariant forall k :: 0 <= k < i ==> r[k] == CasedAt(name, k, true)
    {
      var c := name[i];
      if c == ' ' {
        capitalise := true;
        r := r + [' '];
      } else if capitalise {
        r := r + [AsciiUpper(c)];
        capitalise := false;
      } else {
        r := r + [c];
        capitalise := false;
      }
    }
    TitlecaseFromAt(name, true);
  }

  const RedirectArrow := " =?=>"
  const LinkArrow := " --->"

  /** `fmt_title`: the titlecased title followed by the arrow that says whether the page
      is a redirect. */
  function FmtTitle(title: string, redirect: bool): (r: string)
    ensures |r| == |title| + 5 && r[..|title|] == Titlecase(title)
    ensures EndsWith(r, RedirectArrow) <==> redirect
    ensures EndsWith(r, LinkArrow) <==> !redirect
  {
    TitlecaseAt(title);
    var t := Titlecase(title);
    assert (t + RedirectArrow)[..|t|] == t && (t + LinkArrow)[..|t|] == t;
    assert (t + RedirectArrow)[|t|..] == RedirectArrow && (t + LinkArrow)[|t|..] == LinkArrow;
    t + (if redirect then RedirectArrow else LinkArrow)
  }

  /** `count`: one for the seed, one more per predecessor; the number of pages on the
      chain, which is one more than its number of hops. */
  function Count(v: Visited, ghost level: map<Id, nat>, x: Id): (r: nat)
    requires Tree(v, level) && x in v
    decreases level[x]
    ensures r == level[x] + 1 && r == |Chain(v, level, x)|
  {
    match v[x]
    case None => 1
    case Some(u) => 1 + Count(v, level, u)
  }

  /** The row of the `pages` table for an id: its title and whether it is a redirect. */
  type Pages = map<Id, (string, bool)>

  predicate AllListed(pages: Pages, c: seq<Id>) {
    forall k :: 0 <= k < |c| ==> c[k] in pages
  }

  /** The lines `unwind` prints for the chain `c`: each page but the last with its
      arrow, the last one titlecased only. */
  function Lines(pages: Pages, c: seq<Id>): seq<string>
    requires AllListed(pages, c)
    decreases |c|
  {
    if c == [] then []
    else if |c| == 1 then [Titlecase(pages[c[0]].0)]
    else [FmtTitle(pages[c[0]].0, pages[c[0]].1)] + Lines(pages, c[1..])
  }

  /** What `unwind` returns for the chain `c`: its lines joined by newlines, or `None`
      when some page of the chain has no row. */
  function PathText(pages: Pages, c: seq<Id>): Option<string> {
    if AllListed(pages, c) then Some(Join(Lines(pages, c), "\n")) else None
  }

  /** One more line in front of the text of the rest of the chain. */
  lemma LinesCons(pages: Pages, c: seq<Id>, i: nat)
    requires 0 < i < |c| && AllListed(pages, c[i..]) && c[i - 1] in pages
    ensures AllListed(pages, c[i - 1..])
    ensures Join(Lines(pages, c[i - 1..]), "\n")
      == FmtTitle(pages[c[i - 1]].0, pages[c[i - 1]].1) + "\n" + Join(Lines(pages, c[i..]), "\n")
  {
    var d, e := c[i - 1..], c[i..];
    assert d[1..] == e && d[0] == c[i - 1];
    assert AllListed(pages, d) by {
      assert forall k :: 0 < k < |d| ==> d[k] == e[k - 1];
    }
    JoinCons(FmtTitle(pages[d[0]].0, pages[d[0]].1), Lines(pages, e), "\n");
  }

  /** `unwind`: the target's title, then, while there is a predecessor, that page's
      formatted title and a newline in front. Every id on the chain is looked up in
      `pages`; the result is the text of the whole chain. */
  method Unwind(pages: Pages, v: Visited, ghost level: map<Id, nat>, x: Id) returns (r: Option<string>)
    requires Tree(v, level) && x in v
    ensures r == PathText(pages, Chain(v, level, x))
  {
    ghost var c := Chain(v, level, x);
    if x !in pages {
      assert c[|c| - 1] !in pages;
      return None;
    }
    var output := Titlecase(pages[x].0);
    ghost var i := |c| - 1;
    assert c[i..] == [x];
    var from := v[x];
    if i > 0 {
      assert v[c[(i - 1) + 1]] == Some(c[i - 1]);
    }
    while from.Some?
      invariant 0 <= i < |c| && from == (if i > 0 then Some(c[i - 1]) else None)
      invariant AllListed(pages, c[i..]) && output == Join(Lines(pages, c[i..]), "\n")
      decreases i
    {
      var u := from.value;
      if u !in pages {
        return None;
      }
      LinesCons(pages, c, i);
      output := FmtTitle(pages[u].0, pages[u].1) + "\n" + output;
      i := i - 1;
      from := v[u];
      if i > 0 {
        assert v[c[(i - 1) + 1]] == Some(c[i - 1]);
      }
    }
    assert c[i..] == c;
    r := Some(output);
  }

  /** One line per page of the chain: the last is its title, titlecased, and every
      other one is its formatted title, with its arrow. */
  lemma {:induction false} LinesAt(pages: Pages, c: seq<Id>)
    requires AllListed(pages, c)
    decreases |c|
    ensures |Lines(pages, c)| == |c|
    ensures c != [] ==> Lines(pages, c)[|c| - 1] == Titlecase(pages[c[|c| - 1]].0)
    ensures forall k :: 0 <= k < |c| - 1 ==> Lines(pages, c)[k] == FmtTitle(pages[c[k]].0, pages[c[k]].1)
  {
    if |c| > 1 {
      var e := c[1..];
      assert AllListed(pages, e) by {
        assert forall k :: 0 <= k < |e| ==> e[k] == c[k + 1];
      }
      LinesAt(pages, e);
      var ls := Lines(pages, c);
      assert ls[1..] == Lines(pages, e);
      forall k | 1 <= k < |c| - 1 ensures ls[k] == FmtTitle(pages[c[k]].0, pages[c[k]].1) {
        assert ls[k] == Lines(pages, e)[k - 1] && c[k] == e[k - 1];
      }
      assert ls[|c| - 1] == Lines(pages, e)[|e| - 1] && c[|c| - 1] == e[|e| - 1];
    }
  }

  /** The printed path has one line per page of the chain, `count` of them: every line
      but the last ends with the arrow of its page, and the last is the target's title. */
  lemma PathShape(pages: Pages, v: Visited, level: map<Id, nat>, x: Id)
    requires Tree(v, level) && x in v
    requires AllListed(pages, Chain(v, level, x))
    ensures |Lines(pages, Chain(v, level, x))| == Count(v, level, x)
    ensures Lines(pages, Chain(v, level, x))[Count(v, level, x) - 1] == Titlecase(pages[x].0)
    ensures forall k :: 0 <= k < Count(v, level, x) - 1 ==>
      (EndsWith(Lines(pages, Chain(v, level, x))[k], RedirectArrow) <==> pages[Chain(v, level, x)[k]].1)
  {
    LinesAt(pages, Chain(v, level, x));
  }
}
