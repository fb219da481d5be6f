// The record scanner of `main` in src/bin/process_data.rs. The dump is read as a
// sequence of lines through one shared iterator, modelled as an index into `lines`.
// A record is a title line ("    <title>...</title>") followed, further on, by a text
// line ("      <text ...>") whose body runs to the first line ending in "</text>".
// Where the program panics (`unwrap` on a missing '>' or on end of input inside a
// body, or a title line too short to cut) the scan ends in `Panicked`.

module CorpusScan {
  import opened Text
  import opened LinkExtraction

  const TitleTag: string := "    <title>"
  const EndTitleTag: string := "</title>"
  const TextTag: string := "      <text"
  const EndTextTag: string := "</text>"

  /** The first line at or after `i` that starts with `tag`; the lines before it are
      consumed without effect. */
  function FindLine(lines: seq<string>, i: nat, tag: string): (r: Option<nat>)
    requires i <= |lines|
    decreases |lines| - i
    ensures r.Some? ==> i <= r.value < |lines| && StartsWith(lines[r.value], tag)
    ensures r.Some? ==> forall x :: i <= x < r.value ==> !StartsWith(lines[x], tag)
    ensures r.None? ==> forall x :: i <= x < |lines| ==> !StartsWith(lines[x], tag)
  {
    if i == |lines| then None
    else if StartsWith(lines[i], tag) then Some(i)
    else FindLine(lines, i + 1, tag)
  }

  /** A title line is long enough to cut both tags' lengths off. */
  predicate TitleLineFits(line: string) {
    |TitleTag| + |EndTitleTag| <= |line|
  }

  /** The title: the line without the length of the opening tag in front and the length
      of the closing tag at the end. The end is cut by length, not by matching. */
  function TitleOf(line: string): (t: string)
    requires TitleLineFits(line)
    ensures |t| == |line| - |TitleTag| - |EndTitleTag|
  {
    line[|TitleTag|..|line| - |EndTitleTag|]
  }

  /** A body as read: its text and the index of the line that closed it. */
  datatype Body = Body(text: string, last: nat)

  /** The body loop from line `x` on, where `line` is what is left of line `x` (the rest
      of the text line after its first '>', or a whole later line). `None` when input
      ends before a line ending in "</text>" (the `unwrap` on the next line panics). */
  function BodyFrom(lines: seq<string>, x: nat, line: string): (r: Option<Body>)
    requires x < |lines|
    decreases |lines| - x
    ensures r.Some? ==> x <= r.value.last < |lines|
  {
    if EndsWith(line, EndTextTag) then Some(Body(line[..|line| - |EndTextTag|], x))
    else if x + 1 == |lines| then None
    else Prefixed(line + "\n", BodyFrom(lines, x + 1, lines[x + 1]))
  }

  /** `p` put in front of a body's text. */
  function Prefixed(p: string, r: Option<Body>): Option<Body> {
    match r
    case None => None
    case Some(b) => Some(Body(p + b.text, b.last))
  }

  lemma PrefixedNothing(r: Option<Body>)
    ensures Prefixed("", r) == r
  {
    if r.Some? {
      assert "" + r.value.text == r.value.text;
    }
  }

  lemma PrefixedTwice(p: string, q: string, r: Option<Body>)
    ensures Prefixed(p, Prefixed(q, r)) == Prefixed(p + q, r)
  {
    if r.Some? {
      assert p + (q + r.value.text) == (p + q) + r.value.text;
    }
  }

  /** `text` without the closing tag it ends with. */
  function CutEnd(line: string): string
    requires EndsWith(line, EndTextTag)
  {
    line[..|line| - |EndTextTag|]
  }

  /** One round of the main loop up to the body: the rest of input ends, the program
      panics, a record with a forbidden title is skipped (its body is not read), or a
      record is read. `next` is where the following round starts. */
  datatype Record = Exhausted | Panicked | Skipped(next: nat) | Read(title: string, body: string, next: nat)

  function NextRecord(lines: seq<string>, i: nat): (r: Record)
    requires i <= |lines|
    ensures (r.Skipped? || r.Read?) ==> i < r.next <= |lines|
  {
    match FindLine(lines, i, TitleTag)
    case None => Exhausted
    case Some(j) =>
      if !TitleLineFits(lines[j]) then Panicked
      else if ContainsForbidden(TitleOf(lines[j])) then Skipped(j + 1)
      else
        match FindLine(lines, j + 1, TextTag)
        case None => Exhausted
        case Some(k) =>
          match FindChar(lines[k], '>')
          case None => Panicked
          case Some(p) =>
            match BodyFrom(lines, k, lines[k][p + 1..])
            case None => Panicked
            case Some(b) => Read(TitleOf(lines[j]), b.text, b.last + 1)
  }

  /** A page as handed to `cache`. */
  datatype Article = Article(title: string, links: seq<string>, isRedirect: bool)

  /** The articles cached from line `i` on, in order, and whether the scan panicked. */
  datatype Run = Run(articles: seq<Article>, panicked: bool)

  /** What one record read in full adds: its article when `get_links_from_body` accepts
      its body, and nothing when it rejects it. */
  function Cached(title: string, body: string): seq<Article> {
    match GetLinksFromBody(body, title)
    case Err(_) => []
    case Ok(x) => [Article(title, x.links, x.isRedirect)]
  }

  /** The whole main loop from line `i`. */
  function Ingest(lines: seq<string>, i: nat): Run
    requires i <= |lines|
    decreases |lines| - i
  {
    match NextRecord(lines, i)
    case Exhausted => Run([], false)
    case Panicked => Run([], true)
    case Skipped(n) => Ingest(lines, n)
    case Read(title, body, n) =>
      var rest := Ingest(lines, n);
      Run(Cached(title, body) + rest.articles, rest.panicked)
  }

  // ---------------------------------------------------------------------------
  // Properties

  /** Cutting the title recovers what was put between the two tags. */
  lemma TitleRoundTrip(t: string)
    ensures TitleLineFits(TitleTag + t + EndTitleTag)
    ensures TitleOf(TitleTag + t + EndTitleTag) == t
  {
    var line := TitleTag + t + EndTitleTag;
    assert line[|TitleTag|..|line| - |EndTitleTag|] == t;
  }

  /** A title line of the usual form ends with the closing tag; then the title is exactly
      what lies between the tags. */
  lemma TitleBetweenTags(line: string)
    requires StartsWith(line, TitleTag) && EndsWith(line, EndTitleTag) && TitleLineFits(line)
    ensures line == TitleTag + TitleOf(line) + EndTitleTag
  {
    assert line == line[..|TitleTag|] + line[|TitleTag|..|line| - |EndTitleTag|] + line[|line| - |EndTitleTag|..];
  }

  /** No piece ends with the closing tag. */
  predicate NoEnd(ps: seq<string>) {
    forall d :: 0 <= d < |ps| ==> !EndsWith(ps[d], EndTextTag)
  }

  /** Piece `d` is the first one ending with the closing tag. */
  predicate FirstEndAt(ps: seq<string>, d: int) {
    0 <= d < |ps| && EndsWith(ps[d], EndTextTag) && NoEnd(ps[..d])
  }

  lemma NoEndCons(p: string, qs: seq<string>)
    requires !EndsWith(p, EndTextTag)
    ensures NoEnd([p] + qs) <==> NoEnd(qs)
  {
    var ps := [p] + qs;
    if NoEnd(qs) {
      forall d | 0 <= d < |ps| ensures !EndsWith(ps[d], EndTextTag) {
        if d > 0 {
          assert ps[d] == qs[d - 1];
        }
      }
    }
    if NoEnd(ps) {
      forall d | 0 <= d < |qs| ensures !EndsWith(qs[d], EndTextTag) {
        assert qs[d] == ps[d + 1];
      }
    }
  }

  lemma FirstEndCons(p: string, qs: seq<string>, d: nat)
    requires !EndsWith(p, EndTextTag) && FirstEndAt(qs, d)
    ensures FirstEndAt([p] + qs, d + 1)
  {
    assert ([p] + qs)[..d + 1] == [p] + qs[..d];
    NoEndCons(p, qs[..d]);
  }

  /** The body: all pieces from the first line on, the last one without its closing tag,
      joined with '\n'. The pieces `ps` are the rest of the text line and the whole lines
      after it; the last piece is the first one ending in "</text>", and with no such
      piece the program panics. */
  lemma {:induction false} BodyIsJoin(lines: seq<string>, k: nat, first: string, ps: seq<string>)
    requires k < |lines| && ps == [first] + lines[k + 1..]
    decreases |lines| - k
    ensures BodyFrom(lines, k, first).None? <==> NoEnd(ps)
    ensures BodyFrom(lines, k, first).Some? ==>
      var b := BodyFrom(lines, k, first).value;
      FirstEndAt(ps, b.last - k) && b.text == Join(ps[..b.last - k] + [CutEnd(ps[b.last - k])], "\n")
  {
    if EndsWith(first, EndTextTag) {
      assert ps[..0] + [CutEnd(ps[0])] == [CutEnd(first)];
      assert NoEnd(ps[..0]);
    } else if k + 1 == |lines| {
      assert ps == [first];
    } else {
      var qs := [lines[k + 1]] + lines[k + 2..];
      assert ps == [first] + qs;
      BodyIsJoin(lines, k + 1, lines[k + 1], qs);
      NoEndCons(first, qs);
      var r := BodyFrom(lines, k + 1, lines[k + 1]);
      if r.Some? {
        var d := r.value.last - (k + 1);
        FirstEndCons(first, qs, d);
        var tail := qs[..d] + [CutEnd(qs[d])];
        assert ps[..d + 1] + [CutEnd(ps[d + 1])] == [first] + tail;
        JoinCons(first, tail, "\n");
      }
    }
  }

  /** A record whose title contains a forbidden pattern anywhere (a substring test, where
      links are tested by prefix) is skipped right after its title line. */
  lemma ForbiddenTitleSkipped(lines: seq<string>, i: nat, j: nat)
    requires i <= |lines|
    requires FindLine(lines, i, TitleTag) == Some(j) && TitleLineFits(lines[j])
    requires ContainsForbidden(TitleOf(lines[j]))
    ensures NextRecord(lines, i) == Skipped(j + 1)
    ensures Ingest(lines, i) == Ingest(lines, j + 1)
  {
  }

  /** A redirect with no closing "]]" is reported and skipped: it adds no article. */
  lemma UnterminatedRedirectSkipped(lines: seq<string>, i: nat)
    requires i <= |lines| && NextRecord(lines, i).Read?
    requires var r := NextRecord(lines, i); IsRedirectBody(r.body) && !Contains(r.body, RedirectClose)
    ensures Ingest(lines, i) == Ingest(lines, NextRecord(lines, i).next)
  {
    assert Cached(NextRecord(lines, i).title, NextRecord(lines, i).body) == [];
  }

  /** Every article cached has a title free of forbidden patterns, links that neither start
      with a forbidden pattern nor hold '#', and at most one link if it is a redirect. */
  lemma {:induction false} IngestClean(lines: seq<string>, i: nat)
    requires i <= |lines|
    decreases |lines| - i
    ensures forall a :: a in Ingest(lines, i).articles ==>
      !ContainsForbidden(a.title)
      && (forall l :: l in a.links ==> !HasForbiddenPrefix(l) && '#' !in l)
      && (a.isRedirect ==> |a.links| <= 1)
  {
    match NextRecord(lines, i)
    case Exhausted =>
    case Panicked =>
    case Skipped(n) => IngestClean(lines, n);
    case Read(title, body, n) =>
      IngestClean(lines, n);
      if GetLinksFromBody(body, title).Ok? {
        ExtractedClean(body, title);
      }
  }

  // ---------------------------------------------------------------------------
  // The loops

  /** The search loop for a tag line: lines that do not start with it are skipped. */
  method SeekLine(lines: seq<string>, i: nat, tag: string) returns (r: Option<nat>)
    requires i <= |lines|
    ensures r == FindLine(lines, i, tag)
  {
    var x := i;
    while x < |lines| && !StartsWith(lines[x], tag)
      invariant i <= x <= |lines|
      invariant FindLine(lines, x, tag) == FindLine(lines, i, tag)
      decreases |lines| - x
    {
      x := x + 1;
    }
    r := if x < |lines| then Some(x) else None;
  }

  /** The body loop: the closing tag is cut off the line that ends with it, and every
      earlier line is followed by '\n'. `None` where the next `unwrap` would panic. */
  method ReadBody(lines: seq<string>, k: nat, first: string) returns (r: Option<Body>)
    requires k < |lines|
    ensures r == BodyFrom(lines, k, first)
  {
    var body := "";
    var x := k;
    var line := first;
    PrefixedNothing(BodyFrom(lines, k, first));
    while true
      invariant k <= x < |lines|
      invariant BodyFrom(lines, k, first) == Prefixed(body, BodyFrom(lines, x, line))
      decreases |lines| - x
    {
      ghost var acc := body;
      var end := false;
      var piece := line;
      if EndsWith(line, EndTextTag) {
        end := true;
        piece := line[..|line| - |EndTextTag|];
      }
      body := body + piece;
      if end {
        return Some(Body(body, x));
      }
      body := body + "\n";
      if x + 1 == |lines| {
        return None;
      }
      PrefixedTwice(acc, line + "\n", BodyFrom(lines, x + 1, lines[x + 1]));
      assert body == acc + (line + "\n");
      x := x + 1;
      line := lines[x];
    }
  }

  /** One round of the main loop up to the body. */
  method ReadRecord(lines: seq<string>, i: nat) returns (r: Record)
    requires i <= |lines|
    ensures r == NextRecord(lines, i)
  {
    var j := SeekLine(lines, i, TitleTag);
    if j.None? {
      return Exhausted;
    }
    var line := lines[j.value];
    if !TitleLineFits(line) {
      return Panicked;
    }
    var title := line[|TitleTag|..|line| - |EndTitleTag|];
    if ContainsForbidden(title) {
      return Skipped(j.value + 1);
    }
    var k := SeekLine(lines, j.value + 1, TextTag);
    if k.None? {
      return Exhausted;
    }
    var textLine := lines[k.value];
    var start := FindChar(textLine, '>');
    if start.None? {
      return Panicked;
    }
    var body := ReadBody(lines, k.value, textLine[start.value + 1..]);
    if body.None? {
      return Panicked;
    }
    return Read(title, body.value.text, body.value.last + 1);
  }
}
