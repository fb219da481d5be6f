// `get_links_from_body` of src/bin/process_data.rs and its constants: redirect
// detection, the namespace filter, truncation at "See also"/"References" and the
// extraction of `[[...]]` links in document order.

module LinkExtraction {
  import opened Text

  const RedirectText: string := "#REDIRECT [["

  /** Namespace prefixes whose titles and links are excluded. "File:" is listed twice,
      as in the program; the duplicate changes nothing. */
  const ForbiddenPatterns: seq<string> := [
    "Wikipedia:", "Category:", "File:", "Special:", "Template:",
    "Template_talk:", "User:", "WP:", "Help:", "File:"
  ]

  const SeeAlso: string := "==See also=="
  const References: string := "==References=="
  const LinkOpen: string := "[["
  const RedirectClose: string := "]]"

  /** Some pattern of `patterns` is a prefix of `s` (the `for pattern in FORBIDDEN_PATTERNS`
      loops of the link and redirect filters). */
  predicate PrefixIn(s: string, patterns: seq<string>) {
    |patterns| > 0 && (StartsWith(s, patterns[0]) || PrefixIn(s, patterns[1..]))
  }

  /** Some pattern of `patterns` occurs in `s` (the loop of the title filter). */
  predicate OccursIn(s: string, patterns: seq<string>) {
    |patterns| > 0 && (Contains(s, patterns[0]) || OccursIn(s, patterns[1..]))
  }

  /** The prefix test applied to links and redirect targets. */
  predicate HasForbiddenPrefix(s: string) {
    PrefixIn(s, ForbiddenPatterns)
  }

  /** The substring test applied to record titles (a different, stricter test). */
  predicate ContainsForbidden(s: string) {
    OccursIn(s, ForbiddenPatterns)
  }

  lemma {:induction false} PrefixInIff(s: string, patterns: seq<string>)
    ensures PrefixIn(s, patterns) <==> exists i :: 0 <= i < |patterns| && StartsWith(s, patterns[i])
  {
    if |patterns| > 0 {
      PrefixInIff(s, patterns[1..]);
      if PrefixIn(s, patterns[1..]) {
        var i :| 0 <= i < |patterns[1..]| && StartsWith(s, patterns[1..][i]);
        assert StartsWith(s, patterns[i + 1]);
      }
      if exists i :: 0 <= i < |patterns| && StartsWith(s, patterns[i]) {
        var i :| 0 <= i < |patterns| && StartsWith(s, patterns[i]);
        if i > 0 {
          assert StartsWith(s, patterns[1..][i - 1]);
        }
      }
    }
  }

  /** A body is taken as a redirect when it starts with the marker and is strictly longer. */
  predicate IsRedirectBody(body: string) {
    |body| > |RedirectText| && StartsWith(body, RedirectText)
  }

  datatype Extracted = Extracted(links: seq<string>, isRedirect: bool)

  /** `Result<(Vec<String>, bool), String>`. */
  datatype Parsed = Ok(value: Extracted) | Err(message: string)

  function RedirectError(title: string): string {
    "Getting redirect link from '" + title + "' failed"
  }

  lemma StartsWithOfPrefix(s: string, n: nat, p: string)
    requires n <= |s|
    requires StartsWith(s[..n], p)
    ensures StartsWith(s, p)
  {
    assert s[..n][..|p|] == s[..|p|];
  }

  lemma ForbiddenOfPrefix(s: string, n: nat)
    requires n <= |s|
    requires HasForbiddenPrefix(s[..n])
    ensures HasForbiddenPrefix(s)
  {
    PrefixInIff(s[..n], ForbiddenPatterns);
    PrefixInIff(s, ForbiddenPatterns);
    var i :| 0 <= i < |ForbiddenPatterns| && StartsWith(s[..n], ForbiddenPatterns[i]);
    StartsWithOfPrefix(s, n, ForbiddenPatterns[i]);
  }

  /** The redirect target: the text between the marker and the first "]]", trimmed,
      cut before its first '#', and trimmed again. */
  function RedirectTarget(body: string, end: nat): string
    requires |RedirectText| <= end <= |body|
  {
    Trim(BeforeChar(Trim(body[|RedirectText|..end]), '#'))
  }

  lemma MarkerHasNoClose(body: string, e: nat)
    requires StartsWith(body, RedirectText)
    requires OccursAt(body, RedirectClose, e)
    ensures |RedirectText| <= e
  {
    assert body[e] == ']';
    assert forall k :: 0 <= k < |RedirectText| ==> body[k] == RedirectText[k] && RedirectText[k] != ']';
  }

  /** Where the link scan of a non-redirect body stops: at the first "See also" header,
      else at the first "References" header, else at the end of the body. */
  function ScanLimit(body: string): (n: nat)
    ensures n <= |body|
    ensures Contains(body, SeeAlso) ==>
      (OccursAt(body, SeeAlso, n) && forall j :: 0 <= j < n ==> !OccursAt(body, SeeAlso, j))
    ensures !Contains(body, SeeAlso) && Contains(body, References) ==>
      (OccursAt(body, References, n) && forall j :: 0 <= j < n ==> !OccursAt(body, References, j))
    ensures !Contains(body, SeeAlso) && !Contains(body, References) ==> n == |body|
  {
    match Find(body, SeeAlso)
    case Some(i) => i
    case None =>
      match Find(body, References)
      case Some(i) => i
      case None => |body|
  }

  /** "[[" opens at position `j` of `b`. */
  predicate OpenAt(b: string, j: nat) {
    j + 1 < |b| && b[j] == '[' && b[j + 1] == '['
  }

  lemma OpenAtIsOccurrence(b: string, j: nat)
    ensures OpenAt(b, j) <==> OccursAt(b, LinkOpen, j)
  {
    if OccursAt(b, LinkOpen, j) {
      assert b[j..j + 2][0] == b[j] && b[j..j + 2][1] == b[j + 1];
    }
    if OpenAt(b, j) {
      assert b[j..j + 2] == LinkOpen;
    }
  }

  /** The next match of `match_indices("[[")` when the search resumes at `from`. */
  function NextOpen(b: string, from: nat): (r: Option<nat>)
    requires from <= |b|
    decreases |b| - from
    ensures r.Some? ==> from <= r.value && OpenAt(b, r.value)
    ensures r.Some? ==> forall j :: from <= j < r.value ==> !OpenAt(b, j)
    ensures r.None? ==> forall j :: from <= j ==> !OpenAt(b, j)
  {
    if from + 1 >= |b| then None
    else if b[from] == '[' && b[from + 1] == '[' then Some(from)
    else NextOpen(b, from + 1)
  }

  /** The search for "[[" is the general substring search. */
  lemma {:induction false} NextOpenIsFind(b: string, from: nat)
    requires from <= |b|
    decreases |b| - from
    ensures NextOpen(b, from) == FindFrom(b, LinkOpen, from)
  {
    OpenAtIsOccurrence(b, from);
    if from + 1 < |b| && !OpenAt(b, from) {
      NextOpenIsFind(b, from + 1);
    }
  }

  /** A character that ends the text of a candidate link. */
  predicate IsLinkEnd(c: char) {
    c == '|' || c == ']'
  }

  /** The first position at or after `i` of `s` that holds '|' or ']'. */
  function LinkEndFrom(s: string, i: nat): (r: Option<nat>)
    requires i <= |s|
    decreases |s| - i
    ensures r.Some? ==> i <= r.value < |s| && IsLinkEnd(s[r.value])
    ensures r.Some? ==> forall k :: i <= k < r.value ==> !IsLinkEnd(s[k])
    ensures r.None? ==> forall k :: i <= k < |s| ==> !IsLinkEnd(s[k])
  {
    if i == |s| then None
    else if IsLinkEnd(s[i]) then Some(i)
    else LinkEndFrom(s, i + 1)
  }

  /** Where a candidate link ends after its "[[": at the first '|' or ']'. */
  function LinkEnd(after: string): Option<nat> {
    LinkEndFrom(after, 0)
  }

  /** The program's own formulation: the earlier of the first '|' and the first ']'. */
  function LinkEndByMin(after: string): Option<nat> {
    match (FindChar(after, '|'), FindChar(after, ']'))
    case (Some(a), Some(b)) => Some(if a <= b then a else b)
    case (Some(a), None) => Some(a)
    case (None, Some(b)) => Some(b)
    case (None, None) => None
  }

  /** The first '|' or ']' is the earlier of the first '|' and the first ']'. */
  lemma LinkEndAgrees(after: string)
    ensures LinkEndByMin(after) == LinkEnd(after)
  {
    var bar, close := FindChar(after, '|'), FindChar(after, ']');
    var r := LinkEnd(after);
    if r.Some? {
      assert bar.Some? || close.Some?;
      if bar.Some? && bar.value > r.value {
        assert after[..bar.value][r.value] == after[r.value];
      }
      if close.Some? && close.value > r.value {
        assert after[..close.value][r.value] == after[r.value];
      }
    }
  }

  /** The "[[" at `p` has a terminating '|' or ']' somewhere after it. */
  predicate Terminated(b: string, p: nat)
    requires p + |LinkOpen| <= |b|
  {
    LinkEnd(b[p + |LinkOpen|..]).Some?
  }

  /** The trimmed text of the candidate link opened at `p`. */
  function RawLinkAt(b: string, p: nat): string
    requires p + |LinkOpen| <= |b| && Terminated(b, p)
  {
    var after := b[p + |LinkOpen|..];
    Trim(after[..LinkEnd(after).value])
  }

  /** The two filters applied to a candidate: a forbidden namespace prefix or a leading '#'
      drops it; otherwise it is cut before its first '#' (without trimming again). */
  function Emit(raw: string): (r: Option<string>)
    ensures r.Some? <==> !HasForbiddenPrefix(raw) && !StartsWith(raw, "#")
    ensures r.Some? ==> r.value == BeforeChar(raw, '#')
    ensures r.Some? ==> !HasForbiddenPrefix(r.value) && '#' !in r.value
  {
    if HasForbiddenPrefix(raw) then None
    else match FindChar(raw, '#')
      case Some(0) => None
      case Some(q) =>
        assert !HasForbiddenPrefix(raw[..q]) by {
          if HasForbiddenPrefix(raw[..q]) { ForbiddenOfPrefix(raw, q); }
        }
        Some(raw[..q])
      case None => Some(raw)
  }

  /** What the loop body does with the "[[" found at `p`. */
  datatype Step = Stop | Skip | Take(link: string)

  /** The body of the link loop for the match at `p`: break out of the whole scan when no
      '|' or ']' follows, `continue` when the candidate is filtered out, push it otherwise. */
  function StepAt(b: string, p: nat): Step {
    if p + |LinkOpen| > |b| || !Terminated(b, p) then Stop
    else match Emit(RawLinkAt(b, p))
      case None => Skip
      case Some(l) => Take(l)
  }

  /** The labelled `for` loop over `body.match_indices("[[")` from the search position
      `from` on, with `step` as its body. Matches do not overlap: after a match at `p` the
      search resumes at `p + 2`, whatever the link text was. */
  function Scan(b: string, from: nat, step: (string, nat) -> Step): seq<string>
    requires from <= |b|
    decreases |b| - from
  {
    match NextOpen(b, from)
    case None => []
    case Some(p) =>
      match step(b, p)
      case Stop => []
      case Skip => Scan(b, p + |LinkOpen|, step)
      case Take(l) => [l] + Scan(b, p + |LinkOpen|, step)
  }

  /** The links of the (already cut) body `b`, from the search position `from` on. */
  function LinksFrom(b: string, from: nat): seq<string>
    requires from <= |b|
  {
    Scan(b, from, StepAt)
  }

  /** `get_links_from_body`. */
  function GetLinksFromBody(body: string, title: string): (r: Parsed)
    ensures r.Ok? <==> !IsRedirectBody(body) || Contains(body, RedirectClose)
    ensures r.Err? ==> r.message == RedirectError(title)
    ensures r.Ok? ==> (r.value.isRedirect <==> IsRedirectBody(body))
    ensures r.Ok? && r.value.isRedirect ==> |r.value.links| <= 1
  {
    if IsRedirectBody(body) then
      match Find(body, RedirectClose)
      case None => Err(RedirectError(title))
      case Some(e) =>
        MarkerHasNoClose(body, e);
        var target := RedirectTarget(body, e);
        if HasForbiddenPrefix(target) then Ok(Extracted([], true))
        else Ok(Extracted([target], true))
    else
      Ok(Extracted(LinksFrom(body[..ScanLimit(body)], 0), false))
  }

  // ---------------------------------------------------------------------------
  // Redirects

  /** A redirect with a closing "]]" yields zero links exactly when its target starts with a
      forbidden prefix, and otherwise exactly that target, which may be empty; the target
      is taken from between the marker and the first "]]". */
  lemma RedirectLink(body: string, title: string) returns (e: nat)
    requires IsRedirectBody(body) && Contains(body, RedirectClose)
    ensures Find(body, RedirectClose) == Some(e) && |RedirectText| <= e
    ensures var target := RedirectTarget(body, e);
      GetLinksFromBody(body, title) ==
        Ok(Extracted(if HasForbiddenPrefix(target) then [] else [target], true))
  {
    e := Find(body, RedirectClose).value;
    MarkerHasNoClose(body, e);
  }

  /** Trimming a piece without '#' leaves a piece without '#' that neither starts nor
      ends with white space. */
  lemma TrimmedClean(cut: string)
    requires '#' !in cut
    ensures var t := Trim(cut);
      '#' !in t && (t == [] || (!IsWhitespace(t[0]) && !IsWhitespace(t[|t| - 1])))
  {
    TrimKeepsOut(cut, '#');
    var i2, j2 := TrimIsMiddle(cut);
  }

  /** The redirect target holds no '#' and neither starts nor ends with white space. */
  lemma RedirectTargetClean(body: string, e: nat)
    requires |RedirectText| <= e <= |body|
    ensures var target := RedirectTarget(body, e);
      '#' !in target && (target == [] || (!IsWhitespace(target[0]) && !IsWhitespace(target[|target| - 1])))
  {
    TrimmedClean(BeforeChar(Trim(body[|RedirectText|..e]), '#'));
  }

  /** A redirect without "]]" is a per-record error. */
  lemma UnterminatedRedirect(body: string, title: string)
    requires IsRedirectBody(body) && !Contains(body, RedirectClose)
    ensures GetLinksFromBody(body, title) == Err(RedirectError(title))
  {
  }

  // ---------------------------------------------------------------------------
  // Non-redirect bodies: where the links come from

  /** The greedy, non-overlapping "[[" matches of `b` from `from` on (`match_indices`). */
  function Matches(b: string, from: nat): (ms: seq<nat>)
    requires from <= |b|
    decreases |b| - from
    ensures forall k :: 0 <= k < |ms| ==> from <= ms[k] && OpenAt(b, ms[k])
  {
    match NextOpen(b, from)
    case None => []
    case Some(p) => [p] + Matches(b, p + |LinkOpen|)
  }

  /** The match positions at which `step` takes a link, in the order the links are emitted. */
  ghost function Positions(b: string, from: nat, step: (string, nat) -> Step): (ps: seq<nat>)
    requires from <= |b|
    decreases |b| - from
    ensures forall k :: 0 <= k < |ps| ==> from <= ps[k] && OpenAt(b, ps[k])
  {
    match NextOpen(b, from)
    case None => []
    case Some(p) =>
      match step(b, p)
      case Stop => []
      case Skip => Positions(b, p + |LinkOpen|, step)
      case Take(_) => [p] + Positions(b, p + |LinkOpen|, step)
  }

  /** The positions whose candidates become links. */
  ghost function LinkPositions(b: string, from: nat): seq<nat>
    requires from <= |b|
  {
    Positions(b, from, StepAt)
  }

  /** The matches, characterised without recursion: a position holds a match exactly when
      "[[" occurs there and the position just before does not hold one. */
  lemma {:induction false} MatchesGreedy(b: string, from: nat, q: nat)
    requires from <= |b| && from <= q
    ensures q in Matches(b, from) <==>
      OpenAt(b, q) && (q == from || q - 1 !in Matches(b, from))
    decreases |b| - from
  {
    match NextOpen(b, from)
    case None =>
    case Some(p) =>
      assert Matches(b, from) == [p] + Matches(b, p + 2);
      if q >= p + 2 {
        MatchesGreedy(b, p + 2, q);
      }
  }

  /** `ls` and `ps` pair up: each link is what `step` takes at its position. */
  predicate Aligned(b: string, ls: seq<string>, ps: seq<nat>, step: (string, nat) -> Step)
    decreases |ps|
  {
    |ls| == |ps|
    && (|ps| > 0 ==> step(b, ps[0]) == Take(ls[0]) && Aligned(b, ls[1..], ps[1..], step))
  }

  lemma {:induction false} AlignedAt(b: string, ls: seq<string>, ps: seq<nat>,
                                     step: (string, nat) -> Step, k: nat)
    requires Aligned(b, ls, ps, step) && k < |ps|
    ensures step(b, ps[k]) == Take(ls[k])
    decreases k
  {
    if k > 0 {
      AlignedAt(b, ls[1..], ps[1..], step, k - 1);
    }
  }

  lemma {:induction false} ScanAligned(b: string, from: nat, step: (string, nat) -> Step)
    requires from <= |b|
    decreases |b| - from
    ensures Aligned(b, Scan(b, from, step), Positions(b, from, step), step)
  {
    match NextOpen(b, from)
    case None =>
    case Some(p) =>
      ScanAligned(b, p + 2, step);
      var ls, ps := Scan(b, p + 2, step), Positions(b, p + 2, step);
      match step(b, p)
      case Stop =>
      case Skip =>
      case Take(l) =>
        assert ([l] + ls)[1..] == ls && ([p] + ps)[1..] == ps;
  }

  /** The candidate taken at a position is the trimmed text after its "[[" up to the
      first '|' or ']', once it passes the filters. */
  lemma TakeIsCandidate(b: string, p: nat, l: string)
    requires p + |LinkOpen| <= |b|
    ensures StepAt(b, p) == Take(l) <==> Terminated(b, p) && Emit(RawLinkAt(b, p)) == Some(l)
  {
  }

  /** The links, position by position: the `k`-th link is the filtered candidate opened at
      the `k`-th emitting position. */
  lemma LinksByPosition(b: string, from: nat, k: nat)
    requires from <= |b| && k < |LinkPositions(b, from)|
    ensures |LinksFrom(b, from)| == |LinkPositions(b, from)|
    ensures var p := LinkPositions(b, from)[k];
      p + |LinkOpen| <= |b| && Terminated(b, p) && Emit(RawLinkAt(b, p)) == Some(LinksFrom(b, from)[k])
  {
    ScanAligned(b, from, StepAt);
    var p := LinkPositions(b, from)[k];
    AlignedAt(b, LinksFrom(b, from), LinkPositions(b, from), StepAt, k);
    TakeIsCandidate(b, p, LinksFrom(b, from)[k]);
  }

  lemma {:induction false} PositionsIncrease(b: string, from: nat, step: (string, nat) -> Step)
    requires from <= |b|
    decreases |b| - from
    ensures forall k, m :: 0 <= k < m < |Positions(b, from, step)| ==>
      Positions(b, from, step)[k] < Positions(b, from, step)[m]
  {
    match NextOpen(b, from)
    case None =>
    case Some(p) =>
      var ps := Positions(b, p + 2, step);
      match step(b, p)
      case Stop =>
      case Skip =>
        PositionsIncrease(b, p + 2, step);
      case Take(_) =>
        PositionsIncrease(b, p + 2, step);
        var qs := [p] + ps;
        forall k, m | 0 <= k < m < |qs| ensures qs[k] < qs[m] {
          assert qs[m] == ps[m - 1];
          if k > 0 {
            assert qs[k] == ps[k - 1];
          }
        }
  }

  /** Emitting positions increase, so links come in document order; repeated links are all
      kept. */
  lemma LinksInOrder(b: string, from: nat)
    requires from <= |b|
    ensures forall k, m :: 0 <= k < m < |LinkPositions(b, from)| ==>
      LinkPositions(b, from)[k] < LinkPositions(b, from)[m]
  {
    PositionsIncrease(b, from, StepAt);
  }

  /** Once `step` stops at a position it stops at every later one. */
  ghost predicate StopPersists(b: string, step: (string, nat) -> Step) {
    forall p: nat, q: nat :: p <= q && step(b, p).Stop? ==> step(b, q).Stop?
  }

  lemma {:induction false} PositionsExactly(b: string, from: nat, step: (string, nat) -> Step, q: nat)
    requires from <= |b| && StopPersists(b, step)
    decreases |b| - from
    ensures q in Positions(b, from, step) <==> q in Matches(b, from) && step(b, q).Take?
  {
    match NextOpen(b, from)
    case None =>
    case Some(p) =>
      assert Matches(b, from) == [p] + Matches(b, p + 2);
      if !step(b, p).Stop? {
        PositionsExactly(b, p + 2, step, q);
      }
  }

  /** A "[[" without a later '|' or ']' leaves every later "[[" unterminated too. */
  lemma UnterminatedLater(b: string, p: nat, q: nat)
    requires p <= q && q + |LinkOpen| <= |b|
    requires !Terminated(b, p)
    ensures !Terminated(b, q)
  {
    var a, c := b[p + 2..], b[q + 2..];
    assert forall k :: 0 <= k < |c| ==> c[k] == a[q - p + k];
  }

  lemma StepAtStopPersists(b: string)
    ensures StopPersists(b, StepAt)
  {
    forall p: nat, q: nat | p <= q && StepAt(b, p).Stop? ensures StepAt(b, q).Stop? {
      if q + 2 <= |b| {
        UnterminatedLater(b, p, q);
      }
    }
  }

  /** A position emits a link exactly when it is a match whose candidate is terminated and
      survives the filters. */
  lemma LinkPositionsExactly(b: string, from: nat, q: nat)
    requires from <= |b|
    ensures q in LinkPositions(b, from) <==>
      q in Matches(b, from) && Terminated(b, q) && Emit(RawLinkAt(b, q)).Some?
  {
    StepAtStopPersists(b);
    PositionsExactly(b, from, StepAt, q);
  }

  /** A link is clean when it avoids the forbidden prefixes, holds no '#', '|' or ']' and
      does not start with white space. */
  predicate CleanLink(l: string) {
    !HasForbiddenPrefix(l) && '#' !in l && '|' !in l && ']' !in l
    && (l == [] || !IsWhitespace(l[0]))
  }

  /** The candidate taken at one match is clean. */
  lemma CandidateClean(b: string, p: nat)
    ensures StepAt(b, p).Take? ==> CleanLink(StepAt(b, p).link)
  {
    if StepAt(b, p).Take? {
      var after := b[p + 2..];
      var e := LinkEnd(after).value;
      var raw := Trim(after[..e]);
      assert raw == RawLinkAt(b, p);
      assert forall k :: 0 <= k < e ==> after[..e][k] == after[k];
      TrimKeepsOut(after[..e], '|');
      TrimKeepsOut(after[..e], ']');
      var i, j := TrimIsMiddle(after[..e]);
      var l := Emit(raw).value;
      assert l == raw[..|l|];
      if l != [] {
        assert l[0] == raw[0];
      }
    }
  }

  lemma {:induction false} ScanClean(b: string, from: nat, step: (string, nat) -> Step)
    requires from <= |b|
    requires forall p :: step(b, p).Take? ==> CleanLink(step(b, p).link)
    decreases |b| - from
    ensures forall l :: l in Scan(b, from, step) ==> CleanLink(l)
  {
    match NextOpen(b, from)
    case None =>
    case Some(p) =>
      if !step(b, p).Stop? {
        ScanClean(b, p + 2, step);
      }
  }

  /** Every extracted link is clean. A link may end with white space, when a '#' cut
      follows a space. */
  lemma LinksClean(b: string, from: nat)
    requires from <= |b|
    ensures forall l :: l in LinksFrom(b, from) ==> CleanLink(l)
  {
    forall p | StepAt(b, p).Take? ensures CleanLink(StepAt(b, p).link) {
      CandidateClean(b, p);
    }
    ScanClean(b, from, StepAt);
  }

  /** Whatever a record yields, redirect or not, no link starts with a forbidden prefix
      and none holds '#'. */
  lemma ExtractedClean(body: string, title: string)
    requires GetLinksFromBody(body, title).Ok?
    ensures forall l :: l in GetLinksFromBody(body, title).value.links ==>
      !HasForbiddenPrefix(l) && '#' !in l
  {
    if IsRedirectBody(body) {
      var e := RedirectLink(body, title);
      RedirectTargetClean(body, e);
    } else {
      var n := ScanLimit(body);
      LinksClean(body[..n], 0);
    }
  }

  /** No "[[" at all: no links. */
  lemma NoOpenNoLinks(b: string, from: nat)
    requires from <= |b|
    requires forall j :: from <= j ==> !OpenAt(b, j)
    ensures LinksFrom(b, from) == []
  {
  }

  /** Extraction stops at the first "[[" that has no later '|' or ']'. */
  lemma StopsAtUnterminated(b: string, from: nat, p: nat)
    requires from <= p && p + |LinkOpen| <= |b|
    requires NextOpen(b, from) == Some(p) && !Terminated(b, p)
    ensures LinksFrom(b, from) == []
  {
  }

  // ---------------------------------------------------------------------------
  // Non-redirect bodies: the section cut

  /** Links of a non-redirect body are sought only before the first "See also" header when
      there is one, even if a "References" header comes earlier; otherwise only before the
      first "References" header; otherwise in the whole body. */
  lemma SectionCut(body: string, title: string)
    requires !IsRedirectBody(body)
    ensures var n := ScanLimit(body);
      GetLinksFromBody(body, title) == Ok(Extracted(LinksFrom(body[..n], 0), false))
      && (Contains(body, SeeAlso) ==> OccursAt(body, SeeAlso, n) && !Contains(body[..n], SeeAlso))
      && (!Contains(body, SeeAlso) && Contains(body, References) ==>
            OccursAt(body, References, n) && !Contains(body[..n], References))
      && (!Contains(body, SeeAlso) && !Contains(body, References) ==> n == |body|)
  {
    var n := ScanLimit(body);
    if Contains(body, SeeAlso) {
      NoEarlierOccurrence(body, SeeAlso, n);
    } else if Contains(body, References) {
      NoEarlierOccurrence(body, References, n);
    }
  }

  lemma NoEarlierOccurrence(s: string, p: string, n: nat)
    requires n <= |s| && |p| > 0
    requires forall j :: 0 <= j < n ==> !OccursAt(s, p, j)
    ensures !Contains(s[..n], p)
  {
    forall j | 0 <= j && j + |p| <= n ensures !OccursAt(s[..n], p, j) {
      OccursInPrefix(s, p, j, n);
    }
  }
}
