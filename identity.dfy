// Title identity shared by ingestion (src/bin/process_data.rs, DB::cache) and the
// pathfinders (Page::from_title in src/main.rs and src/bin/find_average.rs): an id
// is a 64-bit hash of the ASCII-lowercased title. The hash itself (DefaultHasher
// followed by a bit reinterpretation as i64) is a parameter, so two titles may
// still collide; only the lowercasing is fixed.

module TitleIdentity {

  /** A signed 64-bit id, as stored in the `pages.id` and `links` columns. */
  type Id = x: int | -0x8000_0000_0000_0000 <= x < 0x8000_0000_0000_0000

  /** The hash applied to an already lowercased title. */
  type Hasher = string -> Id

  /** `char::to_ascii_lowercase`. */
  function AsciiLower(c: char): (r: char)
    ensures 'A' <= c <= 'Z' ==> r as int == c as int + 32
    ensures !('A' <= c <= 'Z') ==> r == c
  {
    if 'A' <= c <= 'Z' then (c as int + 32) as char else c
  }

  /** `str::to_ascii_lowercase` (and `String::make_ascii_lowercase`). */
  function Lower(s: string): (r: string)
    ensures |r| == |s|
    ensures forall i :: 0 <= i < |s| ==> r[i] == AsciiLower(s[i])
  {
    seq(|s|, i requires 0 <= i < |s| => AsciiLower(s[i]))
  }

  /** Two titles that differ at most in the case of ASCII letters. */
  predicate SameUpToAsciiCase(a: string, b: string) {
    |a| == |b| && forall i :: 0 <= i < |a| ==> AsciiLower(a[i]) == AsciiLower(b[i])
  }

  /** The id of a title. */
  function TitleId(hash: Hasher, title: string): Id {
    hash(Lower(title))
  }

  /** `Page` of the pathfinders: an id and whether it was reached through a redirect. */
  datatype Page = Page(id: Id, fromRedirect: bool)

  /** `Page::from_title` (src/main.rs, src/bin/find_average.rs). */
  function FromTitle(hash: Hasher, title: string, fromRedirect: bool): (p: Page)
    ensures p.id == TitleId(hash, title) && p.fromRedirect == fromRedirect
  {
    Page(hash(Lower(title)), fromRedirect)
  }

  lemma {:induction false} LowerIdempotent(s: string)
    ensures Lower(Lower(s)) == Lower(s)
  {
    assert forall i :: 0 <= i < |s| ==> AsciiLower(AsciiLower(s[i])) == AsciiLower(s[i]);
  }

  /** Lowercasing identifies exactly the titles that differ only in ASCII case. */
  lemma {:induction false} LowerEqualIff(a: string, b: string)
    ensures Lower(a) == Lower(b) <==> SameUpToAsciiCase(a, b)
  {
    if SameUpToAsciiCase(a, b) {
      assert forall i :: 0 <= i < |a| ==> Lower(a)[i] == Lower(b)[i];
    }
    if Lower(a) == Lower(b) {
      assert forall i :: 0 <= i < |a| ==> Lower(a)[i] == Lower(b)[i];
    }
  }

  /** Titles that differ only in ASCII case get the same id, whatever the hash.
      Ingestion and the pathfinders both use `TitleId`, so a title typed in any
      case reaches the node that ingestion created for it. */
  lemma CaseInsensitive(hash: Hasher, a: string, b: string)
    requires SameUpToAsciiCase(a, b)
    ensures TitleId(hash, a) == TitleId(hash, b)
    ensures FromTitle(hash, a, false) == FromTitle(hash, b, false)
  {
    LowerEqualIff(a, b);
  }

  /** The id depends on the title only through its lowercase form: a lowercased title has
      the same id as the original. */
  lemma IdOfLowered(hash: Hasher, title: string)
    ensures TitleId(hash, Lower(title)) == TitleId(hash, title)
  {
    LowerIdempotent(title);
  }
}
