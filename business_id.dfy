/** `parse_id`: the business identifier is read from the first `/biz/<id>?` found in the
    page's link targets. */
module BusinessId {
  import opened Wrappers
  import opened Failures

  /** The character class `[a-zA-Z0-9-]`. */
  predicate IsIdChar(c: char) {
    'a' <= c <= 'z' || 'A' <= c <= 'Z' || '0' <= c <= '9' || c == '-'
  }

  const Prefix: string := "/biz/"

  /** A string that the pattern `/biz/[a-zA-Z0-9-]*\?` matches in full. */
  predicate IsOccurrence(o: string) {
    && |o| >= 6
    && o[..5] == Prefix
    && o[|o| - 1] == '?'
    && forall i :: 5 <= i < |o| - 1 ==> IsIdChar(o[i])
  }

  /** Where the run of `[a-zA-Z0-9-]` characters of `s` that starts at `k` ends. */
  function IdRunEnd(s: string, k: nat): (e: nat)
    requires k <= |s|
    ensures k <= e <= |s|
    ensures forall i :: k <= i < e ==> IsIdChar(s[i])
    ensures e == |s| || !IsIdChar(s[e])
    decreases |s| - k
  {
    if k < |s| && IsIdChar(s[k]) then IdRunEnd(s, k + 1) else k
  }

  /** The end of the pattern's match at position `i` of `s`, if it matches there. The
      greedy `*` takes the whole run of id characters; giving some back cannot help,
      since `?` is not an id character. */
  function MatchAt(s: string, i: nat): (m: Option<nat>)
    requires i <= |s|
    ensures m.Some? ==> i + 6 <= m.value <= |s| && IsOccurrence(s[i..m.value])
  {
    if i + 5 <= |s| && s[i..i + 5] == Prefix then
      var e := IdRunEnd(s, i + 5);
      if e < |s| && s[e] == '?' then Some(e + 1) else None
    else None
  }

  /** The pattern matches at `i` wherever an occurrence starts at `i`, and it matches
      exactly that occurrence. */
  lemma MatchAtFinds(s: string, i: nat, j: nat)
    requires i <= j <= |s| && IsOccurrence(s[i..j])
    ensures MatchAt(s, i) == Some(j)
  {
    var o := s[i..j];
    assert s[i..i + 5] == o[..5];
    assert forall k :: i + 5 <= k < j - 1 ==> s[k] == o[k - i] && IsIdChar(s[k]);
    assert s[j - 1] == o[|o| - 1] == '?';
    assert IdRunEnd(s, i + 5) == j - 1;
  }

  /** No occurrence lies anywhere in `s` at or after position `i`. */
  predicate NoOccurrenceFrom(s: string, i: nat)
    requires i <= |s|
  {
    forall a, b :: i <= a <= b <= |s| ==> !IsOccurrence(s[a..b])
  }

  /** `re.findall` of the pattern on `s` from position `i`: the matches, left to right,
      each search resuming where the previous match ended. */
  function FindAll(s: string, i: nat): (os: seq<string>)
    requires i <= |s|
    ensures forall k :: 0 <= k < |os| ==> IsOccurrence(os[k])
    decreases |s| - i
  {
    if i == |s| then []
    else
      match MatchAt(s, i)
      case Some(e) => [s[i..e]] + FindAll(s, e)
      case None => FindAll(s, i + 1)
  }

  /** An occurrence at or after `i` is never missed by `findall`. */
  lemma {:induction false} FindAllFinds(s: string, i: nat, a: nat, b: nat)
    requires i <= a <= b <= |s| && IsOccurrence(s[a..b])
    ensures FindAll(s, i) != []
    decreases |s| - i
  {
    if a == i {
      MatchAtFinds(s, i, b);
    } else if MatchAt(s, i).None? {
      FindAllFinds(s, i + 1, a, b);
    }
  }

  /** Whatever `findall` returns is there to be found. */
  lemma {:induction false} FindAllSound(s: string, i: nat)
    requires i <= |s| && FindAll(s, i) != []
    ensures !NoOccurrenceFrom(s, i)
    decreases |s| - i
  {
    match MatchAt(s, i) {
      case Some(e) =>
        assert IsOccurrence(s[i..e]);
      case None =>
        FindAllSound(s, i + 1);
        var a, b :| i + 1 <= a <= b <= |s| && IsOccurrence(s[a..b]);
    }
  }

  /** `findall` comes back empty exactly when no occurrence is there to be found. */
  lemma FindAllEmpty(s: string, i: nat)
    requires i <= |s|
    ensures FindAll(s, i) == [] <==> NoOccurrenceFrom(s, i)
  {
    if FindAll(s, i) != [] {
      FindAllSound(s, i);
    } else {
      forall a, b | i <= a <= b <= |s|
        ensures !IsOccurrence(s[a..b])
      {
        if IsOccurrence(s[a..b]) {
          FindAllFinds(s, i, a, b);
          assert false;
        }
      }
    }
  }

  /** No occurrence of `s` starts at a position from `i` up to, not including, `a`. */
  predicate NoOccurrenceBefore(s: string, i: nat, a: nat)
    requires i <= a <= |s|
  {
    forall a', b' :: i <= a' < a && a' <= b' <= |s| ==> !IsOccurrence(s[a'..b'])
  }

  /** `findall` returns first the leftmost occurrence at or after `i`. */
  lemma {:induction false} FindAllFirst(s: string, i: nat, a: nat, b: nat)
    requires i <= a <= b <= |s| && IsOccurrence(s[a..b]) && NoOccurrenceBefore(s, i, a)
    ensures |FindAll(s, i)| > 0 && FindAll(s, i)[0] == s[a..b]
    decreases a - i
  {
    if a == i {
      MatchAtFinds(s, i, b);
    } else {
      assert MatchAt(s, i).None?;
      FindAllFirst(s, i + 1, a, b);
    }
  }

  /** The XPath query for every `href` attribute, then `.re(pattern)`: the matches in every link target, in
      document order. */
  function Occurrences(hrefs: seq<string>): (os: seq<string>)
    ensures forall k :: 0 <= k < |os| ==> IsOccurrence(os[k])
  {
    if |hrefs| == 0 then [] else FindAll(hrefs[0], 0) + Occurrences(hrefs[1..])
  }

  /** No link target of the page contains an occurrence. */
  predicate NoLinkMatches(hrefs: seq<string>) {
    forall h :: h in hrefs ==> NoOccurrenceFrom(h, 0)
  }

  lemma {:induction false} OccurrencesEmpty(hrefs: seq<string>)
    ensures Occurrences(hrefs) == [] <==> NoLinkMatches(hrefs)
  {
    if |hrefs| > 0 {
      FindAllEmpty(hrefs[0], 0);
      OccurrencesEmpty(hrefs[1..]);
      assert forall h :: h in hrefs <==> h == hrefs[0] || h in hrefs[1..];
    }
  }

  /** The first occurrence collected is the leftmost occurrence of the first link target
      that has one: the link targets come in document order, and so do the matches
      within one. */
  lemma {:induction false} OccurrencesFirst(hrefs: seq<string>, h: nat, a: nat, b: nat)
    requires h < |hrefs| && forall h' :: 0 <= h' < h ==> NoOccurrenceFrom(hrefs[h'], 0)
    requires a <= b <= |hrefs[h]| && IsOccurrence(hrefs[h][a..b]) && NoOccurrenceBefore(hrefs[h], 0, a)
    ensures |Occurrences(hrefs)| > 0 && Occurrences(hrefs)[0] == hrefs[h][a..b]
  {
    if h == 0 {
      FindAllFirst(hrefs[0], 0, a, b);
    } else {
      FindAllEmpty(hrefs[0], 0);
      assert Occurrences(hrefs) == Occurrences(hrefs[1..]);
      assert forall h' :: 0 <= h' < h - 1 ==> hrefs[1..][h'] == hrefs[h' + 1];
      OccurrencesFirst(hrefs[1..], h - 1, a, b);
    }
  }

  /** The end of the lazy `(.*?)\?` that starts at `k`: the first `?`, provided no line
      break (which `.` does not match) comes before it. */
  function LazyEnd(s: string, k: nat): (q: Option<nat>)
    requires k <= |s|
    ensures q.Some? ==> k <= q.value < |s| && s[q.value] == '?'
    ensures q.Some? ==> forall i :: k <= i < q.value ==> s[i] != '?' && s[i] != '\n'
    decreases |s| - k
  {
    if k == |s| then None
    else if s[k] == '?' then Some(k)
    else if s[k] == '\n' then None
    else LazyEnd(s, k + 1)
  }

  /** `re.search(r"/biz/(.*?)\?", s).group(1)` from position `i` on, `None` when
      `re.search` finds no match. */
  function SearchFrom(s: string, i: nat): Option<string>
    requires i <= |s|
    decreases |s| - i
  {
    if i + 5 > |s| then None
    else if s[i..i + 5] == Prefix && LazyEnd(s, i + 5).Some? then Some(s[i + 5..LazyEnd(s, i + 5).value])
    else SearchFrom(s, i + 1)
  }

  /** The capturing search recovers the id from every occurrence the findall returns. */
  lemma SearchOccurrence(o: string)
    requires IsOccurrence(o)
    ensures SearchFrom(o, 0) == Some(o[5..|o| - 1])
  {
    assert o[0..5] == Prefix;
    LazyEndOfId(o, 5);
  }

  lemma {:induction false} LazyEndOfId(o: string, k: nat)
    requires IsOccurrence(o) && 5 <= k <= |o| - 1
    ensures LazyEnd(o, k) == Some(|o| - 1)
    decreases |o| - k
  {
    if k < |o| - 1 {
      assert IsIdChar(o[k]);
      LazyEndOfId(o, k + 1);
    }
  }

  /** `parse_id`: the id in the first occurrence, in document order. An empty list of
      occurrences makes `occurrences[0]` raise, which nothing catches. */
  function ParseId(hrefs: seq<string>): (r: Result<string, ScrapeError>)
    ensures r.Failure? <==> NoLinkMatches(hrefs)
    ensures r.Failure? ==> r.error == NoBusinessId
    ensures r.Success? ==> |Occurrences(hrefs)| > 0 && Prefix + r.value + "?" == Occurrences(hrefs)[0]
    ensures r.Success? ==> forall i :: 0 <= i < |r.value| ==> IsIdChar(r.value[i])
  {
    var occurrences := Occurrences(hrefs);
    OccurrencesEmpty(hrefs);
    if |occurrences| == 0 then Failure(NoBusinessId)
    else
      var first := occurrences[0];
      SearchOccurrence(first);
      assert first == Prefix + first[5..|first| - 1] + "?";
      Success(SearchFrom(first, 0).value)
  }

  /** `parse_id` returns the text between `/biz/` and `?` of the leftmost occurrence in the
      first link target, in document order, that has one. */
  lemma ParseIdLeftmost(hrefs: seq<string>, h: nat, a: nat, b: nat)
    requires h < |hrefs| && forall h' :: 0 <= h' < h ==> NoOccurrenceFrom(hrefs[h'], 0)
    requires a <= b <= |hrefs[h]| && IsOccurrence(hrefs[h][a..b]) && NoOccurrenceBefore(hrefs[h], 0, a)
    ensures ParseId(hrefs) == Success(hrefs[h][a + 5..b - 1])
  {
    OccurrencesFirst(hrefs, h, a, b);
    var s := hrefs[h];
    var o := s[a..b];
    assert !NoLinkMatches(hrefs) by {
      assert s in hrefs && IsOccurrence(s[a..b]);
    }
    var id := ParseId(hrefs).value;
    assert o == Prefix + id + "?";
    assert |id| == b - a - 6;
    forall k | 0 <= k < |id|
      ensures id[k] == s[a + 5 + k]
    {
      assert (Prefix + id + "?")[5 + k] == id[k];
      assert o[5 + k] == s[a + 5 + k];
    }
    assert id == s[a + 5..b - 1];
  }
}
