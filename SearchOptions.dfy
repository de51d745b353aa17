/**
 * The search suggestions under the search box: the first four person
 * names, in dataset order, that contain the typed keywords; none while
 * the keywords are empty.
 */
module SearchOptions {
  import opened Seqs

  /** The most suggestions shown at once. */
  const MaxSuggestions: nat := 4

  /** `k` occurs in `s` starting at index `i`. */
  predicate OccursAt(s: string, k: string, i: nat) {
    i + |k| <= |s| && s[i..i + |k|] == k
  }

  ghost predicate Contains(s: string, k: string) {
    exists i: nat :: OccursAt(s, k, i)
  }

  /** The first index at or after `from` where `k` occurs in `s`, or -1. */
  function IndexFrom(s: string, k: string, from: nat): (r: int)
    ensures r == -1 || (from <= r && OccursAt(s, k, r))
    ensures r == -1 ==> forall i: nat :: from <= i ==> !OccursAt(s, k, i)
    ensures r != -1 ==> forall i: nat :: from <= i < r ==> !OccursAt(s, k, i)
    decreases |s| - from
  {
    if from + |k| > |s| then -1
    else if s[from..from + |k|] == k then from
    else IndexFrom(s, k, from + 1)
  }

  /** `s.indexOf(k)`: the first index where `k` occurs in `s`, or -1 when it does not occur. */
  function IndexOf(s: string, k: string): (r: int)
    ensures -1 <= r && (r == -1 <==> !Contains(s, k))
    ensures r != -1 ==> OccursAt(s, k, r) && forall i: nat :: i < r ==> !OccursAt(s, k, i)
  {
    IndexFrom(s, k, 0)
  }

  /** The filter callback `e => e.indexOf(keywords) > -1`. */
  function Matches(keywords: string): string -> bool {
    (e: string) => IndexOf(e, keywords) > -1
  }

  /** The suggested names for `keywords`, in the order of `names`. */
  function Suggestions(names: seq<string>, keywords: string): seq<string> {
    if keywords == [] then []
    else
      var hits := Filter(names, Matches(keywords));
      if |hits| <= MaxSuggestions then hits else hits[..MaxSuggestions]
  }

  /**
   * At most four names are suggested, none for empty keywords; each is one
   * of `names` and contains the keywords; they are the first matches in
   * order, and as many are shown as there are matches, up to four; when
   * fewer than four are shown every matching name is shown.
   */
  lemma SuggestionsSpec(names: seq<string>, keywords: string)
    ensures var r := Suggestions(names, keywords);
      && |r| <= MaxSuggestions
      && (keywords == [] ==> r == [])
      && (forall x :: x in r ==> x in names && Contains(x, keywords))
      && (keywords != [] ==> r <= Filter(names, Matches(keywords)))
      && (keywords != [] ==>
            var hits := Filter(names, Matches(keywords));
            |r| == if |hits| < MaxSuggestions then |hits| else MaxSuggestions)
      && (keywords != [] && |r| < MaxSuggestions ==>
            forall x :: x in names && Contains(x, keywords) ==> x in r)
  {
    if keywords != [] {
      var hits := Filter(names, Matches(keywords));
      FilterMembers(names, Matches(keywords));
      forall x | x in Suggestions(names, keywords) ensures x in hits {
      }
    }
  }

  /** Where a longer query occurs, its prefix occurs too. */
  lemma OccursPrefix(s: string, k: string, more: string, i: nat)
    requires OccursAt(s, k + more, i)
    ensures OccursAt(s, k, i)
  {
    assert s[i..i + |k|] == s[i..i + |k + more|][..|k|];
    assert (k + more)[..|k|] == k;
  }

  /** Suggestions only shrink as more keywords are typed: a longer query keeps only names containing the shorter one. */
  lemma SuggestionsNarrow(names: seq<string>, keywords: string, more: string)
    ensures forall x :: x in Suggestions(names, keywords + more) ==> Contains(x, keywords)
  {
    SuggestionsSpec(names, keywords + more);
    forall x | x in Suggestions(names, keywords + more) ensures Contains(x, keywords) {
      var i: nat :| OccursAt(x, keywords + more, i);
      OccursPrefix(x, keywords, more, i);
    }
  }
}
