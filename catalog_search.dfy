/**
 * The search box (app/index.tsx, lines 21-28): the list shows the stories of
 * the whole catalog whose title, lower-cased, contains the lower-cased search
 * text.
 */
module CatalogSearch {

  /** One record of the bundled story catalog. */
  datatype Story = Story(id: string, title: string, language: string)

  /** `toLowerCase` on one character, for the ASCII letters. */
  function LowerChar(c: char): (d: char)
    ensures 'A' <= c <= 'Z' ==> 'a' <= d <= 'z' && d as int - c as int == 32
    ensures !('A' <= c <= 'Z') ==> d == c
  {
    if 'A' <= c <= 'Z' then (c as int + 32) as char else c
  }

  /** `toLowerCase` on a string, character by character. */
  function Lower(s: string): (t: string)
    ensures |t| == |s|
    ensures forall i :: 0 <= i < |s| ==> t[i] == LowerChar(s[i])
  {
    if s == [] then [] else [LowerChar(s[0])] + Lower(s[1..])
  }

  /** Lower-casing twice is lower-casing once. */
  lemma LowerIdempotent(s: string)
    ensures Lower(Lower(s)) == Lower(s)
  {
  }

  /** `s` begins with `t`. */
  predicate StartsWith(s: string, t: string) {
    |t| <= |s| && s[..|t|] == t
  }

  /** `t` occurs in `s` starting at position `i`. */
  predicate OccursAt(s: string, t: string, i: int) {
    0 <= i && i + |t| <= |s| && s[i..i + |t|] == t
  }

  /** `s.includes(t)`: `t` occurs in `s` at some position; the empty text occurs in every string. */
  function Includes(s: string, t: string): (b: bool)
    ensures b <==> exists i :: OccursAt(s, t, i)
    decreases |s|
  {
    if StartsWith(s, t) then
      assert OccursAt(s, t, 0);
      true
    else if s == [] then
      false
    else
      var b := Includes(s[1..], t);
      if b then
        var i :| OccursAt(s[1..], t, i);
        assert s[i + 1..i + 1 + |t|] == s[1..][i..i + |t|];
        assert OccursAt(s, t, i + 1);
        true
      else
        forall i | OccursAt(s, t, i) && 0 < i ensures OccursAt(s[1..], t, i - 1) {
          assert s[i..i + |t|] == s[1..][i - 1..i - 1 + |t|];
        }
        false
  }

  /** The test `item.title.toLowerCase().includes(term)` with `term` already lower-cased. */
  predicate Matches(story: Story, term: string): (b: bool)
    ensures b <==> exists i :: OccursAt(Lower(story.title), term, i)
  {
    var title := Lower(story.title);
    var b := Includes(title, term);
    if b then
      var i :| OccursAt(title, term, i);
      assert OccursAt(Lower(story.title), term, i);
      b
    else
      b
  }

  /** `stories.filter(item => Matches(item, term))`. */
  function Keep(stories: seq<Story>, term: string): (r: seq<Story>)
    ensures |r| <= |stories|
    ensures forall s :: s in r <==> s in stories && Matches(s, term)
  {
    if stories == [] then []
    else if Matches(stories[0], term) then [stories[0]] + Keep(stories[1..], term)
    else Keep(stories[1..], term)
  }

  /** The list the screen shows for search text `search`. */
  function FilterStories(catalog: seq<Story>, search: string): (r: seq<Story>)
    ensures forall s :: s in r <==> s in catalog && Includes(Lower(s.title), Lower(search))
    ensures IsSubsequence(r, catalog)
  {
    KeepIsSubsequence(catalog, Lower(search));
    Keep(catalog, Lower(search))
  }

  /** `a` is `b` with some elements left out and the rest in their original order. */
  predicate IsSubsequence<T(==)>(a: seq<T>, b: seq<T>)
    decreases |b|
  {
    if a == [] then true
    else if b == [] then false
    else if a[0] == b[0] then IsSubsequence(a[1..], b[1..])
    else IsSubsequence(a, b[1..])
  }

  /** Every story shown comes from the catalog and matches the search. */
  lemma FilterSound(catalog: seq<Story>, search: string, story: Story)
    requires story in FilterStories(catalog, search)
    ensures story in catalog
    ensures Includes(Lower(story.title), Lower(search))
  {
  }

  /** Every catalog story that matches the search is shown. */
  lemma FilterComplete(catalog: seq<Story>, search: string, story: Story)
    requires story in catalog
    requires Includes(Lower(story.title), Lower(search))
    ensures story in FilterStories(catalog, search)
  {
  }

  /** A story is shown as often as it occurs in the catalog when it matches, and never otherwise. */
  lemma {:induction false} FilterMultiplicity(catalog: seq<Story>, search: string, story: Story)
    ensures multiset(FilterStories(catalog, search))[story] ==
            if Includes(Lower(story.title), Lower(search)) then multiset(catalog)[story] else 0
  {
    KeepMultiplicity(catalog, Lower(search), story);
  }

  lemma {:induction false} KeepMultiplicity(stories: seq<Story>, term: string, story: Story)
    ensures multiset(Keep(stories, term))[story] == if Matches(story, term) then multiset(stories)[story] else 0
  {
    if stories != [] {
      KeepMultiplicity(stories[1..], term, story);
      assert stories == [stories[0]] + stories[1..];
    }
  }

  /** The list keeps the catalog's order: it is a subsequence of the whole catalog. */
  lemma FilterPreservesOrder(catalog: seq<Story>, search: string)
    ensures IsSubsequence(FilterStories(catalog, search), catalog)
  {
  }

  lemma {:induction false} KeepIsSubsequence(stories: seq<Story>, term: string)
    ensures IsSubsequence(Keep(stories, term), stories)
    decreases |stories|
  {
    if stories != [] {
      var rest := Keep(stories[1..], term);
      KeepIsSubsequence(stories[1..], term);
      if !Matches(stories[0], term) {
        SubsequenceOfTail(rest, stories);
      }
    }
  }

  /** A subsequence of the tail is a subsequence of the whole. */
  lemma {:induction false} SubsequenceOfTail<T>(a: seq<T>, b: seq<T>)
    requires b != [] && IsSubsequence(a, b[1..])
    ensures IsSubsequence(a, b)
    decreases |b|, |a|
  {
    if a != [] && a[0] == b[0] {
      // IsSubsequence(a, b[1..]) with a[0] == b[0] gives the tail of a inside the tail of b.
      SubsequenceDropHead(a, b[1..]);
    }
  }

  /** Dropping the first element keeps a subsequence a subsequence. */
  lemma {:induction false} SubsequenceDropHead<T>(a: seq<T>, b: seq<T>)
    requires a != [] && IsSubsequence(a, b)
    ensures IsSubsequence(a[1..], b)
    decreases |b|, |a|
  {
    if b != [] {
      if a[0] == b[0] {
        if a[1..] != [] {
          SubsequenceOfTail(a[1..], b);
        }
      } else {
        SubsequenceDropHead(a, b[1..]);
        if a[1..] != [] {
          SubsequenceOfTail(a[1..], b);
        }
      }
    }
  }

  /** An empty search shows the whole catalog. */
  lemma {:induction false} FilterEmptySearch(catalog: seq<Story>)
    ensures FilterStories(catalog, "") == catalog
  {
    KeepEverything(catalog);
  }

  lemma {:induction false} KeepEverything(stories: seq<Story>)
    ensures Keep(stories, "") == stories
  {
    if stories != [] {
      assert Lower(stories[0].title)[0..0] == "";
      KeepEverything(stories[1..]);
    }
  }

  /** The search ignores the case of the search text. */
  lemma FilterIgnoresCase(catalog: seq<Story>, search: string)
    ensures FilterStories(catalog, search) == FilterStories(catalog, Lower(search))
  {
    LowerIdempotent(search);
  }

  /** Searching the filtered list again with the same text changes nothing. */
  lemma {:induction false} FilterIdempotent(catalog: seq<Story>, search: string)
    ensures FilterStories(FilterStories(catalog, search), search) == FilterStories(catalog, search)
  {
    KeepIdempotent(catalog, Lower(search));
  }

  lemma {:induction false} KeepIdempotent(stories: seq<Story>, term: string)
    ensures Keep(Keep(stories, term), term) == Keep(stories, term)
  {
    if stories != [] {
      KeepIdempotent(stories[1..], term);
      if Matches(stories[0], term) {
        var r := Keep(stories, term);
        assert r[0] == stories[0] && r[1..] == Keep(stories[1..], term);
      }
    }
  }
}
