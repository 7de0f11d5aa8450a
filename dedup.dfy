/** Deduplication by identifier where the first occurrence wins: the `any(...)`
    check of each provider loop and the dictionary of `search_articles`. */
module Dedup {
  import opened Articles

  /** Keeps an article only if no article kept before it has its identifier. */
  function FirstById(s: seq<Article>): (r: seq<Article>)
    ensures |r| <= |s|
    decreases |s|
  {
    if s == [] then []
    else
      var kept := FirstById(s[..|s| - 1]);
      var a := s[|s| - 1];
      if a.id in Ids(kept) then kept else kept + [a]
  }

  lemma FirstByIdSnoc(s: seq<Article>, a: Article)
    ensures FirstById(s + [a])
            == if a.id in Ids(FirstById(s)) then FirstById(s) else FirstById(s) + [a]
  {
    assert (s + [a])[..|s|] == s;
  }

  /** Every input identifier is kept, and no other. */
  lemma {:induction false} FirstByIdIds(s: seq<Article>)
    ensures Ids(FirstById(s)) == Ids(s)
    decreases |s|
  {
    if s != [] {
      var init, a := s[..|s| - 1], s[|s| - 1];
      assert s == init + [a];
      FirstByIdIds(init);
      IdsAppend(init, [a]);
      IdsAppend(FirstById(init), [a]);
    }
  }

  /** The kept identifiers are pairwise distinct. */
  lemma {:induction false} FirstByIdDistinct(s: seq<Article>)
    ensures DistinctIds(FirstById(s))
    decreases |s|
  {
    if s != [] {
      var init := s[..|s| - 1];
      var kept := FirstById(init);
      FirstByIdDistinct(init);
      var a := s[|s| - 1];
      if a.id !in Ids(kept) {
        forall i | 0 <= i < |kept| ensures kept[i].id != a.id {
          assert kept[i] in kept;
        }
      }
    }
  }

  /** `s[j]` is the first article of `s` with its identifier. */
  predicate IsFirst(s: seq<Article>, j: int)
    requires 0 <= j < |s|
  {
    s[j].id !in Ids(s[..j])
  }

  /** The first occurrence of every identifier, in input order. */
  function FirstOccurrences(s: seq<Article>): seq<Article>
    decreases |s|
  {
    if s == [] then []
    else FirstOccurrences(s[..|s| - 1]) + (if IsFirst(s, |s| - 1) then [s[|s| - 1]] else [])
  }

  /** Deduplication keeps exactly the first occurrences, in the order they occur. */
  lemma {:induction false} FirstByIdIsFirstOccurrences(s: seq<Article>)
    ensures FirstById(s) == FirstOccurrences(s)
    decreases |s|
  {
    if s != [] {
      FirstByIdIsFirstOccurrences(s[..|s| - 1]);
      FirstByIdIds(s[..|s| - 1]);
    }
  }

  /** Input that is already free of duplicates passes unchanged. */
  lemma {:induction false} FirstByIdOfDistinct(s: seq<Article>)
    requires DistinctIds(s)
    ensures FirstById(s) == s
    decreases |s|
  {
    if s != [] {
      var init := s[..|s| - 1];
      FirstByIdOfDistinct(init);
      assert forall i :: 0 <= i < |init| ==> init[i].id != s[|s| - 1].id;
      assert s == init + [s[|s| - 1]];
    }
  }
}
