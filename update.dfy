/** The manual refresh `update_articles`: search every provider, append the
    found articles whose identifier is not stored yet, rebuild and save the
    graph, and report what was added. The dates only reach a log line and
    the response message; the stored snapshot and the saved graph are values. */
module Update {
  import opened Seqs
  import opened Articles
  import opened Network
  import opened Normalize
  import opened Dedup
  import opened Providers

  /** The article's identifier is not among `ids`. */
  function NotStored(ids: set<string>): Article -> bool {
    (a: Article) => a.id !in ids
  }

  /** `actually_new`: the found articles whose identifier was stored before the merge. */
  function NewArticles(existing: seq<Article>, found: seq<Article>): seq<Article> {
    Filter(found, NotStored(Ids(existing)))
  }

  /** The distinct `source` values of some articles. */
  function SourceSet(arts: seq<Article>): (r: set<string>)
    ensures r == {} <==> arts == []
  {
    var r := set a | a in arts :: a.source;
    assert arts != [] ==> arts[0].source in r;
    r
  }

  /** The merge loop: the stored articles first, then each found article whose
      identifier is not in the identifiers collected before the loop. */
  method MergeNew(existing: seq<Article>, found: seq<Article>) returns (all: seq<Article>, actuallyNew: seq<Article>)
    ensures actuallyNew == NewArticles(existing, found)
    ensures all == existing + actuallyNew
  {
    all := existing;
    var existingIds := Ids(existing);
    actuallyNew := [];
    for k := 0 to |found|
      invariant actuallyNew == Filter(found[..k], NotStored(existingIds))
      invariant all == existing + actuallyNew
    {
      FilterSnoc(found, k, NotStored(existingIds));
      var newArticle := found[k];
      if newArticle.id !in existingIds {
        all := all + [newArticle];
        actuallyNew := actuallyNew + [newArticle];
      }
    }
    assert found[..|found|] == found;
  }

  /** The response of `update_articles`, with the graph it saves. */
  datatype UpdateOutcome =
    | Failed(message: string)
    | Updated(added: nat, total: nat, sources: set<string>, saved: Graph)

  const DatesRequired := "Start date and end date are required"

  /** What `update_articles` answers and saves for a stored graph. */
  function UpdateResult(startDate: string, endDate: string, stored: Graph,
                        fetch: CrossrefFetch, scholar: ScholarFetch, rt: Runtime): UpdateOutcome
  {
    if startDate == "" || endDate == "" then Failed(DatesRequired)
    else
      var added := NewArticles(stored.nodes, FirstById(AllCandidates(fetch, scholar, rt)));
      var all := stored.nodes + added;
      Updated(|added|, |all|, SourceSet(added), Graph(NodeViews(all, rt.quote), Links(all)))
  }

  /** `update_articles`: refuse missing dates, otherwise search, merge,
      rebuild the graph and report. */
  method UpdateArticles(startDate: string, endDate: string, stored: Graph,
                        fetch: CrossrefFetch, scholar: ScholarFetch, rt: Runtime) returns (outcome: UpdateOutcome)
    ensures outcome == UpdateResult(startDate, endDate, stored, fetch, scholar, rt)
  {
    if startDate == "" || endDate == "" {
      return Failed(DatesRequired);
    }
    var newArticles := SearchArticles(fetch, scholar, rt);
    var all, actuallyNew := MergeNew(stored.nodes, newArticles);
    var graphData := BuildCitationNetwork(all, rt.quote);
    var sources := SourceSet(actuallyNew);
    outcome := Updated(|actuallyNew|, |all|, sources, graphData);
  }

  // ---------------------------------------------------------------------
  // Properties of the merge

  /** The stored articles stay, unchanged and in order, in front; what follows
      are exactly the found articles with an identifier not stored before,
      in the order they were found. */
  lemma MergeShape(existing: seq<Article>, found: seq<Article>)
    ensures var all := existing + NewArticles(existing, found);
            && all[..|existing|] == existing
            && (forall a :: a in all[|existing|..] <==> a in found && a.id !in Ids(existing))
            && Ids(all) == Ids(existing) + Ids(found)
  {
    var added := NewArticles(existing, found);
    var all := existing + added;
    assert all[|existing|..] == added;
    IdsAppend(existing, added);
    forall x | x in Ids(found) ensures x in Ids(existing) + Ids(added) {
      var a :| a in found && a.id == x;
      if x !in Ids(existing) {
        assert a in added;
      }
    }
  }

  /** Merging the same batch again adds nothing. */
  lemma MergeIdempotent(existing: seq<Article>, found: seq<Article>)
    ensures var all := existing + NewArticles(existing, found);
            NewArticles(all, found) == [] && all + NewArticles(all, found) == all
  {
    var all := existing + NewArticles(existing, found);
    MergeShape(existing, found);
    forall a | a in found ensures !NotStored(Ids(all))(a) {
      assert a.id in Ids(found);
    }
    FilterNone(found, NotStored(Ids(all)));
    assert all + [] == all;
  }

  /** A filter keeps identifiers distinct. */
  lemma {:induction false} FilterDistinct(s: seq<Article>, p: Article -> bool)
    requires DistinctIds(s)
    ensures DistinctIds(Filter(s, p))
    decreases |s|
  {
    if s != [] {
      var init, last := s[..|s| - 1], s[|s| - 1];
      var kept := Filter(init, p);
      FilterDistinct(init, p);
      if p(last) {
        forall i | 0 <= i < |kept| ensures kept[i].id != last.id {
          assert kept[i] in init;
          var j :| 0 <= j < |init| && init[j] == kept[i];
        }
      }
    }
  }

  lemma DistinctAppend(a: seq<Article>, b: seq<Article>)
    requires DistinctIds(a) && DistinctIds(b)
    requires forall x :: x in b ==> x.id !in Ids(a)
    ensures DistinctIds(a + b)
  {
    forall i, j | 0 <= i < j < |a + b| ensures (a + b)[i].id != (a + b)[j].id {
      if j >= |a| && i < |a| {
        assert (a + b)[j] in b && (a + b)[i] in a;
      } else if i >= |a| {
        assert (a + b)[i] == b[i - |a|] && (a + b)[j] == b[j - |a|];
      }
    }
  }

  /** Stored identifiers that are distinct stay distinct after a merge with
      a batch whose identifiers are distinct. */
  lemma MergeDistinct(existing: seq<Article>, found: seq<Article>)
    requires DistinctIds(existing) && DistinctIds(found)
    ensures DistinctIds(existing + NewArticles(existing, found))
  {
    FilterDistinct(found, NotStored(Ids(existing)));
    DistinctAppend(existing, NewArticles(existing, found));
  }

  // ---------------------------------------------------------------------
  // Properties of the update

  /** After a successful update over a snapshot with distinct identifiers:
      the counts add up, nothing is reported when nothing was added, the saved
      graph holds every stored and every found identifier once, and none of
      its links joins an article to itself. */
  lemma UpdateSound(startDate: string, endDate: string, stored: Graph,
                    fetch: CrossrefFetch, scholar: ScholarFetch, rt: Runtime)
    requires startDate != "" && endDate != "" && DistinctIds(stored.nodes)
    ensures var r := UpdateResult(startDate, endDate, stored, fetch, scholar, rt);
            && r.Updated?
            && r.total == |stored.nodes| + r.added
            && (r.added == 0 <==> r.sources == {})
            && DistinctIds(r.saved.nodes)
            && Ids(r.saved.nodes) == Ids(stored.nodes) + Ids(AllCandidates(fetch, scholar, rt))
            && forall l :: l in r.saved.links ==> l.source != l.target && l.source in Ids(r.saved.nodes) && l.target in Ids(r.saved.nodes)
  {
    var found := FirstById(AllCandidates(fetch, scholar, rt));
    var all := stored.nodes + NewArticles(stored.nodes, found);
    FirstByIdDistinct(AllCandidates(fetch, scholar, rt));
    FirstByIdIds(AllCandidates(fetch, scholar, rt));
    MergeShape(stored.nodes, found);
    MergeDistinct(stored.nodes, found);
    NodeViewsIds(all, rt.quote);
    var nodes := NodeViews(all, rt.quote);
    assert DistinctIds(nodes) by {
      forall i, j | 0 <= i < j < |nodes| ensures nodes[i].id != nodes[j].id {
        assert nodes[i].id == all[i].id && nodes[j].id == all[j].id;
      }
    }
    NoSelfLoops(all, Standard);
  }

  /** Running the update again on the graph it saved, with the same search
      results, adds nothing and reports no sources. */
  lemma UpdateAgainAddsNothing(startDate: string, endDate: string, stored: Graph,
                               fetch: CrossrefFetch, scholar: ScholarFetch, rt: Runtime)
    requires startDate != "" && endDate != ""
    ensures var r := UpdateResult(startDate, endDate, stored, fetch, scholar, rt);
            var again := UpdateResult(startDate, endDate, r.saved, fetch, scholar, rt);
            again.Updated? && again.added == 0 && again.sources == {} && again.total == r.total
  {
    var found := FirstById(AllCandidates(fetch, scholar, rt));
    var all := stored.nodes + NewArticles(stored.nodes, found);
    var saved := NodeViews(all, rt.quote);
    NodeViewsIds(all, rt.quote);
    MergeIdempotent(stored.nodes, found);
    forall a | a in found ensures !NotStored(Ids(saved))(a) {
      MergeShape(stored.nodes, found);
      assert a.id in Ids(found);
    }
    FilterNone(found, NotStored(Ids(saved)));
  }
}
