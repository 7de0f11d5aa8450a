/** The provider loops (`search_acs_publications`, `search_rsc_publications`,
    `search_springer_chemistry`, `search_wiley_polymers`,
    `search_semantic_scholar_advanced`, `search_pubmed_articles`) and the
    aggregation `search_articles`. The network is a function from a query to
    the items of its response; a request that fails, answers malformed JSON or
    is rate-limited contributes no items. */
module Providers {
  import opened Wrappers
  import opened Articles
  import opened Normalize
  import opened Dedup

  const AcsJournals: seq<string> := [
    "Macromolecules", "Biomacromolecules", "Chemistry of Materials",
    "ACS Applied Materials & Interfaces", "ACS Macro Letters",
    "Journal of the American Chemical Society", "ACS Polymers Au", "Langmuir"]

  const RscJournals: seq<string> := [
    "Polymer Chemistry", "Journal of Materials Chemistry A", "Soft Matter",
    "Materials Horizons", "Green Chemistry"]

  const SpringerQueries: seq<string> := [
    "copolymer synthesis", "polymer characterization", "barrier properties polymer",
    "polymer blend", "controlled polymerization", "polymer nanocomposite"]

  const WileyJournals: seq<string> := [
    "Journal of Applied Polymer Science", "Journal of Polymer Science",
    "Polymer International", "Macromolecular Rapid Communications"]

  const ScholarQueries: seq<string> := [
    "copolymer barrier properties mathematical model",
    "polymer diffusion simulation machine learning",
    "block copolymer self-assembly modeling",
    "polymer nanocomposite mechanical properties",
    "controlled radical polymerization kinetics"]

  const PubmedQueries: seq<string> := [
    "copolymer AND barrier AND properties",
    "block copolymer AND self-assembly",
    "polymer AND nanocomposite AND modeling"]

  /** The journals or free-text queries each provider asks for, in order. */
  function Queries(p: Provider): seq<string> {
    match p
    case Acs => AcsJournals
    case Rsc => RscJournals
    case Springer => SpringerQueries
    case Wiley => WileyJournals
    case SemanticScholar => ScholarQueries
    case PubmedLike => PubmedQueries
  }

  /** The items of the Crossref response to one query of one provider. */
  type CrossrefFetch = (Provider, string) -> seq<CrossrefItem>

  /** The papers of the Semantic Scholar response to one query. */
  type ScholarFetch = string -> seq<ScholarPaper>

  function OkList(r: Result<Article, Skip>): seq<Article> {
    if r.Ok? then [r.value] else []
  }

  /** The articles the items of one response normalise to, in order. */
  function CrossrefHarvest(p: CrossrefSource, query: string, items: seq<CrossrefItem>, rt: Runtime): seq<Article>
    decreases |items|
  {
    if items == [] then []
    else CrossrefHarvest(p, query, items[..|items| - 1], rt)
         + OkList(CrossrefArticle(p, query, items[|items| - 1], rt))
  }

  /** The articles all responses of a provider normalise to, query after query. */
  function CrossrefCandidates(p: CrossrefSource, queries: seq<string>, fetch: CrossrefFetch, rt: Runtime): seq<Article>
    decreases |queries|
  {
    if queries == [] then []
    else
      var q := queries[|queries| - 1];
      CrossrefCandidates(p, queries[..|queries| - 1], fetch, rt) + CrossrefHarvest(p, q, fetch(p, q), rt)
  }

  function ScholarHarvest(query: string, papers: seq<ScholarPaper>, rt: Runtime): seq<Article>
    decreases |papers|
  {
    if papers == [] then []
    else ScholarHarvest(query, papers[..|papers| - 1], rt) + OkList(ScholarArticle(query, papers[|papers| - 1], rt))
  }

  function ScholarCandidates(queries: seq<string>, fetch: ScholarFetch, rt: Runtime): seq<Article>
    decreases |queries|
  {
    if queries == [] then []
    else
      var q := queries[|queries| - 1];
      ScholarCandidates(queries[..|queries| - 1], fetch, rt) + ScholarHarvest(q, fetch(q), rt)
  }

  /** Every provider but the PubMed-like one drops a candidate whose identifier
      it has already collected. */
  function Collected(p: Provider, candidates: seq<Article>): seq<Article> {
    if p == PubmedLike then candidates else FirstById(candidates)
  }

  /** What the search function of a Crossref provider returns. */
  function CrossrefResult(p: CrossrefSource, fetch: CrossrefFetch, rt: Runtime): seq<Article> {
    Collected(p, CrossrefCandidates(p, Queries(p), fetch, rt))
  }

  /** What `search_semantic_scholar_advanced` returns. */
  function ScholarResult(fetch: ScholarFetch, rt: Runtime): seq<Article> {
    FirstById(ScholarCandidates(ScholarQueries, fetch, rt))
  }

  lemma CollectedSnoc(p: Provider, candidates: seq<Article>, r: Result<Article, Skip>)
    ensures Collected(p, candidates + OkList(r))
            == if r.Ok? && (p == PubmedLike || r.value.id !in Ids(Collected(p, candidates)))
               then Collected(p, candidates) + [r.value]
               else Collected(p, candidates)
  {
    if r.Ok? {
      FirstByIdSnoc(candidates, r.value);
    } else {
      assert candidates + OkList(r) == candidates;
    }
  }

  /** One item of a response handled: normalised, then collected or dropped. */
  lemma CrossrefStep(p: CrossrefSource, before: seq<Article>, query: string, items: seq<CrossrefItem>,
                     k: nat, names: seq<string>, rt: Runtime)
    requires k < |items| && names == AuthorNames(People(items[k]))
    ensures var r := CrossrefRecord(p, query, items[k], names, rt);
            Collected(p, before + CrossrefHarvest(p, query, items[..k + 1], rt))
            == if r.Ok? && (p == PubmedLike || r.value.id !in Ids(Collected(p, before + CrossrefHarvest(p, query, items[..k], rt))))
               then Collected(p, before + CrossrefHarvest(p, query, items[..k], rt)) + [r.value]
               else Collected(p, before + CrossrefHarvest(p, query, items[..k], rt))
  {
    var r := CrossrefRecord(p, query, items[k], names, rt);
    assert items[..k + 1][..k] == items[..k];
    assert before + CrossrefHarvest(p, query, items[..k + 1], rt)
           == (before + CrossrefHarvest(p, query, items[..k], rt)) + OkList(r);
    CollectedSnoc(p, before + CrossrefHarvest(p, query, items[..k], rt), r);
  }

  /** All items of one response handled. */
  lemma CrossrefQueryDone(p: CrossrefSource, queries: seq<string>, i: nat, fetch: CrossrefFetch, rt: Runtime)
    requires i < |queries|
    ensures CrossrefCandidates(p, queries[..i + 1], fetch, rt)
            == CrossrefCandidates(p, queries[..i], fetch, rt)
               + CrossrefHarvest(p, queries[i], fetch(p, queries[i])[..|fetch(p, queries[i])|], rt)
  {
    assert queries[..i + 1][..i] == queries[..i];
    assert fetch(p, queries[i])[..|fetch(p, queries[i])|] == fetch(p, queries[i]);
  }

  /** The search function of a provider answering with Crossref works: for each
      query, normalise each item and collect it. */
  method SearchCrossref(p: CrossrefSource, fetch: CrossrefFetch, rt: Runtime) returns (found: seq<Article>)
    ensures found == CrossrefResult(p, fetch, rt)
  {
    var queries := Queries(p);
    found := [];
    ghost var before: seq<Article> := [];
    for i := 0 to |queries|
      invariant before == CrossrefCandidates(p, queries[..i], fetch, rt)
      invariant found == Collected(p, before)
    {
      var query := queries[i];
      var items := fetch(p, query);
      assert before + CrossrefHarvest(p, query, items[..0], rt) == before;
      for k := 0 to |items|
        invariant found == Collected(p, before + CrossrefHarvest(p, query, items[..k], rt))
      {
        var names := CollectAuthors(People(items[k]));
        var r := CrossrefRecord(p, query, items[k], names, rt);
        CrossrefStep(p, before, query, items, k, names, rt);
        if r.Ok? && (p == PubmedLike || r.value.id !in Ids(found)) {
          found := found + [r.value];
        }
      }
      CrossrefQueryDone(p, queries, i, fetch, rt);
      before := before + CrossrefHarvest(p, query, items[..|items|], rt);
    }
    assert queries[..|queries|] == queries;
  }

  lemma ScholarStep(before: seq<Article>, query: string, papers: seq<ScholarPaper>,
                    k: nat, names: seq<string>, rt: Runtime)
    requires k < |papers| && names == Seqs.Filter(Names(papers[k]), HasText)
    ensures var r := ScholarRecord(query, papers[k], names, rt);
            FirstById(before + ScholarHarvest(query, papers[..k + 1], rt))
            == if r.Ok? && r.value.id !in Ids(FirstById(before + ScholarHarvest(query, papers[..k], rt)))
               then FirstById(before + ScholarHarvest(query, papers[..k], rt)) + [r.value]
               else FirstById(before + ScholarHarvest(query, papers[..k], rt))
  {
    var r := ScholarRecord(query, papers[k], names, rt);
    assert papers[..k + 1][..k] == papers[..k];
    assert before + ScholarHarvest(query, papers[..k + 1], rt)
           == (before + ScholarHarvest(query, papers[..k], rt)) + OkList(r);
    CollectedSnoc(SemanticScholar, before + ScholarHarvest(query, papers[..k], rt), r);
  }

  lemma ScholarQueryDone(queries: seq<string>, i: nat, fetch: ScholarFetch, rt: Runtime)
    requires i < |queries|
    ensures ScholarCandidates(queries[..i + 1], fetch, rt)
            == ScholarCandidates(queries[..i], fetch, rt)
               + ScholarHarvest(queries[i], fetch(queries[i])[..|fetch(queries[i])|], rt)
  {
    assert queries[..i + 1][..i] == queries[..i];
    assert fetch(queries[i])[..|fetch(queries[i])|] == fetch(queries[i]);
  }

  /** `search_semantic_scholar_advanced`. */
  method SearchScholar(fetch: ScholarFetch, rt: Runtime) returns (found: seq<Article>)
    ensures found == ScholarResult(fetch, rt)
  {
    var queries := ScholarQueries;
    found := [];
    ghost var before: seq<Article> := [];
    for i := 0 to |queries|
      invariant before == ScholarCandidates(queries[..i], fetch, rt)
      invariant found == FirstById(before)
    {
      var query := queries[i];
      var papers := fetch(query);
      assert before + ScholarHarvest(query, papers[..0], rt) == before;
      for k := 0 to |papers|
        invariant found == FirstById(before + ScholarHarvest(query, papers[..k], rt))
      {
        var names := CollectNames(Names(papers[k]));
        var r := ScholarRecord(query, papers[k], names, rt);
        ScholarStep(before, query, papers, k, names, rt);
        if r.Ok? && r.value.id !in Ids(found) {
          found := found + [r.value];
        }
      }
      ScholarQueryDone(queries, i, fetch, rt);
      before := before + ScholarHarvest(query, papers[..|papers|], rt);
    }
    assert queries[..|queries|] == queries;
  }

  /** The provider results concatenated in the order `search_articles` runs them. */
  function AllCandidates(fetch: CrossrefFetch, scholar: ScholarFetch, rt: Runtime): seq<Article> {
    CrossrefResult(Acs, fetch, rt) + CrossrefResult(Rsc, fetch, rt) + CrossrefResult(Springer, fetch, rt)
    + CrossrefResult(Wiley, fetch, rt) + ScholarResult(scholar, rt) + CrossrefResult(PubmedLike, fetch, rt)
  }

  /** `byId` and its insertion order `order` hold exactly the articles `kept`. */
  ghost predicate Mirrors(byId: map<string, Article>, order: seq<string>, kept: seq<Article>) {
    && |order| == |kept|
    && byId.Keys == Ids(kept)
    && forall k :: 0 <= k < |kept| ==> order[k] == kept[k].id && order[k] in byId && byId[order[k]] == kept[k]
  }

  lemma MirrorsInsert(byId: map<string, Article>, order: seq<string>, kept: seq<Article>, a: Article)
    requires Mirrors(byId, order, kept) && a.id !in byId
    ensures Mirrors(byId[a.id := a], order + [a.id], kept + [a])
  {
    assert forall k :: 0 <= k < |kept| ==> kept[k] in kept;
    IdsAppend(kept, [a]);
  }

  /** The dictionary loop of `search_articles`: the first article seen with an
      identifier is stored under it, and the stored values are read back in
      insertion order. */
  method DedupById(articles: seq<Article>) returns (unique: seq<Article>)
    ensures unique == FirstById(articles)
  {
    var byId: map<string, Article> := map[];
    var order: seq<string> := [];
    ghost var kept: seq<Article> := [];
    for i := 0 to |articles|
      invariant kept == FirstById(articles[..i])
      invariant Mirrors(byId, order, kept)
    {
      var a := articles[i];
      assert articles[..i + 1] == articles[..i] + [a];
      FirstByIdSnoc(articles[..i], a);
      if a.id !in byId {
        MirrorsInsert(byId, order, kept, a);
        byId := byId[a.id := a];
        order := order + [a.id];
        kept := kept + [a];
      }
    }
    assert articles[..|articles|] == articles;
    unique := [];
    for k := 0 to |order|
      invariant unique == kept[..k]
    {
      unique := unique + [byId[order[k]]];
    }
  }

  /** `search_articles`: run every provider, concatenate, keep the first article
      per identifier. */
  method SearchArticles(fetch: CrossrefFetch, scholar: ScholarFetch, rt: Runtime) returns (unique: seq<Article>)
    ensures unique == FirstById(AllCandidates(fetch, scholar, rt))
    ensures DistinctIds(unique) && Ids(unique) == Ids(AllCandidates(fetch, scholar, rt))
  {
    var acs := SearchCrossref(Acs, fetch, rt);
    var rsc := SearchCrossref(Rsc, fetch, rt);
    var springer := SearchCrossref(Springer, fetch, rt);
    var wiley := SearchCrossref(Wiley, fetch, rt);
    var semantic := SearchScholar(scholar, rt);
    var pubmed := SearchCrossref(PubmedLike, fetch, rt);
    var all := acs + rsc + springer + wiley + semantic + pubmed;
    unique := DedupById(all);
    FirstByIdDistinct(all);
    FirstByIdIds(all);
  }
}
