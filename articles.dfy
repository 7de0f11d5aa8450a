/** The canonical article record every provider is normalised into, and the
    provider namespaces its identifier is drawn from. */
module Articles {

  /** The six search back-ends, in the order the aggregation runs them. */
  datatype Provider = Acs | Rsc | Springer | Wiley | SemanticScholar | PubmedLike

  /** The identifier namespace of each provider. */
  function Prefix(p: Provider): string {
    match p
    case Acs => "acs_"
    case Rsc => "rsc_"
    case Springer => "springer_"
    case Wiley => "wiley_"
    case SemanticScholar => "semantic_adv_"
    case PubmedLike => "pubmed_like_"
  }

  /** The `source` value each provider stamps on its articles. */
  function SourceName(p: Provider): string {
    match p
    case Acs => "ACS Publications"
    case Rsc => "RSC Publications"
    case Springer => "Springer"
    case Wiley => "Wiley"
    case SemanticScholar => "Semantic Scholar"
    case PubmedLike => "PubMed-like"
  }

  /** A normalised article, and also the node view that the store persists
      (there the `doi` key is absent, which this record writes as `""`:
      the code only ever tests the DOI for being non-empty). */
  datatype Article = Article(
    id: string,
    title: string,
    shortAbstract: string,     // the `abstract` key: at most 500 characters, then "..."
    fullAbstract: string,      // untruncated
    year: int,
    journal: string,
    keywords: seq<string>,
    citationCount: int,
    doi: string,
    searchKeywords: seq<string>,
    authors: seq<string>,
    source: string,
    url: string)

  /** The identifiers occurring in a list of articles. */
  function Ids(s: seq<Article>): set<string> {
    set a | a in s :: a.id
  }

  lemma IdsAppend(s: seq<Article>, t: seq<Article>)
    ensures Ids(s + t) == Ids(s) + Ids(t)
  {
    assert forall a :: a in s + t <==> a in s || a in t;
  }

  /** No identifier occurs twice. */
  predicate DistinctIds(s: seq<Article>) {
    forall i, j :: 0 <= i < j < |s| ==> s[i].id != s[j].id
  }

  /** Identifiers from different providers never coincide, whatever follows the
      prefix (a DOI, a hash or a paper id): the prefixes already differ in
      their first two characters. */
  lemma NamespacesDisjoint(p: Provider, q: Provider, x: string, y: string)
    requires p != q
    ensures Prefix(p) + x != Prefix(q) + y
  {
    assert (Prefix(p) + x)[0] == Prefix(p)[0] && (Prefix(p) + x)[1] == Prefix(p)[1];
    assert (Prefix(q) + y)[0] == Prefix(q)[0] && (Prefix(q) + y)[1] == Prefix(q)[1];
    assert Prefix(p)[0] != Prefix(q)[0] || Prefix(p)[1] != Prefix(q)[1] by {
      match p
      case Acs =>
      case Rsc =>
      case Springer =>
      case Wiley =>
      case SemanticScholar =>
      case PubmedLike =>
    }
  }
}
