/** `build_citation_network`: one node view per article, and links between
    every pair of articles that share an author or a keyword. */
module Network {
  import opened Text
  import opened Articles
  import opened Urls

  /** The `type` of a link. */
  datatype LinkKind = ByAuthors | ByKeywords

  /** A link; `common` is the `common_authors` or `common_keywords` list, whose
      order is the iteration order of a Python set and is not modelled. */
  datatype Link = Link(source: string, target: string, strength: int, kind: LinkKind, common: set<string>)

  /** The persisted graph: node views and links. */
  datatype Graph = Graph(nodes: seq<Article>, links: seq<Link>)

  /** `author.lower().strip()`. */
  function AuthorKey(n: string): string {
    Strip(Lower(n))
  }

  /** `set(author.lower().strip() for author in authors)`. */
  function AuthorKeys(a: Article): set<string> {
    set n | n in a.authors :: AuthorKey(n)
  }

  /** `set(kw.lower() for kw in keywords + search_keywords)`. */
  function KeywordKeys(a: Article): set<string> {
    set k | k in a.keywords + a.searchKeywords :: Lower(k)
  }

  /** How two articles are compared: the set of keys of each kind. The loops
      and their lemmas hold for any keying; `Standard` is the one the
      source uses. */
  datatype Keying = Keying(authors: Article -> set<string>, keywords: Article -> set<string>)

  const Standard: Keying := Keying(AuthorKeys, KeywordKeys)

  /** The keys two articles share for one kind of link. */
  function Shared(a1: Article, a2: Article, kind: LinkKind, keying: Keying): set<string> {
    match kind
    case ByAuthors => keying.authors(a1) * keying.authors(a2)
    case ByKeywords => keying.keywords(a1) * keying.keywords(a2)
  }

  /** The strength of a link sharing `n` keys: each author counts twice, each keyword once. */
  function Strength(kind: LinkKind, n: int): int {
    match kind
    case ByAuthors => n * 2
    case ByKeywords => n
  }

  /** The link of one kind between `a1` and `a2`, present only when they share a key. */
  function KindLink(a1: Article, a2: Article, kind: LinkKind, keying: Keying): seq<Link> {
    var common := Shared(a1, a2, kind, keying);
    if common != {} then [Link(a1.id, a2.id, Strength(kind, |common|), kind, common)] else []
  }

  /** The links the pair (`a1`, `a2`) contributes: the author link, then the keyword link. */
  function PairLinks(a1: Article, a2: Article, keying: Keying): (r: seq<Link>)
    ensures forall l :: l in r ==> l.source == a1.id && l.target == a2.id
  {
    KindLink(a1, a2, ByAuthors, keying) + KindLink(a1, a2, ByKeywords, keying)
  }

  lemma KindLinkMeaning(a1: Article, a2: Article, kind: LinkKind, keying: Keying)
    ensures |KindLink(a1, a2, kind, keying)| <= 1
    ensures KindLink(a1, a2, kind, keying) != [] <==> Shared(a1, a2, kind, keying) != {}
    ensures forall l :: l in KindLink(a1, a2, kind, keying) ==>
              l.kind == kind && l.common == Shared(a1, a2, kind, keying) && l.strength == Strength(kind, |l.common|)
  {
  }

  /** A pair has a link of a kind exactly when it shares a key of that kind;
      such a link carries the shared keys and the strength of their number;
      the pair's links have different kinds. */
  lemma PairLinksMeaning(a1: Article, a2: Article, kind: LinkKind, keying: Keying)
    ensures (exists l :: l in PairLinks(a1, a2, keying) && l.kind == kind) <==> Shared(a1, a2, kind, keying) != {}
    ensures forall l :: l in PairLinks(a1, a2, keying) && l.kind == kind ==>
              l.common == Shared(a1, a2, kind, keying) && l.strength == Strength(kind, |l.common|)
    ensures |PairLinks(a1, a2, keying)| <= 2
    ensures var r := PairLinks(a1, a2, keying);
            forall p, q :: 0 <= p < q < |r| ==> r[p].kind != r[q].kind
  {
    var byAuthors, byKeywords := KindLink(a1, a2, ByAuthors, keying), KindLink(a1, a2, ByKeywords, keying);
    KindLinkMeaning(a1, a2, ByAuthors, keying);
    KindLinkMeaning(a1, a2, ByKeywords, keying);
    assert PairLinks(a1, a2, keying) == byAuthors + byKeywords;
    assert forall l :: l in PairLinks(a1, a2, keying) <==> l in byAuthors || l in byKeywords;
    if Shared(a1, a2, kind, keying) != {} {
      var l := KindLink(a1, a2, kind, keying)[0];
      assert l in PairLinks(a1, a2, keying);
    }
  }

  /** A function giving the links of one ordered pair of articles. */
  type PairFn = (Article, Article) -> seq<Link>

  /** `PairLinks` under a keying, as a value. */
  function PairsBy(keying: Keying): PairFn {
    (a1: Article, a2: Article) => PairLinks(a1, a2, keying)
  }

  /** The links of the pairs (i, j) with i < j < n, in increasing j. */
  function Row(arts: seq<Article>, i: nat, n: nat, pair: PairFn): seq<Link>
    requires i < |arts| && n <= |arts|
  {
    if n == 0 then []
    else Row(arts, i, n - 1, pair) + (if i < n - 1 then pair(arts[i], arts[n - 1]) else [])
  }

  /** The links of all pairs whose first index is below `m`. */
  function LinksUpTo(arts: seq<Article>, m: nat, pair: PairFn): seq<Link>
    requires m <= |arts|
  {
    if m == 0 then [] else LinksUpTo(arts, m - 1, pair) + Row(arts, m - 1, |arts|, pair)
  }

  /** All links under a keying, in the order the nested loops emit them. */
  function LinksWith(arts: seq<Article>, keying: Keying): seq<Link> {
    LinksUpTo(arts, |arts|, PairsBy(keying))
  }

  /** The links `build_citation_network` emits. */
  function Links(arts: seq<Article>): seq<Link> {
    LinksWith(arts, Standard)
  }

  /** The node view of an article: its resolved URL, no DOI, no `published`. */
  function NodeOf(a: Article, quote: string -> string): Article {
    a.(url := EnsureUrl(a, quote), doi := "")
  }

  /** One node view per article, in article order, each with a non-empty URL
      and otherwise the article's own fields. */
  function NodeViews(arts: seq<Article>, quote: string -> string): (r: seq<Article>)
    ensures |r| == |arts|
    ensures forall k :: 0 <= k < |arts| ==>
              && r[k].id == arts[k].id && r[k].url != ""
              && (arts[k].url != "" ==> r[k].url == arts[k].url)
              && r[k] == arts[k].(url := r[k].url, doi := "")
  {
    seq(|arts|, k requires 0 <= k < |arts| => NodeOf(arts[k], quote))
  }

  lemma NodeViewsIds(arts: seq<Article>, quote: string -> string)
    ensures Ids(NodeViews(arts, quote)) == Ids(arts)
  {
    var nodes := NodeViews(arts, quote);
    forall x | x in Ids(arts) ensures x in Ids(nodes) {
      var k :| 0 <= k < |arts| && arts[k].id == x;
      assert nodes[k] in nodes;
    }
    forall x | x in Ids(nodes) ensures x in Ids(arts) {
      var k :| 0 <= k < |nodes| && nodes[k].id == x;
      assert arts[k] in arts;
    }
  }

  lemma NodeViewsSnoc(arts: seq<Article>, k: nat, quote: string -> string)
    requires k < |arts|
    ensures NodeViews(arts[..k + 1], quote) == NodeViews(arts[..k], quote) + [NodeOf(arts[k], quote)]
  {
    assert arts[..k + 1][..k] == arts[..k];
  }

  lemma RowSnoc(arts: seq<Article>, i: nat, j: nat, done: seq<Link>, keying: Keying)
    requires i < |arts| && j < |arts|
    ensures done + Row(arts, i, j + 1, PairsBy(keying))
            == (done + Row(arts, i, j, PairsBy(keying))) + (if i < j then PairLinks(arts[i], arts[j], keying) else [])
  {
    if j <= i {
      assert Row(arts, i, j + 1, PairsBy(keying)) == Row(arts, i, j, PairsBy(keying)) + [];
    }
  }

  /** The body of the inner loop: nothing when j <= i, otherwise the author
      link, then the keyword link. */
  method VisitPair(articles: seq<Article>, i: nat, j: nat, links: seq<Link>, keying: Keying) returns (out: seq<Link>)
    requires i < |articles| && j < |articles|
    ensures out == links + (if i < j then PairLinks(articles[i], articles[j], keying) else [])
  {
    out := links;
    if i >= j {
      assert out == links + [];
      return;
    }
    var article1, article2 := articles[i], articles[j];
    var authors := keying.authors(article1) * keying.authors(article2);
    if authors != {} {
      out := out + [Link(article1.id, article2.id, |authors| * 2, ByAuthors, authors)];
    }
    assert out == links + KindLink(article1, article2, ByAuthors, keying);
    var keywords := keying.keywords(article1) * keying.keywords(article2);
    if keywords != {} {
      out := out + [Link(article1.id, article2.id, |keywords|, ByKeywords, keywords)];
    }
    assert out == (links + KindLink(article1, article2, ByAuthors, keying)) + KindLink(article1, article2, ByKeywords, keying);
  }

  /** The node section of `build_citation_network`: one view per article. */
  method CreateNodes(articles: seq<Article>, quote: string -> string) returns (nodes: seq<Article>)
    ensures nodes == NodeViews(articles, quote)
  {
    nodes := [];
    for k := 0 to |articles|
      invariant nodes == NodeViews(articles[..k], quote)
    {
      NodeViewsSnoc(articles, k, quote);
      nodes := nodes + [NodeOf(articles[k], quote)];
    }
    assert articles[..|articles|] == articles;
  }

  /** One pass of the inner loop: the pairs (i, j) for every j, skipping j <= i. */
  method CreateRowLinks(articles: seq<Article>, i: nat, links: seq<Link>, keying: Keying) returns (out: seq<Link>)
    requires i < |articles|
    ensures out == links + Row(articles, i, |articles|, PairsBy(keying))
  {
    out := links;
    for j := 0 to |articles|
      invariant out == links + Row(articles, i, j, PairsBy(keying))
    {
      RowSnoc(articles, i, j, links, keying);
      out := VisitPair(articles, i, j, out, keying);
    }
  }

  /** The link section of `build_citation_network`: every pair i < j once. */
  method CreateLinks(articles: seq<Article>, keying: Keying) returns (links: seq<Link>)
    ensures links == LinksWith(articles, keying)
  {
    links := [];
    for i := 0 to |articles|
      invariant links == LinksUpTo(articles, i, PairsBy(keying))
    {
      links := CreateRowLinks(articles, i, links, keying);
    }
  }

  /** `build_citation_network(articles)`. */
  method BuildCitationNetwork(articles: seq<Article>, quote: string -> string) returns (g: Graph)
    ensures g.nodes == NodeViews(articles, quote)
    ensures g.links == Links(articles)
  {
    var nodes := CreateNodes(articles, quote);
    var links := CreateLinks(articles, Standard);
    g := Graph(nodes, links);
  }

  // ---------------------------------------------------------------------
  // The pair visiting order, for any per-pair function

  /** Every link a pair yields runs from the first article to the second. */
  ghost predicate Oriented(pair: PairFn) {
    forall a1, a2, l :: l in pair(a1, a2) ==> l.source == a1.id && l.target == a2.id
  }

  /** Two links of the same kind between the same ordered pair of ids. */
  predicate SameEdge(l: Link, m: Link) {
    l.kind == m.kind && l.source == m.source && l.target == m.target
  }

  predicate NoRepeat(links: seq<Link>) {
    forall p, q :: 0 <= p < q < |links| ==> !SameEdge(links[p], links[q])
  }

  lemma {:induction false} RowOrigin(arts: seq<Article>, i: nat, n: nat, pair: PairFn)
    requires i < |arts| && n <= |arts|
    ensures forall l :: l in Row(arts, i, n, pair) ==> exists j :: i < j < n && l in pair(arts[i], arts[j])
  {
    if n > 0 {
      RowOrigin(arts, i, n - 1, pair);
    }
  }

  lemma {:induction false} LinksUpToOrigin(arts: seq<Article>, m: nat, pair: PairFn)
    requires m <= |arts|
    ensures forall l :: l in LinksUpTo(arts, m, pair) ==>
              exists i, j :: 0 <= i < m && i < j < |arts| && l in pair(arts[i], arts[j])
  {
    if m > 0 {
      LinksUpToOrigin(arts, m - 1, pair);
      RowOrigin(arts, m - 1, |arts|, pair);
    }
  }

  lemma {:induction false} RowComplete(arts: seq<Article>, i: nat, n: nat, pair: PairFn)
    requires i < |arts| && n <= |arts|
    ensures forall j, l :: i < j < n && l in pair(arts[i], arts[j]) ==> l in Row(arts, i, n, pair)
  {
    if n > 0 {
      RowComplete(arts, i, n - 1, pair);
    }
  }

  lemma {:induction false} LinksUpToComplete(arts: seq<Article>, m: nat, pair: PairFn)
    requires m <= |arts|
    ensures forall i, j, l :: 0 <= i < m && i < j < |arts| && l in pair(arts[i], arts[j]) ==>
              l in LinksUpTo(arts, m, pair)
  {
    if m > 0 {
      LinksUpToComplete(arts, m - 1, pair);
      RowComplete(arts, m - 1, |arts|, pair);
    }
  }

  lemma NoRepeatConcat(a: seq<Link>, b: seq<Link>)
    requires NoRepeat(a) && NoRepeat(b)
    requires forall l, m :: l in a && m in b ==> !SameEdge(l, m)
    ensures NoRepeat(a + b)
  {
    forall p, q | 0 <= p < q < |a + b| ensures !SameEdge((a + b)[p], (a + b)[q]) {
      if q < |a| {
      } else if p >= |a| {
        assert (a + b)[p] == b[p - |a|] && (a + b)[q] == b[q - |a|];
      } else {
        assert (a + b)[p] in a && (a + b)[q] in b;
      }
    }
  }

  /** Appending links that all end at `t` to links none of which does. */
  lemma NoRepeatNewTarget(a: seq<Link>, b: seq<Link>, t: string)
    requires NoRepeat(a) && NoRepeat(b)
    requires forall l :: l in a ==> l.target != t
    requires forall l :: l in b ==> l.target == t
    ensures NoRepeat(a + b)
  {
    NoRepeatConcat(a, b);
  }

  /** Appending links that all leave `s` to links none of which does. */
  lemma NoRepeatNewSource(a: seq<Link>, b: seq<Link>, s: string)
    requires NoRepeat(a) && NoRepeat(b)
    requires forall l :: l in a ==> l.source != s
    requires forall l :: l in b ==> l.source == s
    ensures NoRepeat(a + b)
  {
    NoRepeatConcat(a, b);
  }

  lemma IdsSnoc(arts: seq<Article>, k: nat)
    requires k < |arts|
    ensures Ids(arts[..k + 1]) == Ids(arts[..k]) + {arts[k].id}
  {
    assert arts[..k + 1] == arts[..k] + [arts[k]];
    IdsAppend(arts[..k], [arts[k]]);
  }

  /** With distinct ids, an article's id is not among those before it. */
  lemma IdNotBefore(arts: seq<Article>, k: nat)
    requires DistinctIds(arts) && k < |arts|
    ensures arts[k].id !in Ids(arts[..k])
  {
  }

  /** The links of row i all leave article i and end at an article before position n. */
  lemma {:induction false} RowEnds(arts: seq<Article>, i: nat, n: nat, pair: PairFn)
    requires i < |arts| && n <= |arts| && Oriented(pair)
    ensures forall l :: l in Row(arts, i, n, pair) ==> l.source == arts[i].id && l.target in Ids(arts[..n])
  {
    if n > 0 {
      RowEnds(arts, i, n - 1, pair);
      IdsSnoc(arts, n - 1);
    }
  }

  /** The links of the rows before m all leave an article before position m. */
  lemma {:induction false} LinksUpToSources(arts: seq<Article>, m: nat, pair: PairFn)
    requires m <= |arts| && Oriented(pair)
    ensures forall l :: l in LinksUpTo(arts, m, pair) ==> l.source in Ids(arts[..m])
  {
    if m > 0 {
      LinksUpToSources(arts, m - 1, pair);
      RowEnds(arts, m - 1, |arts|, pair);
      IdsSnoc(arts, m - 1);
    }
  }

  /** Adding the pair (i, n - 1) to row i repeats no edge: the new links end
      at article n - 1, which no earlier link of the row reaches. */
  lemma RowStepNoRepeat(arts: seq<Article>, i: nat, n: nat, pair: PairFn)
    requires DistinctIds(arts) && i < n - 1 && n <= |arts|
    requires Oriented(pair) && NoRepeat(pair(arts[i], arts[n - 1]))
    requires NoRepeat(Row(arts, i, n - 1, pair))
    ensures NoRepeat(Row(arts, i, n - 1, pair) + pair(arts[i], arts[n - 1]))
  {
    var init := Row(arts, i, n - 1, pair);
    var t := arts[n - 1].id;
    assert forall l :: l in init ==> l.target != t by {
      RowEnds(arts, i, n - 1, pair);
      IdNotBefore(arts, n - 1);
    }
    NoRepeatNewTarget(init, pair(arts[i], arts[n - 1]), t);
  }

  lemma {:induction false} RowNoRepeat(arts: seq<Article>, i: nat, n: nat, pair: PairFn)
    requires DistinctIds(arts) && i < |arts| && n <= |arts|
    requires Oriented(pair) && forall a1, a2 :: NoRepeat(pair(a1, a2))
    ensures NoRepeat(Row(arts, i, n, pair))
  {
    if n > 0 {
      RowNoRepeat(arts, i, n - 1, pair);
      if i < n - 1 {
        RowStepNoRepeat(arts, i, n, pair);
      } else {
        assert Row(arts, i, n, pair) == Row(arts, i, n - 1, pair) + [];
      }
    }
  }

  /** No link of the rows before m - 1 leaves article m - 1. */
  lemma EarlierRowsAvoid(arts: seq<Article>, m: nat, pair: PairFn)
    requires DistinctIds(arts) && 0 < m <= |arts| && Oriented(pair)
    ensures forall l :: l in LinksUpTo(arts, m - 1, pair) ==> l.source != arts[m - 1].id
  {
    LinksUpToSources(arts, m - 1, pair);
    IdNotBefore(arts, m - 1);
  }

  /** Adding row m - 1 repeats no edge: its links leave article m - 1, which
      no earlier link leaves. */
  lemma LinksStepNoRepeat(arts: seq<Article>, m: nat, pair: PairFn)
    requires DistinctIds(arts) && 0 < m <= |arts| && Oriented(pair)
    requires NoRepeat(LinksUpTo(arts, m - 1, pair)) && NoRepeat(Row(arts, m - 1, |arts|, pair))
    ensures NoRepeat(LinksUpTo(arts, m, pair))
  {
    EarlierRowsAvoid(arts, m, pair);
    RowEnds(arts, m - 1, |arts|, pair);
    NoRepeatNewSource(LinksUpTo(arts, m - 1, pair), Row(arts, m - 1, |arts|, pair), arts[m - 1].id);
  }

  lemma {:induction false} LinksUpToNoRepeat(arts: seq<Article>, m: nat, pair: PairFn)
    requires DistinctIds(arts) && m <= |arts|
    requires Oriented(pair) && forall a1, a2 :: NoRepeat(pair(a1, a2))
    ensures NoRepeat(LinksUpTo(arts, m, pair))
  {
    if m > 0 {
      LinksUpToNoRepeat(arts, m - 1, pair);
      RowNoRepeat(arts, m - 1, |arts|, pair);
      LinksStepNoRepeat(arts, m, pair);
    }
  }

  // ---------------------------------------------------------------------
  // Properties of the emitted links, under any keying

  /** The per-pair links run from the first article to the second and never
      repeat a kind. */
  lemma PairsSound(keying: Keying)
    ensures Oriented(PairsBy(keying))
    ensures forall a1, a2 :: NoRepeat(PairsBy(keying)(a1, a2))
  {
    forall a1, a2 ensures NoRepeat(PairsBy(keying)(a1, a2)) {
      PairLinksMeaning(a1, a2, ByAuthors, keying);
    }
  }

  /** Every link comes from a pair of positions i < j and joins their ids. */
  lemma LinkOrigin(arts: seq<Article>, keying: Keying, l: Link)
    requires l in LinksWith(arts, keying)
    ensures exists i, j :: 0 <= i < j < |arts| && l in PairLinks(arts[i], arts[j], keying)
              && l.source == arts[i].id && l.target == arts[j].id
  {
    LinksUpToOrigin(arts, |arts|, PairsBy(keying));
  }

  /** Every pair i < j contributes all of its links. */
  lemma LinksComplete(arts: seq<Article>, keying: Keying, i: nat, j: nat)
    requires i < j < |arts|
    ensures forall l :: l in PairLinks(arts[i], arts[j], keying) ==> l in LinksWith(arts, keying)
  {
    LinksUpToComplete(arts, |arts|, PairsBy(keying));
  }

  /** With distinct ids no link joins an article to itself, and both ends
      are ids of articles in the list. */
  lemma NoSelfLoops(arts: seq<Article>, keying: Keying)
    requires DistinctIds(arts)
    ensures forall l :: l in LinksWith(arts, keying) ==>
              l.source != l.target && l.source in Ids(arts) && l.target in Ids(arts)
  {
    forall l | l in LinksWith(arts, keying)
      ensures l.source != l.target && l.source in Ids(arts) && l.target in Ids(arts)
    {
      LinkOrigin(arts, keying, l);
      var i, j :| 0 <= i < j < |arts| && l.source == arts[i].id && l.target == arts[j].id;
      assert arts[i] in arts && arts[j] in arts;
    }
  }

  /** A link of a kind from position i to a later position j exists exactly
      when the two articles share a key of that kind; it then carries the
      shared keys and the strength of their number (twice it for authors);
      no link runs from j back to i. */
  lemma LinkIff(arts: seq<Article>, keying: Keying, i: nat, j: nat, kind: LinkKind)
    requires DistinctIds(arts) && i < j < |arts|
    ensures (exists l :: l in LinksWith(arts, keying) && l.kind == kind && l.source == arts[i].id && l.target == arts[j].id)
            <==> Shared(arts[i], arts[j], kind, keying) != {}
    ensures forall l :: l in LinksWith(arts, keying) && l.kind == kind && l.source == arts[i].id && l.target == arts[j].id ==>
              l.common == Shared(arts[i], arts[j], kind, keying) && l.strength == Strength(kind, |l.common|)
    ensures forall l :: l in LinksWith(arts, keying) ==> !(l.source == arts[j].id && l.target == arts[i].id)
  {
    LinksComplete(arts, keying, i, j);
    PairLinksMeaning(arts[i], arts[j], kind, keying);
    forall l | l in LinksWith(arts, keying) && l.source == arts[i].id && l.target == arts[j].id
      ensures l in PairLinks(arts[i], arts[j], keying)
    {
      LinkOrigin(arts, keying, l);
      var i', j' :| 0 <= i' < j' < |arts| && l in PairLinks(arts[i'], arts[j'], keying)
                    && l.source == arts[i'].id && l.target == arts[j'].id;
      assert i' == i && j' == j;
    }
    forall l | l in LinksWith(arts, keying) ensures !(l.source == arts[j].id && l.target == arts[i].id) {
      LinkOrigin(arts, keying, l);
    }
  }

  /** With distinct ids, no two links of the same kind join the same two
      articles, in either direction: each unordered pair is visited once. */
  lemma AtMostOneLinkPerPair(arts: seq<Article>, keying: Keying)
    requires DistinctIds(arts)
    ensures var links := LinksWith(arts, keying);
            forall p, q :: 0 <= p < q < |links| && links[p].kind == links[q].kind ==>
              !(links[p].source == links[q].source && links[p].target == links[q].target)
              && !(links[p].source == links[q].target && links[p].target == links[q].source)
  {
    var links := LinksWith(arts, keying);
    PairsSound(keying);
    LinksUpToNoRepeat(arts, |arts|, PairsBy(keying));
    forall p, q | 0 <= p < q < |links| && links[p].kind == links[q].kind
      ensures !(links[p].source == links[q].target && links[p].target == links[q].source)
    {
      assert links[p] in links && links[q] in links;
      LinkOrigin(arts, keying, links[p]);
      LinkOrigin(arts, keying, links[q]);
    }
  }

  /** Author names that differ only in ASCII case and in surrounding
      whitespace give the same key. */
  lemma AuthorKeyIgnoresCaseAndPadding(n1: string, n2: string, pre: string, post: string)
    requires Lower(n1) == Lower(n2) && AllSpace(pre) && AllSpace(post)
    ensures AuthorKey(pre + n1 + post) == AuthorKey(n2)
  {
    LowerAppend(pre + n1, post);
    LowerAppend(pre, n1);
    LowerSpaces(pre);
    LowerSpaces(post);
    StripPadded(pre, Lower(n1), post);
  }

  /** Two articles listing the same author, up to ASCII case and surrounding
      whitespace, are joined by an author link that carries the author's key. */
  lemma SameAuthorLinked(arts: seq<Article>, i: nat, j: nat, n1: string, n2: string, pre: string, post: string)
    requires i < j < |arts|
    requires pre + n1 + post in arts[i].authors && n2 in arts[j].authors
    requires Lower(n1) == Lower(n2) && AllSpace(pre) && AllSpace(post)
    ensures exists l :: l in Links(arts) && l.kind == ByAuthors && l.source == arts[i].id
                        && l.target == arts[j].id && AuthorKey(n2) in l.common
  {
    AuthorKeyIgnoresCaseAndPadding(n1, n2, pre, post);
    assert AuthorKey(n2) in Shared(arts[i], arts[j], ByAuthors, Standard);
    PairLinkPresent(arts, i, j, ByAuthors);
  }

  /** Two articles whose keywords or search keywords share one, up to ASCII
      case, are joined by a keyword link that carries it lower-cased. */
  lemma SameKeywordLinked(arts: seq<Article>, i: nat, j: nat, k1: string, k2: string)
    requires i < j < |arts|
    requires k1 in arts[i].keywords || k1 in arts[i].searchKeywords
    requires k2 in arts[j].keywords || k2 in arts[j].searchKeywords
    requires Lower(k1) == Lower(k2)
    ensures exists l :: l in Links(arts) && l.kind == ByKeywords && l.source == arts[i].id
                        && l.target == arts[j].id && Lower(k1) in l.common
  {
    assert k1 in arts[i].keywords + arts[i].searchKeywords;
    assert k2 in arts[j].keywords + arts[j].searchKeywords;
    assert Lower(k1) in Shared(arts[i], arts[j], ByKeywords, Standard);
    PairLinkPresent(arts, i, j, ByKeywords);
  }

  /** A pair i < j sharing a key of a kind contributes, whatever the
      identifiers, a link of that kind carrying the shared keys. */
  lemma PairLinkPresent(arts: seq<Article>, i: nat, j: nat, kind: LinkKind)
    requires i < j < |arts| && Shared(arts[i], arts[j], kind, Standard) != {}
    ensures exists l :: l in Links(arts) && l.kind == kind && l.source == arts[i].id
                        && l.target == arts[j].id && l.common == Shared(arts[i], arts[j], kind, Standard)
  {
    LinksComplete(arts, Standard, i, j);
    KindLinkMeaning(arts[i], arts[j], kind, Standard);
    var l := KindLink(arts[i], arts[j], kind, Standard)[0];
    assert l in PairLinks(arts[i], arts[j], Standard);
  }
}
