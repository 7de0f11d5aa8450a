/** The read path `get_articles`: the stored graph narrowed by topic, then by
    an inclusive year range, keeping only the links whose two ends survive.
    The query-string dates arrive already parsed: a date that is missing,
    empty or not of the form YYYY-MM-DD is `None`. */
module Query {
  import opened Wrappers
  import opened Text
  import opened Seqs
  import opened Articles
  import opened Network

  /** The `topic_map`: the search terms of the three known topics. */
  function TopicTerms(topic: string): (r: Option<seq<string>>)
    ensures r.Some? <==> topic in {"copolymer", "barrier", "model"}
    ensures r.Some? ==> topic in r.value
  {
    if topic == "copolymer" then Some(["copolymer", "polymer", "blend", "macromolecule"])
    else if topic == "barrier" then Some(["barrier", "permeability", "gas", "diffusion"])
    else if topic == "model" then Some(["model", "learning", "neural", "simulation", "mathematical"])
    else None
  }

  /** The lower-cased text a topic is searched in: search keywords, keywords,
      title and abstract, joined by spaces. */
  function NodeText(n: Article): string {
    Lower(Join([Join(n.searchKeywords, " "), Join(n.keywords, " "), n.title, n.shortAbstract], " "))
  }

  /** `any(term in node_text for term in search_terms)`. */
  predicate Matches(n: Article, terms: seq<string>) {
    exists t :: t in terms && Contains(NodeText(n), t)
  }

  function MatchesTest(terms: seq<string>): Article -> bool {
    n => Matches(n, terms)
  }

  function FromYear(y: int): Article -> bool {
    (n: Article) => n.year >= y
  }

  function UntilYear(y: int): Article -> bool {
    (n: Article) => n.year <= y
  }

  /** Both ends of the link are among `ids`. */
  function Within(ids: set<string>): Link -> bool {
    (l: Link) => l.source in ids && l.target in ids
  }

  /** The topic step: only a known topic filters. */
  function ByTopic(nodes: seq<Article>, topic: string): seq<Article> {
    if topic == "all" then nodes
    else match TopicTerms(topic)
      case None => nodes
      case Some(terms) => Filter(nodes, MatchesTest(terms))
  }

  /** The year steps, each applied only when its date was given and parsed. */
  function ByStart(nodes: seq<Article>, start: Option<int>): seq<Article> {
    match start
    case None => nodes
    case Some(y) => Filter(nodes, FromYear(y))
  }

  function ByEnd(nodes: seq<Article>, end: Option<int>): seq<Article> {
    match end
    case None => nodes
    case Some(y) => Filter(nodes, UntilYear(y))
  }

  /** The response of `get_articles` for a stored graph. */
  function Visible(g: Graph, topic: string, start: Option<int>, end: Option<int>): Graph {
    var nodes := ByEnd(ByStart(ByTopic(g.nodes, topic), start), end);
    Graph(nodes, Filter(g.links, Within(Ids(nodes))))
  }

  /** The topic loop of `get_articles`: a node is kept when one of the terms
      occurs in its text. */
  method FilterTopic(nodes: seq<Article>, terms: seq<string>) returns (filtered: seq<Article>)
    ensures filtered == Filter(nodes, MatchesTest(terms))
  {
    filtered := [];
    for k := 0 to |nodes|
      invariant filtered == Filter(nodes[..k], MatchesTest(terms))
    {
      FilterSnoc(nodes, k, MatchesTest(terms));
      var node := nodes[k];
      if Matches(node, terms) {
        filtered := filtered + [node];
      }
    }
    assert nodes[..|nodes|] == nodes;
  }

  /** `get_articles` over the stored graph `g`. */
  method GetArticles(g: Graph, topic: string, start: Option<int>, end: Option<int>) returns (r: Graph)
    ensures r == Visible(g, topic, start, end)
  {
    var nodes := g.nodes;
    if topic != "all" {
      var terms := TopicTerms(topic);
      if terms.Some? {
        nodes := FilterTopic(nodes, terms.value);
      }
    }
    if start.Some? {
      nodes := Filter(nodes, FromYear(start.value));
    }
    if end.Some? {
      nodes := Filter(nodes, UntilYear(end.value));
    }
    var nodeIds := Ids(nodes);
    r := Graph(nodes, Filter(g.links, Within(nodeIds)));
  }

  // ---------------------------------------------------------------------
  // What the response contains

  /** The three conditions a stored node must meet to be returned. */
  predicate TopicOk(n: Article, topic: string) {
    topic == "all" || TopicTerms(topic).None? || Matches(n, TopicTerms(topic).value)
  }

  predicate StartOk(n: Article, start: Option<int>) {
    start.None? || n.year >= start.value
  }

  predicate EndOk(n: Article, end: Option<int>) {
    end.None? || n.year <= end.value
  }

  predicate Selected(n: Article, topic: string, start: Option<int>, end: Option<int>) {
    TopicOk(n, topic) && StartOk(n, start) && EndOk(n, end)
  }

  function TopicTest(topic: string): Article -> bool {
    n => TopicOk(n, topic)
  }

  function StartTest(start: Option<int>): Article -> bool {
    n => StartOk(n, start)
  }

  function EndTest(end: Option<int>): Article -> bool {
    n => EndOk(n, end)
  }

  function TopicStartTest(topic: string, start: Option<int>): Article -> bool {
    n => TopicOk(n, topic) && StartOk(n, start)
  }

  function SelectedTest(topic: string, start: Option<int>, end: Option<int>): Article -> bool {
    n => Selected(n, topic, start, end)
  }

  lemma ByTopicIsFilter(nodes: seq<Article>, topic: string)
    ensures ByTopic(nodes, topic) == Filter(nodes, TopicTest(topic))
  {
    if topic == "all" || TopicTerms(topic).None? {
      FilterAll(nodes, TopicTest(topic));
    } else {
      FilterSame(nodes, MatchesTest(TopicTerms(topic).value), TopicTest(topic));
    }
  }

  lemma ByStartIsFilter(nodes: seq<Article>, start: Option<int>)
    ensures ByStart(nodes, start) == Filter(nodes, StartTest(start))
  {
    if start.None? {
      FilterAll(nodes, StartTest(start));
    } else {
      FilterSame(nodes, FromYear(start.value), StartTest(start));
    }
  }

  lemma ByEndIsFilter(nodes: seq<Article>, end: Option<int>)
    ensures ByEnd(nodes, end) == Filter(nodes, EndTest(end))
  {
    if end.None? {
      FilterAll(nodes, EndTest(end));
    } else {
      FilterSame(nodes, UntilYear(end.value), EndTest(end));
    }
  }

  /** The returned nodes are the selected stored nodes, in their stored
      order: the three steps together are one filter. */
  lemma VisibleNodes(g: Graph, topic: string, start: Option<int>, end: Option<int>)
    ensures Visible(g, topic, start, end).nodes == Filter(g.nodes, SelectedTest(topic, start, end))
  {
    var t := ByTopic(g.nodes, topic);
    var ts := ByStart(t, start);
    ByTopicIsFilter(g.nodes, topic);
    ByStartIsFilter(t, start);
    FilterTwice(g.nodes, TopicTest(topic), StartTest(start), TopicStartTest(topic, start));
    ByEndIsFilter(ts, end);
    FilterTwice(g.nodes, TopicStartTest(topic, start), EndTest(end), SelectedTest(topic, start, end));
  }

  /** A stored node is returned exactly when it is selected. */
  lemma VisibleNodeIff(g: Graph, topic: string, start: Option<int>, end: Option<int>, n: Article)
    ensures n in Visible(g, topic, start, end).nodes <==> n in g.nodes && Selected(n, topic, start, end)
  {
    VisibleNodes(g, topic, start, end);
  }

  /** A stored link is returned exactly when both of its ends are returned
      nodes; the returned links keep their stored order. */
  lemma VisibleLinkIff(g: Graph, topic: string, start: Option<int>, end: Option<int>, l: Link)
    ensures var r := Visible(g, topic, start, end);
            l in r.links <==> l in g.links && l.source in Ids(r.nodes) && l.target in Ids(r.nodes)
  {
  }

  /** Asking again with the same parameters returns the same graph. */
  lemma VisibleIdempotent(g: Graph, topic: string, start: Option<int>, end: Option<int>)
    ensures Visible(Visible(g, topic, start, end), topic, start, end) == Visible(g, topic, start, end)
  {
    var r := Visible(g, topic, start, end);
    var sel := SelectedTest(topic, start, end);
    VisibleNodes(g, topic, start, end);
    VisibleNodes(r, topic, start, end);
    FilterTwice(g.nodes, sel, sel, sel);
    var ids := Ids(r.nodes);
    FilterAll(r.links, Within(ids));
  }

  /** The node text is the lower-cased title with lower-cased text around it. */
  lemma NodeTextAroundTitle(n: Article)
    ensures var pre := Join(n.searchKeywords, " ") + " " + Join(n.keywords, " ") + " ";
            NodeText(n) == Lower(pre) + Lower(n.title) + Lower(" " + n.shortAbstract)
  {
    var a, b, c, d := Join(n.searchKeywords, " "), Join(n.keywords, " "), n.title, n.shortAbstract;
    var parts := [a, b, c, d];
    assert Join([d], " ") == d;
    assert [c, d][1..] == [d];
    assert Join([c, d], " ") == c + " " + d;
    assert [b, c, d][1..] == [c, d];
    assert Join([b, c, d], " ") == b + " " + (c + " " + d);
    assert parts[1..] == [b, c, d];
    assert Join(parts, " ") == (a + " " + b + " ") + c + (" " + d);
    LowerAppend(a + " " + b + " " + c, " " + d);
    LowerAppend(a + " " + b + " ", c);
  }

  /** A node whose lower-cased title contains one of the topic's terms, and
      whose year is within the given bounds, is returned. */
  lemma TitleMatchRetained(g: Graph, topic: string, start: Option<int>, end: Option<int>, n: Article, t: string)
    requires n in g.nodes && TopicTerms(topic).Some? && t in TopicTerms(topic).value
    requires Contains(Lower(n.title), t)
    requires StartOk(n, start) && EndOk(n, end)
    ensures n in Visible(g, topic, start, end).nodes
  {
    var pre := Join(n.searchKeywords, " ") + " " + Join(n.keywords, " ") + " ";
    NodeTextAroundTitle(n);
    ContainsInMiddle(Lower(pre), Lower(n.title), Lower(" " + n.shortAbstract), t);
    assert Matches(n, TopicTerms(topic).value);
    VisibleNodeIff(g, topic, start, end, n);
  }
}
