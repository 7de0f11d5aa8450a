/** `ensure_url`: the link every article must carry. */
module Urls {
  import opened Text
  import opened Articles

  /** Which branch of the `if`/`elif` chain of `ensure_url` answers. */
  datatype UrlRule =
    | KeepUrl          // the article already has a URL
    | DoiLink          // https://doi.org/<doi>
    | PubmedLink       // the id contains "pubmed_"
    | ArxivLink        // the id contains "arxiv_"
    | CrossrefDoiLink  // source "Crossref" with a DOI
    | SemanticLink     // source "Semantic Scholar", id starting with "semantic_"
    | ScholarSearch    // Google Scholar query on the title

  /** The branch taken, tested in the source's order. The Crossref branch is
      dead: its DOI test already succeeded two branches earlier. */
  function Rule(a: Article): (r: UrlRule)
    ensures r != CrossrefDoiLink
    ensures r == KeepUrl <==> a.url != ""
    ensures r == DoiLink <==> a.url == "" && a.doi != ""
    ensures r == PubmedLink ==> Contains(a.id, "pubmed_")
  {
    if a.url != "" then KeepUrl
    else if a.doi != "" then DoiLink
    else if Contains(a.id, "pubmed_") then PubmedLink
    else if Contains(a.id, "arxiv_") then ArxivLink
    else if a.source == "Crossref" && a.doi != "" then CrossrefDoiLink
    else if a.source == "Semantic Scholar" && StartsWith(a.id, "semantic_") then SemanticLink
    else ScholarSearch
  }

  /** `ensure_url(article)`; `quote` is `urllib.parse.quote`. */
  function EnsureUrl(a: Article, quote: string -> string): (r: string)
    ensures r != ""
    ensures a.url != "" ==> r == a.url
    ensures a.url == "" && a.doi != "" ==> r == "https://doi.org/" + a.doi
  {
    match Rule(a)
    case KeepUrl => a.url
    case DoiLink => "https://doi.org/" + a.doi
    case PubmedLink => "https://pubmed.ncbi.nlm.nih.gov/" + Replace(a.id, "pubmed_", "") + "/"
    case ArxivLink => "https://arxiv.org/abs/" + Replace(a.id, "arxiv_", "")
    case CrossrefDoiLink => "https://doi.org/" + a.doi
    case SemanticLink => "https://www.semanticscholar.org/paper/" + Replace(a.id, "semantic_", "")
    case ScholarSearch => "https://scholar.google.com/scholar?q=" + quote(a.title)
  }

  /** Storing the resolved URL and resolving again changes nothing. */
  lemma EnsureUrlIdempotent(a: Article, quote: string -> string)
    ensures var b := a.(url := EnsureUrl(a, quote));
            EnsureUrl(b, quote) == b.url
  {
  }

  /** The substring test also catches the "pubmed_like_" namespace: such an
      article without URL or DOI gets a PubMed link built from the rest of its id. */
  lemma PubmedLikeIdTakesPubmedBranch(a: Article, rest: string, quote: string -> string)
    requires a.url == "" && a.doi == "" && a.id == "pubmed_like_" + rest
    ensures Rule(a) == PubmedLink
    ensures EnsureUrl(a, quote) == "https://pubmed.ncbi.nlm.nih.gov/like_" + Replace(rest, "pubmed_", "") + "/"
  {
    assert StartsWith(a.id, "pubmed_");
    assert a.id == "pubmed_" + ("like_" + rest);
    assert a.id[|"pubmed_"|..] == "like_" + rest;
    ReplaceSkipsHead("like_", rest, "pubmed_", "");
  }

  /** A Semantic Scholar article without URL, DOI or a "pubmed_"/"arxiv_" part
      links to a paper page whose path still carries the "adv_" of its namespace. */
  lemma SemanticLinkKeepsAdvPart(a: Article, paper: string, quote: string -> string)
    requires a.url == "" && a.doi == "" && a.source == "Semantic Scholar"
    requires a.id == "semantic_adv_" + paper
    requires !Contains(a.id, "pubmed_") && !Contains(a.id, "arxiv_")
    ensures Rule(a) == SemanticLink
    ensures EnsureUrl(a, quote) == "https://www.semanticscholar.org/paper/adv_" + Replace(paper, "semantic_", "")
  {
    assert StartsWith(a.id, "semantic_");
    assert a.id == "semantic_" + ("adv_" + paper);
    assert a.id[|"semantic_"|..] == "adv_" + paper;
    ReplaceSkipsHead("adv_", paper, "semantic_", "");
  }

  /** A "pubmed_" id without URL or DOI links to the PubMed page of the rest
      of the id, when that rest has no second "pubmed_". */
  lemma PubmedIdLink(a: Article, rest: string, quote: string -> string)
    requires a.url == "" && a.doi == "" && a.id == "pubmed_" + rest
    requires !Contains(rest, "pubmed_")
    ensures Rule(a) == PubmedLink
    ensures EnsureUrl(a, quote) == "https://pubmed.ncbi.nlm.nih.gov/" + rest + "/"
  {
    assert StartsWith(a.id, "pubmed_");
    assert a.id[|"pubmed_"|..] == rest;
    ReplaceAbsent(rest, "pubmed_", "");
  }

  /** An "arxiv_" id without URL, DOI or a "pubmed_" part links to the arXiv
      abstract page of the rest of the id, when that rest has no second "arxiv_". */
  lemma ArxivIdLink(a: Article, rest: string, quote: string -> string)
    requires a.url == "" && a.doi == "" && a.id == "arxiv_" + rest
    requires !Contains(a.id, "pubmed_") && !Contains(rest, "arxiv_")
    ensures Rule(a) == ArxivLink
    ensures EnsureUrl(a, quote) == "https://arxiv.org/abs/" + rest
  {
    assert StartsWith(a.id, "arxiv_");
    assert a.id[|"arxiv_"|..] == rest;
    ReplaceAbsent(rest, "arxiv_", "");
  }

  /** The last resort: an article without URL or DOI whose id names no
      PubMed, arXiv or Semantic Scholar record links to a Google Scholar
      search for its title. */
  lemma ScholarSearchLink(a: Article, quote: string -> string)
    requires a.url == "" && a.doi == ""
    requires !Contains(a.id, "pubmed_") && !Contains(a.id, "arxiv_")
    requires !(a.source == "Semantic Scholar" && StartsWith(a.id, "semantic_"))
    ensures Rule(a) == ScholarSearch
    ensures EnsureUrl(a, quote) == "https://scholar.google.com/scholar?q=" + quote(a.title)
  {
  }
}
