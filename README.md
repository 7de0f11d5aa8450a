# articles_graph core, modelled in Dafny

The model covers the article pipeline of `app.py`, a Flask service. The service:

- polls six bibliographic providers: ACS, RSC, Springer and Wiley through Crossref, Semantic Scholar, and a PubMed-like Crossref query;
- normalises every record into one article schema;
- removes duplicate identifiers;
- builds a co-authorship / shared-keyword graph;
- answers filtered reads of the stored graph and manual update requests.

The HTTP, network and file layers are replaced by explicit values:

- **Provider responses** are functions from a query to the items it returns (`Providers.CrossrefFetch`, `Providers.ScholarFetch`).
- **Runtime helpers** are fields of `Normalize.Runtime`: the current year, Python's `hash(title)` and `urllib.parse.quote`. A `Runtime` stands for one interpreter process. Python salts the `hash` of a string per process, so the identifiers built from it hold only within that process, and so does every property that compares two runs. These identifiers belong to Crossref records without a DOI (`prefix + hash(title)`) and to Semantic Scholar papers without a `paperId`.
- **Parsed query dates** are `Option<int>` parameters.
- **The stored graph** is a `Network.Graph` value.

Modules, in dependency order:

| module | file | what it models |
|---|---|---|
| `Wrappers` | wrappers.dfy | `Option`, `Result`, and a JSON member that may be absent, `null` or present |
| `Text` | text.dfy | Python `strip`, `lower`, `in`, `startswith`, `replace`, `split`, `join` over `seq<char>` |
| `Seqs` | seqs.dfy | order-preserving filtering (list comprehensions with an `if`) |
| `Articles` | articles.dfy | the article record, the six providers, their identifier prefixes |
| `Urls` | urls.dfy | `ensure_url` |
| `Normalize` | normalize.dfy | the per-item bodies of the six `search_*` functions |
| `Dedup` | dedup.dfy | "first occurrence of an identifier wins", as a specification |
| `Providers` | providers.dfy | the provider loops and `search_articles` |
| `Network` | graph.dfy | `build_citation_network` |
| `Query` | query.dfy | the filtering in `get_articles` |
| `Update` | update.dfy | the merge and report in `update_articles` |

The loops of the source are written as loops:

- the author loops and the per-provider loops with their `any(...)` identifier check;
- the dictionary loop of `search_articles`;
- the nested pair loops of `build_citation_network`;
- the topic loop of `get_articles`;
- the merge loop of `update_articles`.

Each loop is a `method` proved equal to a recursive specification function. The properties are proved about those functions.

`build_citation_network` compares articles through their lower-cased, trimmed author names and their lower-cased keywords and search keywords. The model reaches these keys through a `Keying`; `Network.Standard` is the keying the source uses. The pair loops and the link lemmas are proved for every keying. `Network.SameAuthorLinked` and `Network.SameKeywordLinked` state what the standard keying adds: names and keywords match regardless of ASCII case, and names also regardless of surrounding whitespace.

Some choices the code makes may surprise a reader; the model keeps each of them:

- **Year.** A Crossref year is the first element of the *first* `date-parts` entry when that element is truthy. A `0`, a `null` or an empty entry falls back to the current year; later entries are never read.
- **Skipped records.** A missing Crossref title becomes `"No title"`. A Crossref record is skipped when any of these holds:
  - the Springer search sees a publisher without "springer";
  - the title list is empty or `null`;
  - `created` or `date-parts` is `null`, or `date-parts` is empty;
  - the `author` list is `null`;
  - the abstract is `null`;
  - `is-referenced-by-count` is `null`.

  A Semantic Scholar paper is skipped when its `authors` list, abstract, citation count or `externalIds` is `null`.
- **ACS, RSC and Wiley keywords.** These providers do not add the journal name to `keywords`; the journal name appears only in `search_keywords`.
- **PubMed-like dedup.** The PubMed-like provider does no per-provider identifier check.
- **Null name parts.** A `null` `given` or `family` in a Crossref author entry prints as `None`: with a non-empty other part the entry is kept, as `"None Smith"`, and that text becomes an author key.
- **Self-loops.** `source != target` holds for every link only when the article identifiers are distinct. The code does not check this itself; the search path guarantees it.

## Model

| member | source | states |
|---|---|---|
| Text.StripStartSpec | app.py:94 | `lstrip` keeps a suffix that does not start with whitespace, and everything it drops is whitespace |
| Text.StripEndSpec | app.py:94 | `rstrip` keeps a prefix that does not end with whitespace, and everything it drops is whitespace |
| Text.StripSpec | app.py:607-608 | a stripped name never starts or ends with whitespace, is no longer than the input, and a name without surrounding whitespace is unchanged |
| Text.StripIdempotent | app.py:607-608 | stripping twice equals stripping once |
| Text.StripPadded | app.py:607-608 | whitespace around a string does not change what it strips to |
| Text.ContainsIff | app.py:37 | the substring test `t in s` holds exactly when `t` occurs at some index of `s` |
| Text.SplitJoin | app.py:511 | joining the pieces of `s.split(sep)` with `sep` gives back `s` |
| Text.ReplaceAbsent | app.py:38 | `replace` leaves a string without the pattern unchanged |
| Text.ReplaceSkipsHead | app.py:46 | a head none of whose characters starts the pattern passes through `replace` untouched |
| Text.LowerAppend | app.py:663-668 | lower-casing distributes over concatenation |
| Articles.IdsAppend | app.py:566-572 | the identifiers of a concatenation are the union of both sides' identifiers |
| Articles.NamespacesDisjoint | app.py:96 | identifiers built from two different provider prefixes never coincide, whatever follows the prefix |
| Urls.Rule | app.py:32-47 | the branch of `ensure_url` taken: an existing URL wins, a DOI comes next, the `Crossref` branch can never be taken, and the PubMed branch needs `pubmed_` in the id |
| Urls.EnsureUrl | app.py:30-50 | the resolved URL is never empty, an existing URL is returned unchanged, and without a URL a DOI gives exactly `https://doi.org/<doi>` |
| Urls.EnsureUrlIdempotent | app.py:115 | resolving again after storing the resolved URL returns that URL |
| Urls.PubmedLikeIdTakesPubmedBranch | app.py:37-39 | a `pubmed_like_` id without URL or DOI takes the PubMed branch and yields a `/like_…` PubMed path |
| Urls.SemanticLinkKeepsAdvPart | app.py:45-47 | a `semantic_adv_` id without URL or DOI yields a paper path that still starts with `adv_` |
| Urls.PubmedIdLink | app.py:37-39 | a `pubmed_` id without URL or DOI, whose rest has no second `pubmed_`, links to `https://pubmed.ncbi.nlm.nih.gov/<rest of the id>/` |
| Urls.ScholarSearchLink | app.py:49-50 | an article without URL or DOI whose id has no `pubmed_` or `arxiv_` part, and is not a Semantic Scholar `semantic_` id, links to `https://scholar.google.com/scholar?q=` + the quoted title |
| Urls.ArxivIdLink | app.py:40-42 | an `arxiv_` id without URL, DOI or `pubmed_` part, whose rest has no second `arxiv_`, links to `https://arxiv.org/abs/<rest of the id>` |
| Normalize.DisplayAbstract | app.py:101 | the shown abstract is the full one up to 500 characters, else its first 500 characters followed by `...` |
| Normalize.DisplayAbstractStable | app.py:101 | the shown abstract is at most 503 characters, starts like the full one, and shortening it again changes nothing |
| Normalize.CitationFloor | app.py:106 | `max(count, 1)` is at least 1 and equals the count whenever the count is at least 1 |
| Normalize.CrossrefTitle | app.py:81 | a missing title list gives `No title`, a `null` or empty list fails, otherwise the first element |
| Normalize.CrossrefYear | app.py:84-85 | a `null` or empty `date-parts` fails; a present, non-zero first component of the first entry is the year; a missing member, an empty first entry, or a first component that is `null` or `0` gives the current year |
| Normalize.AuthorNamesSnoc | app.py:89-94 | one more author entry adds its trimmed display name exactly when given or family name is non-empty |
| Normalize.NullNamePartPrintsNone | app.py:90-94 | an author entry with a `null` given name and a non-empty family name not ending in whitespace is kept, and its display name is `None ` + the family name |
| Normalize.CollectAuthors | app.py:89-94 | the author loop yields the trimmed names of the entries with a given or family name, in order |
| Normalize.CollectNames | app.py:416-419 | the Semantic Scholar author loop keeps the non-empty names, in order |
| Normalize.CrossrefArticle | app.py:80-115 | a Crossref work fails exactly on: <br>• a non-Springer publisher in the Springer search <br>• a failing title or year <br>• a `null` author list, abstract or citation count <br>Otherwise it carries: <br>• the title and year of those rules <br>• id `prefix + (doi or hash(title))` <br>• the untouched full abstract (`No abstract available` when missing) and the shortened display abstract <br>• citations `max(count, 1)`, with a missing count read as 1 <br>• the provider's journal and keywords, and the DOI <br>• a non-empty URL: the DOI link when there is a DOI; for a PubMed-like work without DOI, the Google Scholar query on the quoted title (app.py:518); for the other providers, `ensure_url` of the record (app.py:115) <br>• the provider's source name, the query as search keyword <br>• as authors, the named entries' trimmed names (PubMed-like: `Authors not specified` when there are none), and for PubMed-like works keywords that re-join to the query (app.py:499-518) |
| Normalize.ScholarArticle | app.py:408-440 | a Semantic Scholar paper fails exactly on a `null` author list, abstract, citation count or `externalIds`. Otherwise it carries: <br>• the title (`No title` when missing), year (the current year when missing) and venue (`Unknown` when missing) <br>• id `semantic_adv_` + the paper id, `hash(title)` when it is missing, `None` when it is `null` <br>• the untouched full abstract and the display abstract <br>• citations `max(count, 1)`, with a missing count read as 0 <br>• the DOI of `externalIds` <br>• a non-empty URL: `ensure_url` of the record carrying the paper URL (app.py:440), so the paper URL when there is one <br>• as authors, the non-empty author names in order <br>• the query as keyword and search keyword |
| Normalize.CrossProviderIdsDiffer | app.py:96 | works normalised by two different Crossref providers never share an identifier, even with equal titles and no DOI |
| Normalize.ScholarIdsDifferFromCrossref | app.py:421 | a Semantic Scholar identifier never equals an identifier from a Crossref provider |
| Dedup.FirstByIdSnoc | app.py:117-118 | appending an article keeps it exactly when its identifier has not been kept yet |
| Dedup.FirstByIdIds | app.py:566-572 | deduplication keeps every input identifier and no other |
| Dedup.FirstByIdDistinct | app.py:566-572 | the kept identifiers are pairwise distinct |
| Dedup.FirstByIdIsFirstOccurrences | app.py:566-572 | the kept articles are exactly the first occurrences of their identifiers, in input order |
| Dedup.FirstByIdOfDistinct | app.py:566-572 | input without repeated identifiers passes unchanged |
| Providers.CollectedSnoc | app.py:117-118 | one normalised candidate is appended exactly when it succeeded and (outside the PubMed-like search) its identifier is new |
| Providers.SearchCrossref | app.py:67-131 | the Crossref provider loop returns the specified result: for each query, each item normalised, then kept when its identifier is new (the PubMed-like search keeps every item, app.py:468-534) |
| Providers.SearchScholar | app.py:392-456 | the Semantic Scholar loop returns the first normalised paper per identifier over all queries, in order |
| Providers.MirrorsInsert | app.py:568-570 | inserting an unseen identifier keeps the dictionary, its insertion order and the kept list in step |
| Providers.DedupById | app.py:566-572 | the dictionary loop returns exactly the first article per identifier, in first-seen order |
| Providers.SearchArticles | app.py:536-575 | the aggregation returns the first article per identifier over ACS, RSC, Springer, Wiley, Semantic Scholar, PubMed-like, in that order; identifiers are distinct and every found identifier is present |
| Network.PairLinks | app.py:606-632 | every link of a pair runs from the first article's id to the second's |
| Network.KindLinkMeaning | app.py:611-632 | a pair has at most one link of a kind, present exactly when the two key sets intersect, carrying the intersection and its strength |
| Network.PairLinksMeaning | app.py:606-632 | for each kind: a link exists exactly when the keys intersect; it carries the common keys and strength 2·n for authors, n for keywords; at most two links, of different kinds |
| Network.NodeViews | app.py:583-598 | one node per article in article order, with the same id, a non-empty URL, the article's URL when it had one, and otherwise the article's own fields |
| Network.NodeViewsIds | app.py:583-598 | the node views carry exactly the articles' identifiers |
| Network.VisitPair | app.py:604-632 | the inner loop body adds nothing when `i >= j`, otherwise exactly the pair's links, author link first |
| Network.CreateNodes | app.py:583-598 | the node loop returns the node views |
| Network.CreateRowLinks | app.py:602-632 | one pass of the inner loop appends the links of pairs (i, j) for every later j, in increasing j |
| Network.CreateLinks | app.py:601-632 | the nested loops return the links of every pair i < j, in loop order |
| Network.BuildCitationNetwork | app.py:577-634 | the graph holds the node views and the links of the source's keying |
| Network.RowEnds | app.py:601-604 | the links of row i leave article i and end at an article before the row's bound |
| Network.LinksUpToSources | app.py:601-604 | the links of the first m rows leave one of the first m articles |
| Network.RowNoRepeat | app.py:602-604 | with distinct ids, a row never repeats a (source, target, kind) edge |
| Network.LinksUpToNoRepeat | app.py:601-604 | with distinct ids, no (source, target, kind) edge is emitted twice |
| Network.PairsSound | app.py:606-632 | the per-pair links are oriented and never repeat a kind |
| Network.LinkOrigin | app.py:601-604 | every link comes from a pair of positions i < j and joins their identifiers |
| Network.LinksComplete | app.py:601-604 | every pair i < j contributes all of its links |
| Network.NoSelfLoops | app.py:601-604 | with distinct ids, no link joins an article to itself, and both ends are article identifiers |
| Network.LinkIff | app.py:606-632 | for positions i < j and a kind: a link i→j exists exactly when the pair shares a key of that kind; it carries the shared keys and their strength; no link runs j→i |
| Network.AtMostOneLinkPerPair | app.py:601-632 | with distinct ids, two links of the same kind never join the same two articles, in either direction |
| Network.AuthorKeyIgnoresCaseAndPadding | app.py:607-608 | author names that differ only in ASCII case and surrounding whitespace have the same key |
| Network.SameAuthorLinked | app.py:607-619 | two articles listing the same author up to case and surrounding whitespace are joined by an author link carrying that author's key |
| Network.SameKeywordLinked | app.py:621-632 | two articles whose keywords or search keywords share one up to case are joined by a keyword link carrying it lower-cased |
| Network.PairLinkPresent | app.py:609-632 | whatever the identifiers, a pair i < j sharing a key of a kind contributes a link of that kind carrying the shared keys |
| Query.TopicTerms | app.py:653-660 | exactly the topics `copolymer`, `barrier`, `model` have search terms, and each topic's terms include the topic itself |
| Query.FilterTopic | app.py:661-672 | the topic loop keeps, in order, exactly the nodes whose lower-cased text contains one of the terms |
| Query.GetArticles | app.py:641-694 | the response is the topic step, then the start-year step, then the end-year step, then the links with both ends among the kept nodes |
| Query.ByTopicIsFilter | app.py:653-672 | the topic step filters by topic, and `all` or an unknown topic keeps every node |
| Query.ByStartIsFilter | app.py:674-679 | the start step keeps the nodes from the start year on, or all nodes without a parsed start date |
| Query.ByEndIsFilter | app.py:681-686 | the end step keeps the nodes up to the end year, or all nodes without a parsed end date |
| Query.VisibleNodes | app.py:653-686 | the returned nodes are the selected stored nodes, in stored order |
| Query.VisibleNodeIff | app.py:653-686 | a stored node is returned exactly when it matches the topic and its year lies within the given bounds |
| Query.VisibleLinkIff | app.py:688-692 | a stored link is returned exactly when both ends are returned nodes |
| Query.VisibleIdempotent | app.py:653-692 | filtering the response again with the same parameters changes nothing |
| Query.NodeTextAroundTitle | app.py:663-668 | the searched text is the lower-cased title with lower-cased text around it |
| Query.TitleMatchRetained | app.py:661-671 | a node whose lower-cased title contains one of the topic's terms, with its year in range, is returned |
| Update.SourceSet | app.py:724 | the set of sources is empty exactly when no article was added |
| Update.MergeNew | app.py:712-719 | the merge loop returns the stored articles followed by the found articles whose identifier was not stored, in found order |
| Update.UpdateArticles | app.py:697-731 | missing dates give the error `Start date and end date are required`; otherwise the number added, the total, the sources and the saved graph of the merged list |
| Update.MergeShape | app.py:712-719 | the stored articles stay in front unchanged; the appended ones are exactly the found articles with an unstored identifier; every stored or found identifier is present |
| Update.MergeIdempotent | app.py:712-719 | merging the same batch again adds nothing |
| Update.FilterDistinct | app.py:716-719 | keeping part of a list with distinct identifiers keeps them distinct |
| Update.DistinctAppend | app.py:712-719 | appending articles whose identifiers are new keeps identifiers distinct |
| Update.MergeDistinct | app.py:712-719 | a merge of distinct stored and distinct found identifiers has distinct identifiers |
| Update.UpdateSound | app.py:708-731 | after a successful update over distinct stored ids: <br>• total = stored + added <br>• no sources exactly when nothing was added <br>• the saved nodes hold each stored and each found identifier once <br>• no saved link is a self-loop, and every link's ends are saved nodes |
| Update.UpdateAgainAddsNothing | app.py:708-731 | in the same process (one `Runtime`), updating the saved graph again with the same search results adds nothing, reports no sources and keeps the total |

## Left out

- **HTTP layer.** Flask routing, `request.args`, `jsonify`, CORS and the index page are HTTP plumbing. The handlers are methods over explicit inputs, and their responses are values.
- **Network.** `requests.get`, JSON decoding, timeouts, the rate-limit `continue` and `time.sleep` are network I/O. A failing, malformed or rate-limited query contributes no items: the fetch function returns the empty list for it.
- **Persistence.** `load_articles` and `save_articles` are file I/O. The stored graph is a parameter, and the graph that would be saved is part of the update outcome.
- **Logging.** `print` has no effect on results.
- **Runtime helpers.** `hash(title)`, `urllib.parse.quote` and `datetime.now().year` are opaque in the model; they are fields of `Normalize.Runtime`.
- **Date parsing.** `datetime.strptime` is modelled by its outcome: a start or end date that is missing, empty or unparsable is `None`, which skips that filter, as the `except ValueError: pass` does.
- **The `published` field.** `build_citation_network` never copies it into the stored node views, so it never reaches the graph.
- **Absent DOI.** A stored node has no `doi` key. It is written as `""`, because the code only tests the DOI for truthiness.
- **Unicode.** `Text.Lower` lower-cases ASCII letters only. Python's `str.lower` also folds non-ASCII letters.
- **JSON nulls and other exceptions.** The model covers the nulls that make the source skip a record; it lists them in the Year and Skipped records items above. A null paper id gives the text `None`. The typed records do not capture these other cases:
  - A null element inside a list, for example a `null` first title or a `null` author entry.
  - A value of the wrong JSON type.
  - The outer `except Exception` of `update_articles`.
- Normalize.ScholarArticle: a `null` Semantic Scholar `title`, `year` or `venue` is not modelled. The source stores such a record with `None` in that field (app.py:410-413), because `.get` returns the null. Here a missing and a `null` member are both read as absent, so the defaults apply.
- Query.GetArticles: the failures a stored `None` causes are not modelled. With a known topic, a `None` title makes the `' '.join` of app.py:663-668 raise a `TypeError`. With a parsed start or end date, a `None` year makes the comparison of app.py:677 or app.py:684 raise a `TypeError`, which `except ValueError` does not catch. Either way the request fails instead of answering.
- **Network.BuildCitationNetwork:** it does not write the resolved URL back into the caller's article dictionaries. Articles are values; only the node views carry the resolved URL.
- **Network.Link:** `common` is a set. The order of the `common_authors` / `common_keywords` lists is Python's set iteration order, and it is not modelled. The same holds for `sources` in `Update.UpdateOutcome`: `update_articles` answers `list(set(...))` (app.py:724), and the model keeps only the set.
- Update.UpdateAgainAddsNothing: holds only for two updates in one process. After a restart, `hash(title)` changes, so a record with no DOI or `paperId` gets a new identifier and is appended again.
- **Update.UpdateArticles:** the success message `Added N new articles from <start> to <end>` is not built as text. The outcome carries N and the total; the dates appear only in that message and in a log line.
- **Per-query row limits.** The limits (`rows=15`, `limit=8`, …) and the unused `days_back` parameters belong to the request URLs, which the fetch functions stand in for.
