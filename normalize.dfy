/** The per-item bodies of the `search_*` functions: one raw provider record to
    one canonical article, or a reason the record is skipped. */
module Normalize {
  import opened Wrappers
  import opened Text
  import opened Seqs
  import opened Articles
  import opened Urls

  /** What a normaliser reads from the running interpreter: `datetime.now().year`,
      the decimal text of Python's `hash(title)`, and `urllib.parse.quote`. */
  datatype Runtime = Runtime(currentYear: int, hash: string -> string, quote: string -> string)

  /** The providers that answer with Crossref works. */
  type CrossrefSource = p: Provider | p != SemanticScholar witness Acs

  /** One entry of a Crossref `author` list. */
  datatype Person = Person(given: Json<string>, family: Json<string>)

  /** A name part as `author.get(key, '')` leaves it and an f-string prints it:
      "" when missing, "None" when null. */
  function Shown(part: Json<string>): string {
    match part
    case Absent => ""
    case Null => "None"
    case Present(v) => v
  }

  /** A name part is truthy when it is a non-empty string; "" and None are not. */
  predicate Truthy(part: Json<string>) {
    part.Present? && part.value != ""
  }

  /** A Crossref work, as far as the normaliser reads it. A missing or null
      `DOI` is "", and so is a missing `publisher`: the Springer search skips a
      work whose publisher is null just as it skips a non-Springer one. */
  datatype CrossrefItem = CrossrefItem(
    title: Json<seq<string>>,                     // `title`, a list of strings
    summary: Json<string>,                        // `abstract`
    dateParts: Json<seq<seq<Option<int>>>>,       // `created` -> `date-parts`; Null when either is null
    doi: string,
    authors: Json<seq<Person>>,                   // `author`
    referencedBy: Json<int>,                      // `is-referenced-by-count`
    publisher: string,
    containerTitle: Option<seq<string>>)          // `container-title`, a list; None when missing, null or empty

  /** A Semantic Scholar paper. A missing or null `url` is "", and so are a
      null `DOI` inside `externalIds` and a missing or null author `name`. */
  datatype ScholarPaper = ScholarPaper(
    paperId: Json<string>,
    title: Option<string>,
    summary: Json<string>,                        // `abstract`
    year: Option<int>,
    venue: Option<string>,
    citationCount: Json<int>,
    authorNames: Json<seq<string>>,               // the `name` of each entry of `authors`
    externalDoi: Json<string>,                    // `externalIds` -> `DOI`; Null when `externalIds` is null
    url: string)

  /** Why a raw record yields no article: the Springer publisher test, or the
      exception the record raises (an `IndexError` on an empty list, a
      `TypeError` or `AttributeError` on a null). */
  datatype Skip =
    | NotSpringer | NullTitle | EmptyTitleList | NullDateParts | EmptyDateParts
    | NullAuthors | NullAbstract | NullCitationCount | NullExternalIds

  const AbstractLimit: nat := 500

  /** The `abstract` shown for a full abstract. */
  function DisplayAbstract(full: string): (r: string)
    ensures |full| <= AbstractLimit ==> r == full
    ensures |full| > AbstractLimit ==> r == full[..AbstractLimit] + "..."
  {
    if |full| > AbstractLimit then full[..AbstractLimit] + "..." else full
  }

  /** The shown abstract is never longer than 503 characters, keeps the start of
      the full one, and shortening it again changes nothing. */
  lemma DisplayAbstractStable(full: string)
    ensures |DisplayAbstract(full)| <= AbstractLimit + 3
    ensures var n := if |full| < AbstractLimit then |full| else AbstractLimit;
            DisplayAbstract(full)[..n] == full[..n]
    ensures DisplayAbstract(DisplayAbstract(full)) == DisplayAbstract(full)
  {
    if |full| > AbstractLimit {
      var r := DisplayAbstract(full);
      assert r[..AbstractLimit] == full[..AbstractLimit];
    }
  }

  /** `max(count, 1)`. */
  function CitationFloor(count: int): (r: int)
    ensures r >= 1
    ensures r == count || (count < 1 && r == 1)
  {
    if count >= 1 then count else 1
  }

  /** `item.get('title', ['No title'])[0]`: a null title raises a
      `TypeError`, an empty list an `IndexError`. */
  function CrossrefTitle(title: Json<seq<string>>): (r: Result<string, Skip>)
    ensures r.Err? <==> title.Null? || title == Present([])
    ensures title.Absent? ==> r == Ok("No title")
    ensures title.Present? && title.value != [] ==> r == Ok(title.value[0])
  {
    match title
    case Absent => Ok("No title")
    case Null => Err(NullTitle)
    case Present(ts) => if ts == [] then Err(EmptyTitleList) else Ok(ts[0])
  }

  /** `published[0] if published and published[0] else datetime.now().year`,
      where `published` is the first `date-parts` entry, `[None]` when the
      member is missing. A null member raises, and so does an empty list. */
  function CrossrefYear(dateParts: Json<seq<seq<Option<int>>>>, now: int): (r: Result<int, Skip>)
    ensures r.Err? <==> dateParts.Null? || dateParts == Present([])
    ensures dateParts.Present? && dateParts.value != [] && dateParts.value[0] != []
            && dateParts.value[0][0].Some? && dateParts.value[0][0].value != 0
            ==> r == Ok(dateParts.value[0][0].value)
    ensures dateParts.Absent? ==> r == Ok(now)
    ensures dateParts.Present? && dateParts.value != []
            && (dateParts.value[0] == [] || dateParts.value[0][0] in {None, Some(0)})
            ==> r == Ok(now)
  {
    match dateParts
    case Absent => Ok(now)
    case Null => Err(NullDateParts)
    case Present(parts) =>
      if parts == [] then Err(EmptyDateParts)
      else
        var first := parts[0];
        if first != [] && first[0].Some? && first[0].value != 0 then Ok(first[0].value) else Ok(now)
  }

  /** An author entry is kept when its given or family name is non-empty. */
  const IsNamed: Person -> bool := (p: Person) => Truthy(p.given) || Truthy(p.family)

  /** `f"{given} {family}".strip()`. */
  function DisplayName(p: Person): string {
    Strip(Shown(p.given) + " " + Shown(p.family))
  }

  /** The display names of the named entries, in their order. */
  function AuthorNames(people: seq<Person>): seq<string> {
    var named := Filter(people, IsNamed);
    seq(|named|, k requires 0 <= k < |named| => DisplayName(named[k]))
  }

  lemma AuthorNamesSnoc(people: seq<Person>, i: nat)
    requires i < |people|
    ensures AuthorNames(people[..i + 1])
            == AuthorNames(people[..i]) + (if IsNamed(people[i]) then [DisplayName(people[i])] else [])
  {
    FilterSnoc(people, i, IsNamed);
    var before := Filter(people[..i], IsNamed);
    var after := Filter(people[..i + 1], IsNamed);
    var expected := AuthorNames(people[..i]) + (if IsNamed(people[i]) then [DisplayName(people[i])] else []);
    assert |AuthorNames(people[..i + 1])| == |expected|;
    forall k | 0 <= k < |expected|
      ensures AuthorNames(people[..i + 1])[k] == expected[k]
    {
      if k < |before| {
        assert after[k] == before[k];
      }
    }
  }

  /** A null name part next to a non-empty one is kept, and prints as "None":
      an entry with a null `given` and family "Smith" becomes "None Smith". */
  lemma NullNamePartPrintsNone(family: string)
    requires family != "" && !IsSpace(family[|family| - 1])
    ensures IsNamed(Person(Null, Present(family)))
    ensures DisplayName(Person(Null, Present(family))) == "None " + family
  {
    var s := "None " + family;
    assert s[|s| - 1] == family[|family| - 1];
    StripSpec(s);
  }

  /** The author loop of a Crossref record. */
  method CollectAuthors(people: seq<Person>) returns (names: seq<string>)
    ensures names == AuthorNames(people)
  {
    names := [];
    for i := 0 to |people|
      invariant names == AuthorNames(people[..i])
    {
      var p := people[i];
      AuthorNamesSnoc(people, i);
      if Truthy(p.given) || Truthy(p.family) {
        names := names + [DisplayName(p)];
      }
    }
    assert people[..|people|] == people;
  }

  /** A Semantic Scholar author is kept when its name is non-empty. */
  const HasText: string -> bool := (s: string) => s != ""

  /** The author loop of a Semantic Scholar paper. */
  method CollectNames(authorNames: seq<string>) returns (names: seq<string>)
    ensures names == Filter(authorNames, HasText)
  {
    names := [];
    for i := 0 to |authorNames|
      invariant names == Filter(authorNames[..i], HasText)
    {
      FilterSnoc(authorNames, i, HasText);
      if authorNames[i] != "" {
        names := names + [authorNames[i]];
      }
    }
    assert authorNames[..|authorNames|] == authorNames;
  }

  /** `lst[0] if lst else default` for an optional list. */
  function FirstOr(list: Option<seq<string>>, default: string): string {
    if list.Some? && list.value != [] then list.value[0] else default
  }

  /** The topical tags each provider attaches. */
  function Keywords(p: Provider, query: string): seq<string> {
    match p
    case Acs => ["ACS", "chemistry", "polymer", "material science"]
    case Rsc => ["RSC", "chemistry", "polymer", "material science"]
    case Springer => [query, "polymer", "chemistry"]
    case Wiley => ["Wiley", "polymer", "applied science"]
    case SemanticScholar => [query]
    case PubmedLike => Split(query, " AND ")
  }

  /** The journal name: the queried journal, or the work's first container title. */
  function CrossrefJournal(p: CrossrefSource, query: string, item: CrossrefItem): string {
    match p
    case Springer => FirstOr(item.containerTitle, "Springer Journal")
    case PubmedLike => FirstOr(item.containerTitle, "PubMed-like Journal")
    case _ => query
  }

  /** `publisher.lower()` contains "springer". */
  predicate FromSpringer(item: CrossrefItem) {
    Contains(Lower(item.publisher), "springer")
  }

  /** The entries of the `author` list; none when it is missing. */
  function People(item: CrossrefItem): seq<Person> {
    item.authors.GetOr([])
  }

  /** The `authors` of a Crossref record, from the result of its author loop:
      the PubMed-like search puts a placeholder in an empty list. */
  function CrossrefAuthors(p: CrossrefSource, names: seq<string>): seq<string> {
    if p == PubmedLike && names == [] then ["Authors not specified"] else names
  }

  /** One Crossref work normalised, given the result of its author loop. The
      checks come in the order the source raises: title, date, author list,
      abstract, citation count. */
  function CrossrefRecord(p: CrossrefSource, query: string, item: CrossrefItem, names: seq<string>,
                          rt: Runtime): Result<Article, Skip>
  {
    if p == Springer && !FromSpringer(item) then Err(NotSpringer)
    else match CrossrefTitle(item.title)
    case Err(e) => Err(e)
    case Ok(title) =>
      match CrossrefYear(item.dateParts, rt.currentYear)
      case Err(e) => Err(e)
      case Ok(year) =>
        if item.authors.Null? then Err(NullAuthors)
        else if item.summary.Null? then Err(NullAbstract)
        else if item.referencedBy.Null? then Err(NullCitationCount)
        else
          var full := item.summary.GetOr("No abstract available");
          var id := Prefix(p) + (if item.doi != "" then item.doi else rt.hash(title));
          var a := Article(id, title, DisplayAbstract(full), full, year, CrossrefJournal(p, query, item),
                           Keywords(p, query), CitationFloor(item.referencedBy.GetOr(1)), item.doi,
                           [query], CrossrefAuthors(p, names), SourceName(p), "");
          if p == PubmedLike then
            Ok(a.(url := if item.doi != "" then "https://doi.org/" + item.doi
                         else "https://scholar.google.com/scholar?q=" + rt.quote(title)))
          else
            Ok(a.(url := EnsureUrl(a, rt.quote)))
  }

  /** One Crossref work normalised by provider `p` for `query`. */
  function CrossrefArticle(p: CrossrefSource, query: string, item: CrossrefItem, rt: Runtime): (r: Result<Article, Skip>)
    ensures r.Err? <==> || (p == Springer && !FromSpringer(item))
                        || CrossrefTitle(item.title).Err? || CrossrefYear(item.dateParts, rt.currentYear).Err?
                        || item.authors.Null? || item.summary.Null? || item.referencedBy.Null?
    ensures r.Ok? ==>
      var a := r.value;
      && CrossrefTitle(item.title) == Ok(a.title)
      && CrossrefYear(item.dateParts, rt.currentYear) == Ok(a.year)
      && a.id == Prefix(p) + (if item.doi != "" then item.doi else rt.hash(a.title))
      && a.fullAbstract == item.summary.GetOr("No abstract available")
      && a.shortAbstract == DisplayAbstract(a.fullAbstract)
      && a.citationCount == CitationFloor(item.referencedBy.GetOr(1))
      && a.journal == CrossrefJournal(p, query, item)
      && a.keywords == Keywords(p, query)
      && a.doi == item.doi
      && a.url != ""
      && (item.doi != "" ==> a.url == "https://doi.org/" + item.doi)
      && (p == PubmedLike && item.doi == "" ==> a.url == "https://scholar.google.com/scholar?q=" + rt.quote(a.title))
      && (p != PubmedLike ==> a.url == EnsureUrl(a.(url := ""), rt.quote))
      && a.source == SourceName(p) && a.searchKeywords == [query]
      && (p == PubmedLike ==> a.authors != [] && Join(a.keywords, " AND ") == query)
      && (p != PubmedLike || AuthorNames(People(item)) != [] ==> a.authors == AuthorNames(People(item)))
      && (p == PubmedLike && AuthorNames(People(item)) == [] ==> a.authors == ["Authors not specified"])
  {
    SplitJoin(query, " AND ");
    CrossrefRecord(p, query, item, AuthorNames(People(item)), rt)
  }

  /** The author names of a paper; none when `authors` is missing. */
  function Names(paper: ScholarPaper): seq<string> {
    paper.authorNames.GetOr([])
  }

  /** The text after `semantic_adv_`: the paper id, `hash(title)` when it is
      missing, and `None` when it is null. */
  function ScholarKey(paper: ScholarPaper, title: string, rt: Runtime): string {
    match paper.paperId
    case Absent => rt.hash(title)
    case Null => "None"
    case Present(v) => v
  }

  /** One Semantic Scholar paper normalised, given the result of its author
      loop. The checks come in the order the source raises: author list,
      abstract, citation count, `externalIds`. */
  function ScholarRecord(query: string, paper: ScholarPaper, names: seq<string>, rt: Runtime): Result<Article, Skip> {
    var title := paper.title.GetOr("No title");
    if paper.authorNames.Null? then Err(NullAuthors)
    else if paper.summary.Null? then Err(NullAbstract)
    else if paper.citationCount.Null? then Err(NullCitationCount)
    else if paper.externalDoi.Null? then Err(NullExternalIds)
    else
      var full := paper.summary.GetOr("No abstract available");
      var a := Article(Prefix(SemanticScholar) + ScholarKey(paper, title, rt), title, DisplayAbstract(full), full,
                       paper.year.GetOr(rt.currentYear), paper.venue.GetOr("Unknown"), [query],
                       CitationFloor(paper.citationCount.GetOr(0)), paper.externalDoi.GetOr(""), [query], names,
                       SourceName(SemanticScholar), paper.url);
      Ok(a.(url := EnsureUrl(a, rt.quote)))
  }

  /** One Semantic Scholar paper normalised for `query`. */
  function ScholarArticle(query: string, paper: ScholarPaper, rt: Runtime): (r: Result<Article, Skip>)
    ensures r.Err? <==> paper.authorNames.Null? || paper.summary.Null? || paper.citationCount.Null?
                        || paper.externalDoi.Null?
    ensures r.Ok? ==>
      var a := r.value;
      && a.title == paper.title.GetOr("No title")
      && (paper.paperId.Present? ==> a.id == Prefix(SemanticScholar) + paper.paperId.value)
      && (paper.paperId.Absent? ==> a.id == Prefix(SemanticScholar) + rt.hash(a.title))
      && (paper.paperId.Null? ==> a.id == Prefix(SemanticScholar) + "None")
      && a.fullAbstract == paper.summary.GetOr("No abstract available")
      && a.shortAbstract == DisplayAbstract(a.fullAbstract)
      && a.year == paper.year.GetOr(rt.currentYear)
      && a.journal == paper.venue.GetOr("Unknown")
      && a.citationCount == CitationFloor(paper.citationCount.GetOr(0))
      && a.doi == paper.externalDoi.GetOr("")
      && a.url != ""
      && (paper.url != "" ==> a.url == paper.url)
      && a.url == EnsureUrl(a.(url := paper.url), rt.quote)
      && a.authors == Filter(Names(paper), HasText)
      && a.source == SourceName(SemanticScholar) && a.keywords == a.searchKeywords == [query]
  {
    ScholarRecord(query, paper, Filter(Names(paper), HasText), rt)
  }

  /** Records of different providers never share an identifier, even for the
      same title without a DOI. */
  lemma CrossProviderIdsDiffer(p: CrossrefSource, q: CrossrefSource, query1: string, query2: string,
                               item1: CrossrefItem, item2: CrossrefItem, rt: Runtime)
    requires p != q
    requires CrossrefArticle(p, query1, item1, rt).Ok? && CrossrefArticle(q, query2, item2, rt).Ok?
    ensures CrossrefArticle(p, query1, item1, rt).value.id != CrossrefArticle(q, query2, item2, rt).value.id
  {
    var a, b := CrossrefArticle(p, query1, item1, rt).value, CrossrefArticle(q, query2, item2, rt).value;
    NamespacesDisjoint(p, q, a.id[|Prefix(p)|..], b.id[|Prefix(q)|..]);
    assert a.id == Prefix(p) + a.id[|Prefix(p)|..];
    assert b.id == Prefix(q) + b.id[|Prefix(q)|..];
  }

  /** A Semantic Scholar identifier never equals a Crossref-provider identifier. */
  lemma ScholarIdsDifferFromCrossref(p: CrossrefSource, query1: string, query2: string,
                                     item: CrossrefItem, paper: ScholarPaper, rt: Runtime)
    requires CrossrefArticle(p, query1, item, rt).Ok? && ScholarArticle(query2, paper, rt).Ok?
    ensures CrossrefArticle(p, query1, item, rt).value.id != ScholarArticle(query2, paper, rt).value.id
  {
    var a, b := CrossrefArticle(p, query1, item, rt).value, ScholarArticle(query2, paper, rt).value;
    var s := Prefix(SemanticScholar);
    NamespacesDisjoint(p, SemanticScholar, a.id[|Prefix(p)|..], b.id[|s|..]);
    assert a.id == Prefix(p) + a.id[|Prefix(p)|..];
    assert b.id == s + b.id[|s|..];
  }
}
