/**
 * `search_dblp` and `search_papers`: one DBLP search per keyword, each hit
 * turned into a paper record (title, authors, year, BibTeX), and the batch
 * endpoint's flattening of all keywords' papers into one list of display
 * items.
 *
 * The search request is an oracle from the query and the requested number of
 * hits to a reply; the JSON it carries is already decoded into `Info`
 * records. The BibTeX fetch is the oracle of `Fetch`.
 */
module Search {
  import opened Wrappers
  import opened Text
  import opened Authors
  import opened Fetch
  import opened Synth

  /**
   * The members of a hit's `info` object that the code reads. `None` is a
   * member that is absent; for `url` and `key` it is also one that is `null`,
   * which `info.get` does not tell apart.
   */
  datatype Info = Info(
    title: Option<string>,   // `title`, a string when present
    authors: Field,          // `authors`
    year: Option<string>,    // `year`, as `str()` renders it
    url: Option<string>,     // `url`, a string when present
    key: Option<string>)     // `key`, as `str()` renders it

  /**
   * One element of the hit collection. `Unreadable` is a hit whose processing
   * raises (a hit or `info` that is not an object, or a `url` that is present,
   * truthy and not a string), which ends the hit loop.
   */
  datatype Hit = Unreadable | HitInfo(info: Info)

  /** `result.hits.hit`: a list of hits, or a single hit object. */
  datatype HitCollection = HitArray(hits: seq<Hit>) | HitObject(hit: Hit)

  /** The decoded reply body; `Undecodable` when `r.json()` or the probing of `result.hits` raises. */
  datatype Payload = Undecodable | Decoded(collection: HitCollection)

  /** What the search request yields; `TransportFailure` when it raises. */
  datatype SearchReply = TransportFailure | Reply(status: int, payload: Payload)

  /** The search endpoint, queried with the keyword and the number of hits asked for. */
  type Searcher = (string, int) -> SearchReply

  /** A paper dictionary built by `search_dblp`. */
  datatype Paper = Paper(title: string, authors: seq<string>, year: Option<string>, bibtex: string)

  /** One element of the batch endpoint's `results`. */
  datatype ResultItem = ResultItem(title: string, authors: string, year: string, bibtex: string)

  /** The batch endpoint's reply. */
  datatype BatchResponse = BatchResponse(total: nat, results: seq<ResultItem>)

  // ---------------------------------------------------------------------------
  // search_dblp

  /** The hit collection as a list: a single hit object counts as one hit. */
  function HitList(c: HitCollection): (hits: seq<Hit>)
    ensures c.HitObject? ==> |hits| == 1
  {
    match c
    case HitArray(hs) => hs
    case HitObject(h) => [h]
  }

  /** `str(info.get('year')) if info.get('year') else None`. */
  function YearOf(info: Info): Option<string>
  {
    if Truthy(info.year) then Some(info.year.value) else None
  }

  /**
   * The paper a readable hit becomes: the title or `N/A`, the author names,
   * the year when present, and the fetched BibTeX or, when no candidate URL
   * served one (Python `or`), the synthesised record.
   */
  function PaperOf(info: Info, get: Oracle): Paper
  {
    var title := info.title.GetOr("N/A");
    var authors := Names(info.authors);
    var year := YearOf(info);
    var fetched := FirstAccepted(Dedup(Candidates(info.url, info.key)), get);
    var bibtex := if Truthy(fetched) then fetched.value else RecordText(title, authors, year, info.url);
    Paper(title, authors, year, bibtex)
  }

  /** `PaperOf` as a function value, for the list-shaped definitions below. */
  function Decorator(get: Oracle): Info -> Paper
  {
    info => PaperOf(info, get)
  }

  /** What `paper` makes of each hit, in order, up to the first unreadable hit. */
  function DecorateAll(hits: seq<Hit>, paper: Info -> Paper): seq<Paper>
  {
    if hits == [] || hits[0].Unreadable? then []
    else [paper(hits[0].info)] + DecorateAll(hits[1..], paper)
  }

  /**
   * Every paper comes from the hit at the same position, in upstream order;
   * the list falls short of the hits exactly when a hit is unreadable, and
   * then it stops at the first one.
   */
  lemma {:induction false} DecorateAllSpec(hits: seq<Hit>, paper: Info -> Paper)
    ensures |DecorateAll(hits, paper)| <= |hits|
    ensures forall k :: 0 <= k < |DecorateAll(hits, paper)| ==>
      hits[k].HitInfo? && DecorateAll(hits, paper)[k] == paper(hits[k].info)
    ensures |DecorateAll(hits, paper)| < |hits| ==> hits[|DecorateAll(hits, paper)|].Unreadable?
    ensures |DecorateAll(hits, paper)| == |hits| <==> forall k :: 0 <= k < |hits| ==> hits[k].HitInfo?
  {
    if hits != [] && hits[0].HitInfo? {
      DecorateAllSpec(hits[1..], paper);
      assert forall k :: 1 <= k < |hits| ==> hits[k] == hits[1..][k - 1];
    }
  }

  /** `search_dblp(query, n)`: nothing when the request, its status or its decoding fails. */
  function SearchSpec(query: string, n: int, search: Searcher, get: Oracle): seq<Paper>
  {
    match search(query, n)
    case TransportFailure => []
    case Reply(status, payload) =>
      if status != 200 then []
      else match payload
        case Undecodable => []
        case Decoded(c) => DecorateAll(SliceTo(HitList(c), n), Decorator(get))
  }

  /**
   * A successful search yields at most `n` papers (for `n >= 0`), each built
   * from the hit at the same position of the upstream list; any failure of
   * the request yields none.
   */
  lemma SearchSpecShape(query: string, n: int, search: Searcher, get: Oracle)
    ensures var reply := search(query, n);
      !(reply.Reply? && reply.status == 200 && reply.payload.Decoded?) ==> SearchSpec(query, n, search, get) == []
    ensures n >= 0 ==> |SearchSpec(query, n, search, get)| <= n
    ensures var reply := search(query, n);
      var papers := SearchSpec(query, n, search, get);
      reply.Reply? && reply.status == 200 && reply.payload.Decoded? ==>
        var hits := HitList(reply.payload.collection);
        |papers| <= |hits| &&
        forall k :: 0 <= k < |papers| ==> hits[k].HitInfo? && papers[k] == PaperOf(hits[k].info, get)
  {
    var reply := search(query, n);
    if reply.Reply? && reply.status == 200 && reply.payload.Decoded? {
      var hits := HitList(reply.payload.collection);
      var capped := SliceTo(hits, n);
      DecorateAllSpec(capped, Decorator(get));
      assert forall k :: 0 <= k < |capped| ==> capped[k] == hits[k];
    }
  }

  /** A hit collection that is a single object yields at most one paper. */
  lemma SingleHitAtMostOnePaper(query: string, n: int, search: Searcher, get: Oracle)
    requires search(query, n).Reply? && search(query, n).payload.Decoded?
    requires search(query, n).payload.collection.HitObject?
    ensures |SearchSpec(query, n, search, get)| <= 1
  {
    SearchSpecShape(query, n, search, get);
  }

  /**
   * The BibTeX of a paper is the fetched body verbatim when some candidate
   * URL served a record; otherwise it is the synthesised record, whose title
   * and author lines carry the paper's title and names.
   */
  lemma PaperBibtex(info: Info, get: Oracle)
    ensures var fetched := FirstAccepted(Dedup(Candidates(info.url, info.key)), get);
      fetched.Some? ==> PaperOf(info, get).bibtex == fetched.value
    ensures var fetched := FirstAccepted(Dedup(Candidates(info.url, info.key)), get);
      var p := PaperOf(info, get);
      fetched.None? ==>
        p.bibtex == RecordText(p.title, p.authors, p.year, info.url) &&
        StartsWith(p.bibtex, HeaderLine(CitationKey(p.title, p.year)) + "\n" + FieldLine("title", p.title) + "\n"
          + FieldLine("author", AuthorString(p.authors)) + "\n")
  {
    var cands := Dedup(Candidates(info.url, info.key));
    if FirstAccepted(cands, get).Some? {
      FetchedIsRecord(cands, get);
    } else {
      var p := PaperOf(info, get);
      RecordFrame(p.title, p.authors, p.year, info.url);
    }
  }

  /** The body of the hit loop of `search_dblp`: one readable hit becomes one paper. */
  method DecorateHit(info: Info, get: Oracle) returns (p: Paper)
    ensures p == PaperOf(info, get)
  {
    var title := info.title.GetOr("N/A");
    var authors := DblpAuthors(info.authors);
    var year := if Truthy(info.year) then Some(info.year.value) else None;
    ghost var tried;
    var fetched;
    fetched, tried := FetchBibtex(info.url, info.key, get);
    var bibtex;
    if Truthy(fetched) {
      bibtex := fetched.value;
    } else {
      bibtex := GenerateBibtexSimple(title, authors, year, info.url);
    }
    p := Paper(title, authors, year, bibtex);
  }

  /**
   * The hit loop of `search_dblp`: decorates the hits one at a time; an
   * unreadable hit ends the loop with the papers gathered so far.
   */
  method DecorateHits(hits: seq<Hit>, get: Oracle) returns (results: seq<Paper>)
    ensures results == DecorateAll(hits, Decorator(get))
  {
    results := [];
    ghost var paper := Decorator(get);
    for i := 0 to |hits|
      invariant results + DecorateAll(hits[i..], paper) == DecorateAll(hits, paper)
    {
      var h := hits[i];
      if h.Unreadable? {
        return;
      }
      var p := DecorateHit(h.info, get);
      assert p == paper(h.info);
      assert hits[i..] == [h] + hits[i + 1..];
      results := results + [p];
    }
  }

  /**
   * `search_dblp`: requests the hits, wraps a single hit object in a list,
   * keeps the first `n` (Python `hits[:n]`) and decorates them; a failed
   * request, a status other than 200 or an undecodable reply gives no papers.
   */
  method SearchDblp(query: string, n: int, search: Searcher, get: Oracle) returns (results: seq<Paper>)
    ensures results == SearchSpec(query, n, search, get)
  {
    results := [];
    var reply := search(query, n);
    if reply.TransportFailure? || reply.status != 200 || reply.payload.Undecodable? {
      return;
    }
    var hits: seq<Hit>;
    match reply.payload.collection {
      case HitObject(h) => hits := [h];
      case HitArray(hs) => hits := hs;
    }
    results := DecorateHits(SliceTo(hits, n), get);
  }

  // ---------------------------------------------------------------------------
  // search_papers

  /**
   * The display item of a paper: authors joined with `, ` or `N/A` when
   * there are none, and the year through `str()`, so a missing year shows as
   * `None`.
   */
  function ToItem(p: Paper): ResultItem
  {
    ResultItem(p.title, if p.authors != [] then Join(p.authors, ", ") else "N/A", p.year.GetOr("None"), p.bibtex)
  }

  /** The display items of a list of papers, in order. */
  function Items(papers: seq<Paper>): (items: seq<ResultItem>)
    ensures |items| == |papers|
    ensures forall k :: 0 <= k < |papers| ==> items[k] == ToItem(papers[k])
  {
    seq(|papers|, k requires 0 <= k < |papers| => ToItem(papers[k]))
  }

  /** The display items one keyword contributes. */
  function Contribution(keyword: string, n: int, search: Searcher, get: Oracle): seq<ResultItem>
  {
    Items(SearchSpec(keyword, n, search, get))
  }

  /** `Contribution` as a function value. */
  function Contributor(n: int, search: Searcher, get: Oracle): string -> seq<ResultItem>
  {
    k => Contribution(k, n, search, get)
  }

  /** The concatenation of what `f` gives for each keyword, in keyword order. */
  function Flatten<T>(keywords: seq<string>, f: string -> seq<T>): seq<T>
  {
    if keywords == [] then []
    else Flatten(keywords[..|keywords| - 1], f) + f(keywords[|keywords| - 1])
  }

  /** The batch results: each keyword's items, in keyword order. */
  function BatchSpec(keywords: seq<string>, n: int, search: Searcher, get: Oracle): seq<ResultItem>
  {
    Flatten(keywords, Contributor(n, search, get))
  }

  /** The results of two keyword lists run one after the other are concatenated. */
  lemma {:induction false} FlattenAppend<T>(a: seq<string>, b: seq<string>, f: string -> seq<T>)
    ensures Flatten(a + b, f) == Flatten(a, f) + Flatten(b, f)
    decreases |b|
  {
    if b == [] {
      assert a + b == a;
    } else {
      var b' := b[..|b| - 1];
      FlattenAppend(a, b', f);
      assert (a + b)[..|a + b| - 1] == a + b';
    }
  }

  /** Running one more keyword appends its contribution. */
  lemma BatchSnoc(keywords: seq<string>, k: string, n: int, search: Searcher, get: Oracle)
    ensures BatchSpec(keywords + [k], n, search, get)
      == BatchSpec(keywords, n, search, get) + Items(SearchSpec(k, n, search, get))
  {
    assert (keywords + [k])[..|keywords|] == keywords;
  }

  /** The results of the first `i + 1` keywords extend those of the first `i` by the `i`-th keyword's items. */
  lemma BatchStep(keywords: seq<string>, i: nat, n: int, search: Searcher, get: Oracle)
    requires i < |keywords|
    ensures BatchSpec(keywords[..i + 1], n, search, get)
      == BatchSpec(keywords[..i], n, search, get) + Items(SearchSpec(keywords[i], n, search, get))
  {
    BatchSnoc(keywords[..i], keywords[i], n, search, get);
    assert keywords[..i] + [keywords[i]] == keywords[..i + 1];
  }

  /** In a flattening, the contribution of the `i`-th keyword follows those of the keywords before it. */
  lemma FlattenSlice<T>(keywords: seq<string>, i: nat, f: string -> seq<T>)
    requires i < |keywords|
    ensures var lo := |Flatten(keywords[..i], f)|;
      lo + |f(keywords[i])| <= |Flatten(keywords, f)| &&
      Flatten(keywords, f)[lo..lo + |f(keywords[i])|] == f(keywords[i])
  {
    FlattenAppend(keywords[..i + 1], keywords[i + 1..], f);
    assert keywords[..i + 1] + keywords[i + 1..] == keywords;
    assert keywords[..i + 1][..i] == keywords[..i];
  }

  /**
   * Each keyword contributes exactly the display items of its own search, in
   * keyword order, right after the items of the keywords before it.
   */
  lemma KeywordContribution(keywords: seq<string>, i: nat, n: int, search: Searcher, get: Oracle)
    requires i < |keywords|
    ensures var all := BatchSpec(keywords, n, search, get);
      var lo := |BatchSpec(keywords[..i], n, search, get)|;
      var mine := Items(SearchSpec(keywords[i], n, search, get));
      lo + |mine| <= |all| && all[lo..lo + |mine|] == mine
  {
    FlattenSlice(keywords, i, Contributor(n, search, get));
  }

  /** A flattening of contributions of at most `n` items each has at most `n` items per keyword. */
  lemma {:induction false} FlattenBound<T>(keywords: seq<string>, f: string -> seq<T>, n: nat)
    requires forall k :: |f(k)| <= n
    ensures |Flatten(keywords, f)| <= |keywords| * n
  {
    if keywords != [] {
      var init := keywords[..|keywords| - 1];
      FlattenBound(init, f, n);
      assert |keywords| * n == |init| * n + n;
    }
  }

  /** With `n >= 0`, no keyword contributes more than `n` items. */
  lemma BatchBound(keywords: seq<string>, n: int, search: Searcher, get: Oracle)
    requires n >= 0
    ensures |BatchSpec(keywords, n, search, get)| <= |keywords| * n
  {
    var f := Contributor(n, search, get);
    forall k
      ensures |f(k)| <= n
    {
      SearchSpecShape(k, n, search, get);
    }
    FlattenBound(keywords, f, n);
  }

  /**
   * The display item of a hit: the title or `N/A`, the names joined with `, `
   * or `N/A` when there are none, and the year or `None`.
   */
  lemma ItemOfHit(info: Info, get: Oracle)
    ensures var item := ToItem(PaperOf(info, get));
      item.title == info.title.GetOr("N/A") &&
      (Names(info.authors) == [] ==> item.authors == "N/A") &&
      (Names(info.authors) != [] ==> item.authors == Join(Names(info.authors), ", ")) &&
      item.year == (if Truthy(info.year) then info.year.value else "None")
  {
  }

  /** The inner loop of `search_papers`: appends each paper's display item to `all`. */
  method AppendItems(all: seq<ResultItem>, papers: seq<Paper>) returns (out: seq<ResultItem>)
    ensures out == all + Items(papers)
  {
    out := all;
    for j := 0 to |papers|
      invariant out == all + Items(papers[..j])
    {
      var paper := papers[j];
      var authors := if paper.authors != [] then Join(paper.authors, ", ") else "N/A";
      var year := paper.year.GetOr("None");
      assert papers[..j + 1] == papers[..j] + [paper];
      assert Items(papers[..j + 1]) == Items(papers[..j]) + [ToItem(paper)];
      out := out + [ResultItem(paper.title, authors, year, paper.bibtex)];
    }
    assert papers[..|papers|] == papers;
  }

  /**
   * `search_papers`: searches every keyword in order, appends each paper's
   * display item, and pauses between consecutive keywords; `pauses` counts
   * the pauses.
   */
  method SearchPapers(keywords: seq<string>, maxResults: int, search: Searcher, get: Oracle)
    returns (resp: BatchResponse, ghost pauses: nat)
    ensures resp.results == BatchSpec(keywords, maxResults, search, get)
    ensures resp.total == |resp.results|
    ensures pauses == if keywords == [] then 0 else |keywords| - 1
    ensures keywords == [] ==> resp == BatchResponse(0, [])
  {
    var all: seq<ResultItem> := [];
    pauses := 0;
    for i := 0 to |keywords|
      invariant all == BatchSpec(keywords[..i], maxResults, search, get)
      invariant pauses == if i == |keywords| && i > 0 then i - 1 else i
    {
      var papers := SearchDblp(keywords[i], maxResults, search, get);
      all := AppendItems(all, papers);
      BatchStep(keywords, i, maxResults, search, get);
      if i < |keywords| - 1 {
        pauses := pauses + 1;
      }
    }
    assert keywords[..|keywords|] == keywords;
    if all == [] {
      return BatchResponse(0, []), pauses;
    }
    return BatchResponse(|all|, all), pauses;
  }
}
