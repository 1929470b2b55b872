# DBLP BibTeX fetcher — verified model of its core

The application takes a list of search keywords, asks the DBLP search API
for matching publications, and returns one BibTeX citation per hit. It first
tries to download the record DBLP serves for the hit and, failing that,
synthesises a minimal `@article` record itself. A second endpoint joins the
citations a user selected into one `references.bib` file.

This project models the string and list logic of `app.py` in Dafny and
proves what it promises:

- `synth.dfy` (module `Synth`) models `generate_bibtex_simple`:
  - the citation key: slug of the lower-cased title, truncated to 40 characters, plus `_` and the year or `noyear`;
  - the author string;
  - the record's lines, joined with newlines.

  The method builds the lines by appends, as the code does, and is proved against the function `RecordText`.
- `authors.dfy` (module `Authors`) models `_dblp_authors`. The shapes the `authors` member can take are one datatype, `Field`.
- `fetch.dfy` (module `Fetch`) models `_fetch_bibtex_from_info`:
  - the candidate URLs;
  - the `seen` set;
  - the first-success loop.

  The network is a function `Oracle` from URL to an optional response; `None` stands for a request that raised.
- `search.dfy` (module `Search`) models `search_dblp` and `search_papers`:
  - the search request is a function `Searcher` from keyword and hit count to a reply;
  - a hit whose processing raises is the constructor `Unreadable`;
  - the one-second pauses between keywords are counted in a ghost out-parameter.
- `export.dfy` (module `Export`) models the join in `download_bibtex`.
- `text.dfy` (module `Text`) and `wrappers.dfy` (module `Wrappers`) hold the Python string operations the code uses and an `Option` type.

Every loop in the code is a method with a `for` loop and invariants, proved equal to a specification function. The properties are stated about those functions.

## Model

| member | source | states |
|---|---|---|
| Synth.Collapse | app.py:34 | the substitution of runs outside `[a-zA-Z0-9]`: the result starts with `_` exactly when the input starts with such a character, and is empty exactly when the input is |
| Synth.CollapseNoDoubleUnderscore | app.py:34 | the substituted text never holds `__` |
| Synth.CollapseRun | app.py:34 | a non-empty run outside `[a-zA-Z0-9]` between a part ending in a letter or digit (or nothing) and a part starting with one (or nothing) becomes exactly one `_`, and each part is substituted on its own |
| Synth.CollapseKeepsAlnums | app.py:34 | the substitution keeps every letter and digit of its input, in order, and adds none |
| Synth.KeyBaseWellFormed | app.py:34 | the key base holds only `[a-z0-9_]`, holds no `__`, neither starts nor ends with `_`, and keeps exactly the letters and digits of the lower-cased title |
| Synth.EntryKeyBase | app.py:34 | an empty title is keyed by `entry` |
| Synth.EmptyTitleRecord | app.py:34-40 | with an empty title, the key base is `entry` but the record's title line still carries the empty title |
| Synth.CitationKeyShape | app.py:34-36 | the key holds only `[a-z0-9_]`, starts with the first `min(40, length)` characters of the key base, and ends with `_` and the year when that is all digits, `_noyear` otherwise |
| Synth.AuthorStringUnknown | app.py:37 | the author string is `Unknown` exactly when the list is empty or its only non-empty name is `Unknown`; a non-empty list of empty names gives the empty string |
| Synth.Lines | app.py:38-46 | the record has four to six lines and the last is `}` |
| Synth.RecordFrame | app.py:38-47 | the record starts with the header, title and author lines, each followed by a newline, so it starts with `@article{`; it ends with a newline and `}` |
| Synth.RecordSplitsIntoLines | app.py:38-47 | when no field holds a newline, splitting the record on newlines gives back exactly its lines: header, title, author, year if non-empty, url if non-empty, `}` |
| Synth.GenerateBibtexSimple | app.py:32-47 | the appended lines, joined, are the record text; it starts with `@article{` and ends with `}` |
| Authors.Names | app.py:49-66 | no name is empty; no `author` member gives no names; a single object or scalar gives at most one name |
| Authors.ListNamesInOrder | app.py:53-57 | the names of a list are the names of its first part followed by those of the rest, so input order is kept |
| Authors.ListNameMembership | app.py:53-57 | a name comes out of a list exactly when it is non-empty and some item yields it |
| Authors.ListNames | app.py:53-57 | the loop over a list appends exactly the names `Names` gives |
| Authors.DblpAuthors | app.py:49-66 | the dispatch on the shape of `authors` returns exactly `Names` |
| Fetch.CandidatesShape | app.py:69-77 | two URLs per non-empty `url` and `key`, in the fixed order; `.bib` is appended only when not already there, so the first URL ends in `.bib` |
| Fetch.DedupSpec | app.py:78-83 | skipping seen URLs keeps every URL once, adds none, and lists them in the order of their first occurrences |
| Fetch.DistinctCandidates | app.py:69-83 | at most four distinct URLs are requested |
| Fetch.FirstAcceptedNone | app.py:80-90 | no body is returned exactly when no candidate answers 200 with a body that, stripped, starts with `@`, and then every candidate is requested |
| Fetch.FirstAcceptedSome | app.py:80-90 | a returned body is the unstripped body of the first accepted candidate; the requests made are the candidates up to it and no further; every earlier one failed or raised |
| Fetch.FetchedIsRecord | app.py:86-87 | a returned body, stripped, starts with `@`, so it is never empty |
| Fetch.CandidateUrls | app.py:69-77 | the appended URLs are the candidate list |
| Fetch.FirstRecord | app.py:78-90 | the loop with the `seen` set returns the first accepted body of the de-duplicated list and requests exactly the URLs `Attempts` names |
| Fetch.FetchBibtex | app.py:68-90 | the whole function: first accepted body among the de-duplicated candidates, with the URLs requested |
| Search.HitList | app.py:101-103 | a single hit object counts as a one-element list |
| Search.DecorateAllSpec | app.py:104-111 | each paper is built from the hit at the same position; the list falls short of the hits exactly when an unreadable hit ends the loop, and then stops at the first one |
| Search.SearchSpecShape | app.py:93-113 | a failed request, a status other than 200 or an undecodable reply gives no papers; otherwise at most `n` papers for `n >= 0`, each from the upstream hit at its position |
| Search.SingleHitAtMostOnePaper | app.py:101-104 | a single-object hit collection gives at most one paper |
| Search.PaperBibtex | app.py:106-109 | a paper's BibTeX is the fetched body verbatim when there is one, else the synthesised record carrying the paper's title and author names |
| Search.DecorateHit | app.py:105-110 | one readable hit becomes the paper `PaperOf` describes |
| Search.DecorateHits | app.py:104-111 | the hit loop returns the papers gathered before the first unreadable hit |
| Search.SearchDblp | app.py:93-113 | the function returns exactly `SearchSpec` |
| Search.Items | app.py:120-126 | one display item per paper, in order |
| Search.ItemOfHit | app.py:106-108 | a hit's display item has the title or `N/A`, the names joined with `, ` or `N/A` when there are none, and the year or `None` when it is missing |
| Search.FlattenAppend | app.py:118-126 | the results of two keyword lists run one after the other are concatenated |
| Search.KeywordContribution | app.py:118-126 | each keyword's items appear in the results right after those of the keywords before it, in search order |
| Search.BatchBound | app.py:104 | with `max_results >= 0`, the batch holds at most `max_results` items per keyword |
| Search.AppendItems | app.py:120-126 | the inner loop appends the display items of the papers |
| Search.SearchPapers | app.py:115-131 | `results` is the concatenation of the keywords' items; `total` is its length; there are `len(keywords) - 1` pauses, none for no keywords; no keywords gives `{total: 0, results: []}` |
| Export.ExportLength | app.py:145 | the content is empty for no entries, otherwise as long as the citations plus two characters per gap |
| Export.ExportVerbatim | app.py:145 | every citation appears verbatim at its offset, in input order, followed by a blank line unless it is the last |
| Export.ExportAppend | app.py:145 | one more entry appends a blank line and its citation |
| Text.SplitJoin | app.py:47 | splitting a newline-join on newlines recovers the parts when none holds a newline |
| Text.JoinPart | app.py:145 | a join keeps every part verbatim at its offset, with exactly the separator between neighbours |
| Text.Strip | app.py:34 | what `strip` leaves neither starts nor ends with a stripped character |
| Text.StripSlice | app.py:34 | only leading and trailing characters from the stripped set are removed: the result is a slice of the input outside which every character is in the set |
| Text.SliceTo | app.py:36 | Python `s[:n]`: a prefix of at most `n` elements for `n >= 0`, the whole when `n` is at least the length, and the prefix dropping `-n` elements from the end for negative `n` |

## Left out

- Network I/O is not modelled: `requests.get` with its timeouts, proxies and headers is replaced by the oracles `Fetch.Oracle` and `Search.Searcher`. The request URL of the search (`urlencode` of the query parameters) is the oracle's argument pair (keyword, hit count).
- JSON decoding and the `.get` probing of the decoded data are not modelled; the reply arrives as `Search.Payload`. A missing `result.hits.hit` is the empty `HitArray`. A reply whose decoding or probing raises, including a `hit` member that is `null`, is `Undecodable`.
- Hits whose processing raises all map to the one constructor `Search.Unreadable`, whatever the cause: a hit or `info` that is not an object, or a `url` that is truthy but not a string. The loop stops there and returns what it gathered, as the code does.
- A `url` or `key` that is `null` is modelled as an absent one (`None`), since `info.get` returns `None` for both. A non-string `key` is modelled by its `str()` rendering, as the f-strings build the URLs from it. A non-string `key` whose truthiness differs from that of its rendering (the number `0`) is not distinguished.
- `Search.Info.title` cannot be `null` or a non-string value; the model does not express such titles. In the code a `null` title is kept as `None`: the record is keyed `entry` and its title line shows `None`. A truthy non-string title raises only when the record is synthesised, that is, when no candidate URL served one.
- `Authors.Item` cannot hold an author object whose `text` member is truthy but not a string. In the code such a value is kept as a name. The `' and '.join` of the synthesised record would then raise inside the hit loop, and the `', '.join` of the batch endpoint would raise outside any `try`. The model does not express these inputs.
- `time.sleep(1.0)` is not modelled as a delay. It is a ghost counter, `pauses`, returned by `Search.SearchPapers`.
- Writing the temporary file and the `FileResponse` of `download_bibtex` are left out. Only the content string is modelled.
- `check_dblp` is left out: it is one network call whose only logic is `status == 200`.
- Proxy configuration, the FastAPI and pydantic request models, the server start-up and the HTML page are left out.
- `Text.Lower`, `Text.IsDigits` and `Text.Strip` cover only the ASCII behaviour of Python's `str.lower`, `str.isdigit` and `str.strip()`. Non-ASCII case mappings, digits and white space are not modelled.
- `Search.Info.year` is the year as `str()` renders it. A numeric year whose truthiness differs from that of its rendering (the number `0`) is not distinguished.
- `Synth.AuthorStringUnknown` does not state that the author string is `Unknown` exactly when the list is empty, because that is false: the list `["Unknown"]` also gives `Unknown`. It states the exact condition instead.
