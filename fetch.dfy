/**
 * `_fetch_bibtex_from_info`: builds up to four candidate URLs for a hit's
 * BibTeX record and returns the body of the first one DBLP serves as a BibTeX
 * record. The network is an oracle from URL to response; `None` stands for a
 * request that raised (timeout, connection error), which the code swallows.
 */
module Fetch {
  import opened Wrappers
  import opened Text

  datatype Response = Response(status: int, body: string)

  /** What a GET of each URL yields; `None` when the request raises. */
  type Oracle = string -> Option<Response>

  const BibSuffix := ".bib"
  const BibtexView := "?view=bibtex"
  const RecBibtexPrefix := "https://dblp.org/rec/bibtex/"
  const RecPrefix := "https://dblp.org/rec/"

  /**
   * The candidate list before de-duplication: from a non-empty `url`, the URL
   * with `.bib` appended unless already there, then the URL with
   * `?view=bibtex`; from a non-empty `key`, the two DBLP record endpoints.
   */
  function Candidates(url: Option<string>, key: Option<string>): seq<string>
  {
    (if Truthy(url) then
       [if EndsWith(url.value, BibSuffix) then url.value else url.value + BibSuffix, url.value + BibtexView]
     else [])
    + (if Truthy(key) then
         [RecBibtexPrefix + key.value + BibSuffix, RecPrefix + key.value + BibSuffix]
       else [])
  }

  /**
   * The shape of the candidate list: two URLs per present field, in the fixed
   * order, every one a `.bib` or `?view=bibtex` URL, and no `.bib` appended
   * twice.
   */
  lemma CandidatesShape(url: Option<string>, key: Option<string>)
    ensures |Candidates(url, key)| == (if Truthy(url) then 2 else 0) + (if Truthy(key) then 2 else 0)
    ensures Truthy(url) ==>
      Candidates(url, key)[0] == (if EndsWith(url.value, BibSuffix) then url.value else url.value + BibSuffix) &&
      Candidates(url, key)[1] == url.value + BibtexView
    ensures Truthy(url) ==> EndsWith(Candidates(url, key)[0], BibSuffix)
    ensures Truthy(key) ==>
      var c := Candidates(url, key);
      c[|c| - 2] == RecBibtexPrefix + key.value + BibSuffix && c[|c| - 1] == RecPrefix + key.value + BibSuffix
  {
    if Truthy(url) && !EndsWith(url.value, BibSuffix) {
      ConcatEnds(url.value, BibSuffix);
    }
  }

  predicate NoDuplicates(s: seq<string>) {
    forall i, j :: 0 <= i < j < |s| ==> s[i] != s[j]
  }

  /** The first occurrence of every element, in order (what skipping `seen` URLs leaves). */
  function Dedup(s: seq<string>): (r: seq<string>)
    ensures |r| <= |s|
  {
    if s == [] then []
    else
      var d := Dedup(s[..|s| - 1]);
      if s[|s| - 1] in s[..|s| - 1] then d else d + [s[|s| - 1]]
  }

  /** The position of the first occurrence of `x` in `s`. */
  function FirstIndex(s: seq<string>, x: string): (i: nat)
    requires x in s
    ensures i < |s| && s[i] == x && x !in s[..i]
  {
    if s[0] == x then 0 else assert s[1..][..FirstIndex(s[1..], x)] == s[1..1 + FirstIndex(s[1..], x)]; 1 + FirstIndex(s[1..], x)
  }

  /** The first occurrence is the one position holding `x` with no `x` before it. */
  lemma {:induction false} FirstIndexUnique(s: seq<string>, x: string, k: nat)
    requires k < |s| && s[k] == x && x !in s[..k]
    ensures FirstIndex(s, x) == k
  {
    if k > 0 {
      assert s[0] == s[..k][0];
      assert s[1..][..k - 1] == s[1..k];
      assert forall y :: y in s[1..k] ==> y in s[..k];
      FirstIndexUnique(s[1..], x, k - 1);
    }
  }

  /** Extending a list does not move the first occurrence of an element already in it. */
  lemma FirstIndexPrefix(a: seq<string>, b: seq<string>, x: string)
    requires x in a
    ensures FirstIndex(a + b, x) == FirstIndex(a, x)
  {
    var i := FirstIndex(a, x);
    assert (a + b)[..i] == a[..i];
    FirstIndexUnique(a + b, x, i);
  }

  /**
   * `Dedup` keeps every element once, adds none, and lists them in the order
   * of their first occurrences.
   */
  lemma {:induction false} DedupSpec(s: seq<string>)
    ensures NoDuplicates(Dedup(s))
    ensures forall x :: x in Dedup(s) <==> x in s
    ensures forall i, j :: 0 <= i < j < |Dedup(s)| ==> FirstIndex(s, Dedup(s)[i]) < FirstIndex(s, Dedup(s)[j])
  {
    if s != [] {
      var init, x := s[..|s| - 1], s[|s| - 1];
      DedupSpec(init);
      assert s == init + [x];
      var d := Dedup(init);
      forall y | y in init
        ensures FirstIndex(s, y) == FirstIndex(init, y) < |init|
      {
        FirstIndexPrefix(init, [x], y);
      }
      if x !in init {
        assert Dedup(s) == d + [x];
        assert FirstIndex(s, x) == |init| by {
          assert s[..|init|] == init;
        }
      }
    }
  }

  /** De-duplicating a longer list only adds at the end. */
  lemma {:induction false} DedupPrefix(a: seq<string>, b: seq<string>)
    ensures |Dedup(a)| <= |Dedup(a + b)| && Dedup(a + b)[..|Dedup(a)|] == Dedup(a)
    decreases |b|
  {
    if b == [] {
      assert a + b == a;
    } else {
      var b' := b[..|b| - 1];
      DedupPrefix(a, b');
      assert (a + b)[..|a + b| - 1] == a + b';
    }
  }

  /** Appending one element to the list keeps it exactly when it is new. */
  lemma DedupSnoc(s: seq<string>, x: string)
    ensures Dedup(s + [x]) == if x in s then Dedup(s) else Dedup(s) + [x]
  {
    assert (s + [x])[..|s|] == s;
  }

  /** At most four distinct candidates, each one of the URLs built. */
  lemma DistinctCandidates(url: Option<string>, key: Option<string>)
    ensures |Dedup(Candidates(url, key))| <= 4
    ensures NoDuplicates(Dedup(Candidates(url, key)))
  {
    DedupSpec(Candidates(url, key));
  }

  /** A response DBLP served as a record: status 200 and a body that, stripped, starts with `@`. */
  predicate Accepts(r: Option<Response>) {
    r.Some? && r.value.status == 200 && StartsWith(Strip(r.value.body, Whitespace), "@")
  }

  /** What requesting a candidate URL yields: the body of an accepted response, or nothing. */
  function Pick(get: Oracle): string -> Option<string>
  {
    u => if Accepts(get(u)) then Some(get(u).value.body) else None
  }

  /** The first value `pick` yields along `cands`. */
  function FirstSome(cands: seq<string>, pick: string -> Option<string>): Option<string>
  {
    if cands == [] then None
    else if pick(cands[0]).Some? then pick(cands[0])
    else FirstSome(cands[1..], pick)
  }

  /** The candidates looked at: every one up to and including the first that yields a value. */
  function Probed(cands: seq<string>, pick: string -> Option<string>): seq<string>
  {
    if cands == [] then []
    else if pick(cands[0]).Some? then [cands[0]]
    else [cands[0]] + Probed(cands[1..], pick)
  }

  /** The body of the first candidate whose response is accepted. */
  function FirstAccepted(cands: seq<string>, get: Oracle): Option<string>
  {
    FirstSome(cands, Pick(get))
  }

  /** The candidates requested, in order: every one up to and including the first accepted. */
  function Attempts(cands: seq<string>, get: Oracle): seq<string>
  {
    Probed(cands, Pick(get))
  }

  lemma {:induction false} FirstSomeNone(cands: seq<string>, pick: string -> Option<string>)
    ensures FirstSome(cands, pick).None? <==> forall i :: 0 <= i < |cands| ==> pick(cands[i]).None?
    ensures FirstSome(cands, pick).None? ==> Probed(cands, pick) == cands
  {
    if cands != [] {
      FirstSomeNone(cands[1..], pick);
      assert forall i :: 1 <= i < |cands| ==> cands[i] == cands[1..][i - 1];
    }
  }

  lemma {:induction false} FirstSomeSome(cands: seq<string>, pick: string -> Option<string>)
    requires FirstSome(cands, pick).Some?
    ensures 0 < |Probed(cands, pick)| <= |cands|
    ensures Probed(cands, pick) == cands[..|Probed(cands, pick)|]
    ensures FirstSome(cands, pick) == pick(cands[|Probed(cands, pick)| - 1])
    ensures forall j :: 0 <= j < |Probed(cands, pick)| - 1 ==> pick(cands[j]).None?
  {
    if pick(cands[0]).None? {
      var tail := cands[1..];
      FirstSomeSome(tail, pick);
      var n := |Probed(tail, pick)|;
      assert Probed(cands, pick) == [cands[0]] + Probed(tail, pick);
      assert cands[..n + 1] == [cands[0]] + tail[..n];
      assert forall j :: 1 <= j < n + 1 ==> cands[j] == tail[j - 1];
    }
  }

  lemma {:induction false} FirstSomeAppend(a: seq<string>, b: seq<string>, pick: string -> Option<string>)
    ensures FirstSome(a + b, pick) == if FirstSome(a, pick).Some? then FirstSome(a, pick) else FirstSome(b, pick)
  {
    if a == [] {
      assert a + b == b;
    } else {
      assert (a + b)[0] == a[0];
      assert (a + b)[1..] == a[1..] + b;
      FirstSomeAppend(a[1..], b, pick);
    }
  }

  lemma {:induction false} ProbedAppend(a: seq<string>, b: seq<string>, pick: string -> Option<string>)
    ensures Probed(a + b, pick) == if FirstSome(a, pick).Some? then Probed(a, pick) else a + Probed(b, pick)
  {
    if a == [] {
      assert a + b == b;
    } else {
      var ab := a + b;
      assert ab[0] == a[0];
      assert ab[1..] == a[1..] + b;
      if pick(a[0]).None? {
        ProbedAppend(a[1..], b, pick);
        assert Probed(ab, pick) == [a[0]] + Probed(a[1..] + b, pick);
        if FirstSome(a[1..], pick).None? {
          assert [a[0]] + (a[1..] + Probed(b, pick)) == a + Probed(b, pick);
        }
      }
    }
  }

  /** No body is returned exactly when no candidate is accepted, and then every candidate is requested. */
  lemma FirstAcceptedNone(cands: seq<string>, get: Oracle)
    ensures FirstAccepted(cands, get).None? <==> forall i :: 0 <= i < |cands| ==> !Accepts(get(cands[i]))
    ensures FirstAccepted(cands, get).None? ==> Attempts(cands, get) == cands
  {
    var pick := Pick(get);
    FirstSomeNone(cands, pick);
    assert forall i :: 0 <= i < |cands| ==> (pick(cands[i]).None? <==> !Accepts(get(cands[i])));
  }

  /**
   * A returned body is the verbatim body of the first accepted candidate, in
   * list order; the requests made are the candidates up to and including it,
   * and every earlier one failed or raised.
   */
  lemma FirstAcceptedSome(cands: seq<string>, get: Oracle)
    requires FirstAccepted(cands, get).Some?
    ensures 0 < |Attempts(cands, get)| <= |cands|
    ensures Attempts(cands, get) == cands[..|Attempts(cands, get)|]
    ensures Accepts(get(cands[|Attempts(cands, get)| - 1]))
    ensures FirstAccepted(cands, get).value == get(cands[|Attempts(cands, get)| - 1]).value.body
    ensures forall j :: 0 <= j < |Attempts(cands, get)| - 1 ==> !Accepts(get(cands[j]))
  {
    var pick := Pick(get);
    FirstSomeSome(cands, pick);
    var n := |Probed(cands, pick)|;
    assert pick(cands[n - 1]).Some?;
    assert forall j :: 0 <= j < n - 1 ==> pick(cands[j]).None? ==> !Accepts(get(cands[j]));
  }

  /** A returned body is never empty: stripped, it starts with `@`. */
  lemma FetchedIsRecord(cands: seq<string>, get: Oracle)
    requires FirstAccepted(cands, get).Some?
    ensures StartsWith(Strip(FirstAccepted(cands, get).value, Whitespace), "@")
    ensures FirstAccepted(cands, get).value != ""
  {
    FirstAcceptedSome(cands, get);
  }

  /** Once a prefix of the list yields a value, the rest is never looked at. */
  lemma StopsInPrefix(p: seq<string>, all: seq<string>, pick: string -> Option<string>)
    requires |p| <= |all| && all[..|p|] == p
    requires FirstSome(p, pick).Some?
    ensures FirstSome(all, pick) == FirstSome(p, pick)
    ensures Probed(all, pick) == Probed(p, pick)
  {
    FirstSomeAppend(p, all[|p|..], pick);
    ProbedAppend(p, all[|p|..], pick);
    assert p + all[|p|..] == all;
  }

  /** The de-duplicated list of a prefix is a prefix of the de-duplicated list. */
  lemma DedupOfPrefix(urls: seq<string>, i: nat)
    requires i <= |urls|
    ensures |Dedup(urls[..i])| <= |Dedup(urls)| && Dedup(urls)[..|Dedup(urls[..i])|] == Dedup(urls[..i])
  {
    DedupPrefix(urls[..i], urls[i..]);
    assert urls[..i] + urls[i..] == urls;
  }

  /** A URL seen before leaves the list of URLs to request as it was. */
  lemma ScanSeen(urls: seq<string>, i: nat)
    requires i < |urls| && urls[i] in urls[..i]
    ensures Dedup(urls[..i + 1]) == Dedup(urls[..i])
  {
    assert urls[..i + 1] == urls[..i] + [urls[i]];
    DedupSnoc(urls[..i], urls[i]);
  }

  /**
   * A new URL is requested after all earlier ones, which yielded nothing;
   * what it yields is then the result so far.
   */
  lemma ScanNew(urls: seq<string>, i: nat, pick: string -> Option<string>)
    requires i < |urls| && urls[i] !in urls[..i]
    requires FirstSome(Dedup(urls[..i]), pick).None? && Probed(Dedup(urls[..i]), pick) == Dedup(urls[..i])
    ensures Dedup(urls[..i + 1]) == Dedup(urls[..i]) + [urls[i]]
    ensures FirstSome(Dedup(urls[..i + 1]), pick) == pick(urls[i])
    ensures Probed(Dedup(urls[..i + 1]), pick) == Dedup(urls[..i + 1])
  {
    var tried := Dedup(urls[..i]);
    var u := urls[i];
    assert urls[..i + 1] == urls[..i] + [u];
    DedupSnoc(urls[..i], u);
    FirstSomeAppend(tried, [u], pick);
    ProbedAppend(tried, [u], pick);
    assert [u][1..] == [];
  }

  /** Once a requested URL yields a value, the whole list yields the same and nothing after it is requested. */
  lemma ScanStop(urls: seq<string>, i: nat, pick: string -> Option<string>)
    requires i < |urls|
    requires FirstSome(Dedup(urls[..i + 1]), pick).Some?
    ensures FirstSome(Dedup(urls), pick) == FirstSome(Dedup(urls[..i + 1]), pick)
    ensures Probed(Dedup(urls), pick) == Probed(Dedup(urls[..i + 1]), pick)
  {
    DedupOfPrefix(urls, i + 1);
    StopsInPrefix(Dedup(urls[..i + 1]), Dedup(urls), pick);
  }

  /** The first half of `_fetch_bibtex_from_info`: the candidate URLs, appended one at a time. */
  method CandidateUrls(url: Option<string>, key: Option<string>) returns (urls: seq<string>)
    ensures urls == Candidates(url, key)
  {
    urls := [];
    if Truthy(url) {
      urls := urls + [if EndsWith(url.value, BibSuffix) then url.value else url.value + BibSuffix];
      urls := urls + [url.value + BibtexView];
    }
    if Truthy(key) {
      urls := urls + [RecBibtexPrefix + key.value + BibSuffix];
      urls := urls + [RecPrefix + key.value + BibSuffix];
    }
  }

  /**
   * The second half of `_fetch_bibtex_from_info`: requests each URL not seen
   * before, in order, and stops at the first accepted response. `tried`
   * records the URLs requested.
   */
  method FirstRecord(urls: seq<string>, get: Oracle) returns (result: Option<string>, ghost tried: seq<string>)
    ensures result == FirstAccepted(Dedup(urls), get)
    ensures tried == Attempts(Dedup(urls), get)
  {
    ghost var pick := Pick(get);
    var seen: set<string> := {};
    tried := [];
    for i := 0 to |urls|
      invariant forall x :: x in seen <==> x in urls[..i]
      invariant tried == Dedup(urls[..i])
      invariant FirstSome(tried, pick).None? && Probed(tried, pick) == tried
    {
      var u := urls[i];
      assert forall x :: x in urls[..i + 1] <==> x in urls[..i] || x == u by {
        assert urls[..i + 1] == urls[..i] + [u];
      }
      if u in seen {
        ScanSeen(urls, i);
        continue;
      }
      seen := seen + {u};
      ScanNew(urls, i, pick);
      tried := tried + [u];
      var r := get(u);
      if Accepts(r) {
        assert pick(u) == Some(r.value.body);
        ScanStop(urls, i, pick);
        return Some(r.value.body), tried;
      }
      assert pick(u).None?;
    }
    assert urls[..|urls|] == urls;
    return None, tried;
  }

  /** `_fetch_bibtex_from_info`: the first accepted body among the de-duplicated candidates. */
  method FetchBibtex(url: Option<string>, key: Option<string>, get: Oracle)
    returns (result: Option<string>, ghost tried: seq<string>)
    ensures result == FirstAccepted(Dedup(Candidates(url, key)), get)
    ensures tried == Attempts(Dedup(Candidates(url, key)), get)
  {
    var urls := CandidateUrls(url, key);
    result, tried := FirstRecord(urls, get);
  }
}
