/**
 * The fallback citation: `generate_bibtex_simple` builds a BibTeX `@article`
 * record from a title, an author list, an optional year and an optional URL
 * when no record could be fetched from DBLP.
 */
module Synth {
  import opened Wrappers
  import opened Text

  /** How many characters of the slug the citation key keeps (`key_base[:40]`). */
  const KeyBaseLength := 40

  /** The characters a citation key is made of: `[a-z0-9_]`. */
  predicate IsKeyChar(c: char) {
    ('a' <= c <= 'z') || ('0' <= c <= '9') || c == '_'
  }

  /** Text made of key characters only. */
  predicate IsKeyText(s: string) {
    forall k :: 0 <= k < |s| ==> IsKeyChar(s[k])
  }

  /** No two underscores in a row. */
  predicate NoDoubleUnderscore(s: string) {
    forall k :: 0 <= k < |s| - 1 ==> !(s[k] == '_' && s[k + 1] == '_')
  }

  predicate HasNoUpper(s: string) {
    forall k :: 0 <= k < |s| ==> !IsUpper(s[k])
  }

  // ---------------------------------------------------------------------------
  // The slug: re.sub(r'[^a-zA-Z0-9]+', '_', ...).strip('_')

  /** `s` without its leading characters outside `[a-zA-Z0-9]`. */
  function DropNonAlnum(s: string): (r: string)
    ensures |r| <= |s| && r == s[|s| - |r|..]
    ensures r == [] || IsAlnum(r[0])
    ensures forall k :: 0 <= k < |s| - |r| ==> !IsAlnum(s[k])
    decreases |s|
  {
    if s == [] || IsAlnum(s[0]) then s else DropNonAlnum(s[1..])
  }

  /**
   * `re.sub(r'[^a-zA-Z0-9]+', '_', s)`: every maximal run of characters
   * outside `[a-zA-Z0-9]` becomes a single `_`; letters and digits stay.
   */
  function Collapse(s: string): (r: string)
    ensures (r != [] && r[0] == '_') <==> (s != [] && !IsAlnum(s[0]))
    ensures r == [] <==> s == []
    decreases |s|
  {
    if s == [] then ""
    else if IsAlnum(s[0]) then [s[0]] + Collapse(s[1..])
    else "_" + Collapse(DropNonAlnum(s[1..]))
  }

  /** Putting a character in front of `__`-free text keeps it so unless both are underscores. */
  lemma NoDoubleUnderscoreCons(c: char, r: string)
    requires NoDoubleUnderscore(r)
    requires c == '_' ==> r == [] || r[0] != '_'
    ensures NoDoubleUnderscore([c] + r)
  {
    var s := [c] + r;
    assert forall k :: 1 <= k < |s| ==> s[k] == r[k - 1];
  }

  /** Every run of underscores the substitution produces is a single one. */
  lemma {:induction false} CollapseNoDoubleUnderscore(s: string)
    ensures NoDoubleUnderscore(Collapse(s))
    decreases |s|
  {
    if s == [] {
    } else if IsAlnum(s[0]) {
      CollapseNoDoubleUnderscore(s[1..]);
      NoDoubleUnderscoreCons(s[0], Collapse(s[1..]));
    } else {
      var d := DropNonAlnum(s[1..]);
      CollapseNoDoubleUnderscore(d);
      NoDoubleUnderscoreCons('_', Collapse(d));
    }
  }

  /** Dropping the leading non-alphanumerics of a run followed by `b` leaves `b` when `b` starts with a letter or digit. */
  lemma {:induction false} DropNonAlnumRun(r: string, b: string)
    requires forall k :: 0 <= k < |r| ==> !IsAlnum(r[k])
    requires b == [] || IsAlnum(b[0])
    ensures DropNonAlnum(r + b) == b
    decreases |r|
  {
    if r == [] {
      assert r + b == b;
    } else {
      assert (r + b)[1..] == r[1..] + b;
      DropNonAlnumRun(r[1..], b);
    }
  }

  /** When `t` ends with a letter or digit, what follows it is never dropped. */
  lemma {:induction false} DropNonAlnumAppend(t: string, u: string)
    requires t != [] && IsAlnum(t[|t| - 1])
    ensures DropNonAlnum(t + u) == DropNonAlnum(t) + u
    decreases |t|
  {
    if !IsAlnum(t[0]) {
      assert (t + u)[1..] == t[1..] + u;
      DropNonAlnumAppend(t[1..], u);
    }
  }

  /** A run of characters outside `[a-zA-Z0-9]` at the start becomes one `_`. */
  lemma CollapseLeadingRun(r: string, b: string)
    requires r != [] && forall k :: 0 <= k < |r| ==> !IsAlnum(r[k])
    requires b == [] || IsAlnum(b[0])
    ensures Collapse(r + b) == "_" + Collapse(b)
  {
    assert (r + b)[0] == r[0];
    assert (r + b)[1..] == r[1..] + b;
    DropNonAlnumRun(r[1..], b);
  }

  /** A letter or digit in front is kept as it is. */
  lemma CollapseAlnumCons(c: char, y: string)
    requires IsAlnum(c)
    ensures Collapse([c] + y) == [c] + Collapse(y)
  {
    assert ([c] + y)[1..] == y;
  }

  /** One step of `CollapseRun` past a leading letter or digit. */
  lemma CollapseAlnumStep(a: string, rest: string, tail: string)
    requires a != [] && IsAlnum(a[0])
    requires Collapse(a[1..] + rest) == Collapse(a[1..]) + tail
    ensures Collapse(a + rest) == Collapse(a) + tail
  {
    var c, x := a[0], a[1..];
    HeadTail(a, rest);
    CollapseAlnumCons(c, x + rest);
    CollapseAlnumCons(c, x);
    AppendAssoc([c], Collapse(x), tail);
  }

  /** A character outside `[a-zA-Z0-9]` in front starts a run that becomes one `_`. */
  lemma CollapseSkipCons(c: char, y: string)
    requires !IsAlnum(c)
    ensures Collapse([c] + y) == "_" + Collapse(DropNonAlnum(y))
  {
    assert ([c] + y)[1..] == y;
  }

  /** One step of `CollapseRun` past a leading run that `a` itself ends. */
  lemma CollapseSkipStep(a: string, rest: string, tail: string)
    requires a != [] && !IsAlnum(a[0])
    requires DropNonAlnum(a[1..] + rest) == DropNonAlnum(a[1..]) + rest
    requires Collapse(DropNonAlnum(a[1..]) + rest) == Collapse(DropNonAlnum(a[1..])) + tail
    ensures Collapse(a + rest) == Collapse(a) + tail
  {
    var c, x := a[0], a[1..];
    HeadTail(a, rest);
    CollapseSkipCons(c, x + rest);
    CollapseSkipCons(c, x);
    AppendAssoc("_", Collapse(DropNonAlnum(x)), tail);
  }

  /**
   * Where the underscores go: a non-empty run of characters outside
   * `[a-zA-Z0-9]` between a part ending in a letter or digit (or nothing) and
   * one starting with a letter or digit (or nothing) becomes exactly one `_`,
   * and the parts on either side are substituted on their own.
   */
  lemma {:induction false} CollapseRun(a: string, r: string, b: string)
    requires a == [] || IsAlnum(a[|a| - 1])
    requires r != [] && forall k :: 0 <= k < |r| ==> !IsAlnum(r[k])
    requires b == [] || IsAlnum(b[0])
    ensures Collapse(a + (r + b)) == Collapse(a) + ("_" + Collapse(b))
    decreases |a|
  {
    if a == [] {
      CollapseRunAlone(a, r, b);
    } else if IsAlnum(a[0]) {
      CollapseRun(a[1..], r, b);
      CollapseAlnumStep(a, r + b, "_" + Collapse(b));
    } else {
      var d := SkipRun(a, r + b);
      CollapseRun(d, r, b);
      CollapseSkipStep(a, r + b, "_" + Collapse(b));
    }
  }

  /** `CollapseRun` with nothing before the run. */
  lemma CollapseRunAlone(a: string, r: string, b: string)
    requires a == []
    requires r != [] && forall k :: 0 <= k < |r| ==> !IsAlnum(r[k])
    requires b == [] || IsAlnum(b[0])
    ensures Collapse(a + (r + b)) == Collapse(a) + ("_" + Collapse(b))
  {
    assert a + (r + b) == r + b;
    CollapseLeadingRun(r, b);
  }

  /**
   * Past a leading run of `a`, which ends with a letter or digit, what is left
   * of `a` is shorter, still ends with that letter or digit, and is followed by
   * `rest` unchanged.
   */
  lemma SkipRun(a: string, rest: string) returns (d: string)
    requires a != [] && !IsAlnum(a[0]) && IsAlnum(a[|a| - 1])
    ensures d == DropNonAlnum(a[1..])
    ensures |d| < |a| && d != [] && IsAlnum(d[|d| - 1])
    ensures DropNonAlnum(a[1..] + rest) == d + rest
  {
    d := DropNonAlnum(a[1..]);
    DropNonAlnumAppend(a[1..], rest);
    assert d[|d| - 1] == a[|a| - 1];
  }

  /** Collapsing lower-case text gives key characters only. */
  lemma {:induction false} CollapseKeyText(s: string)
    requires HasNoUpper(s)
    ensures IsKeyText(Collapse(s))
    decreases |s|
  {
    if s == [] {
    } else if IsAlnum(s[0]) {
      CollapseKeyText(s[1..]);
    } else {
      var d := DropNonAlnum(s[1..]);
      assert forall k :: 0 <= k < |d| ==> d[k] == s[|s| - |d| + k];
      CollapseKeyText(d);
    }
  }

  /** The letters and digits of `s`, in order. */
  function Alnums(s: string): string
  {
    if s == [] then ""
    else if IsAlnum(s[0]) then [s[0]] + Alnums(s[1..])
    else Alnums(s[1..])
  }

  lemma {:induction false} AlnumsAppend(a: string, b: string)
    ensures Alnums(a + b) == Alnums(a) + Alnums(b)
  {
    if a == [] {
      assert a + b == b;
    } else {
      assert (a + b)[1..] == a[1..] + b;
      AlnumsAppend(a[1..], b);
    }
  }

  lemma {:induction false} AlnumsOfNone(s: string)
    requires forall k :: 0 <= k < |s| ==> !IsAlnum(s[k])
    ensures Alnums(s) == ""
  {
    if s != [] {
      AlnumsOfNone(s[1..]);
    }
  }

  /** Collapsing keeps every letter and digit of its input, in order, and adds none. */
  lemma {:induction false} CollapseKeepsAlnums(s: string)
    ensures Alnums(Collapse(s)) == Alnums(s)
    decreases |s|
  {
    if s == [] {
    } else if IsAlnum(s[0]) {
      CollapseKeepsAlnums(s[1..]);
      assert ([s[0]] + Collapse(s[1..]))[1..] == Collapse(s[1..]);
    } else {
      var t := s[1..];
      var d := DropNonAlnum(t);
      CollapseKeepsAlnums(d);
      assert ("_" + Collapse(d))[1..] == Collapse(d);
      assert t == t[..|t| - |d|] + d;
      AlnumsAppend(t[..|t| - |d|], d);
      AlnumsOfNone(t[..|t| - |d|]);
    }
  }

  /** A slice of key text free of `__` is still both. */
  lemma SliceOfKeyText(c: string, i: nat, j: nat)
    requires i <= j <= |c|
    ensures NoDoubleUnderscore(c) ==> NoDoubleUnderscore(c[i..j])
    ensures IsKeyText(c) ==> IsKeyText(c[i..j])
  {
    assert forall k :: 0 <= k < j - i ==> c[i..j][k] == c[i + k];
  }

  /** Text without letters or digits on either side adds none to the middle. */
  lemma AlnumsBetween(p: string, m: string, q: string)
    requires Alnums(p) == "" && Alnums(q) == ""
    ensures Alnums(p + m + q) == Alnums(m)
  {
    AlnumsAppend(p + m, q);
    AlnumsAppend(p, m);
    assert "" + Alnums(m) + "" == Alnums(m);
  }

  /** Cutting off a prefix and a suffix without letters or digits keeps every letter and digit. */
  lemma AlnumsOfMiddle(c: string, i: nat, j: nat)
    requires i <= j <= |c|
    requires forall k :: 0 <= k < i ==> !IsAlnum(c[k])
    requires forall k :: j <= k < |c| ==> !IsAlnum(c[k])
    ensures Alnums(c[i..j]) == Alnums(c)
  {
    SliceThree(c, i, j);
    AlnumsOfNone(c[..i]);
    AlnumsOfNone(c[j..]);
    AlnumsBetween(c[..i], c[i..j], c[j..]);
  }

  /**
   * Stripping underscores from collapsed text keeps it free of `__`, keeps its
   * alphabet and drops no letter or digit.
   */
  lemma StripUnderscores(c: string)
    ensures NoDoubleUnderscore(c) ==> NoDoubleUnderscore(Strip(c, {'_'}))
    ensures IsKeyText(c) ==> IsKeyText(Strip(c, {'_'}))
    ensures Alnums(Strip(c, {'_'})) == Alnums(c)
  {
    var i := LeadCount(c, {'_'});
    var t := c[i..];
    var n := TrailCount(t, {'_'});
    var j := |c| - n;
    assert Strip(c, {'_'}) == c[i..j];
    assert forall k :: j <= k < |c| ==> c[k] == t[k - i];
    SliceOfKeyText(c, i, j);
    AlnumsOfMiddle(c, i, j);
  }

  /** What the key is derived from: the title (or `entry` when it is empty), lower-cased. */
  function KeySource(title: string): string
  {
    Lower(if title == "" then "entry" else title)
  }

  /** The key base before truncation: `re.sub(...).strip('_')` of the key source. */
  function KeyBase(title: string): string
  {
    Strip(Collapse(KeySource(title)), {'_'})
  }

  /**
   * The key base is made of `[a-z0-9_]` only, never holds `__`, neither starts
   * nor ends with `_`, and keeps exactly the letters and digits of the
   * lower-cased title, in order.
   */
  lemma KeyBaseWellFormed(title: string)
    ensures IsKeyText(KeyBase(title))
    ensures NoDoubleUnderscore(KeyBase(title))
    ensures KeyBase(title) == [] || (KeyBase(title)[0] != '_' && KeyBase(title)[|KeyBase(title)| - 1] != '_')
    ensures Alnums(KeyBase(title)) == Alnums(KeySource(title))
  {
    var src := KeySource(title);
    CollapseKeyText(src);
    CollapseNoDoubleUnderscore(src);
    CollapseKeepsAlnums(src);
    StripUnderscores(Collapse(src));
  }

  // ---------------------------------------------------------------------------
  // The key, the author string and the record

  /** Text of letters and digits only is left as it is by the substitution. */
  lemma {:induction false} CollapseOfAlnums(s: string)
    requires forall k :: 0 <= k < |s| ==> IsAlnum(s[k])
    ensures Collapse(s) == s
    decreases |s|
  {
    if s != [] {
      CollapseOfAlnums(s[1..]);
      assert [s[0]] + s[1..] == s;
    }
  }

  /** The slug of `entry`, which stands in for an empty title, is `entry`. */
  lemma EntryKeyBase()
    ensures KeyBase("") == "entry"
  {
    var e := "entry";
    assert forall k :: 0 <= k < |e| ==> 'a' <= e[k] <= 'z';
    KeepsLowerAlnums(e);
  }

  /** Lower-case letters and digits pass through the slug unchanged. */
  lemma KeepsLowerAlnums(s: string)
    requires s != []
    requires forall k :: 0 <= k < |s| ==> ('a' <= s[k] <= 'z') || ('0' <= s[k] <= '9')
    ensures Strip(Collapse(Lower(s)), {'_'}) == s
  {
    assert Lower(s) == s;
    CollapseOfAlnums(s);
    StripNothing(s, {'_'});
  }

  /**
   * An empty title keys the record as `entry`, while the record's title line
   * still carries the empty title.
   */
  lemma EmptyTitleRecord(authors: seq<string>, year: Option<string>, url: Option<string>)
    ensures KeyBase("") == "entry"
    ensures StartsWith(RecordText("", authors, year, url),
      HeaderLine(KeyOf(KeyBase(""), year)) + "\n" + FieldLine("title", "") + "\n")
  {
    EntryKeyBase();
    RecordFrame("", authors, year, url);
    StartsWithPrefix(RecordText("", authors, year, url),
      HeaderLine(CitationKey("", year)) + "\n" + FieldLine("title", "") + "\n",
      FieldLine("author", AuthorString(authors)), "\n");
  }

  /** The year part of the key: the year when it is all digits, otherwise `noyear`. */
  function KeyYear(year: Option<string>): string
  {
    if year.Some? && IsDigits(year.value) then year.value else "noyear"
  }

  /** `f"{key_base[:40]}_{key_year}"` for a given key base. */
  function KeyOf(base: string, year: Option<string>): string
  {
    SliceTo(base, KeyBaseLength) + "_" + KeyYear(year)
  }

  /** The citation key of a title and year. */
  function CitationKey(title: string, year: Option<string>): string
  {
    KeyOf(KeyBase(title), year)
  }

  /** The shape of a key built from a key-text base. */
  lemma KeyOfShape(base: string, year: Option<string>)
    requires IsKeyText(base)
    ensures IsKeyText(KeyOf(base, year))
    ensures StartsWith(KeyOf(base, year), SliceTo(base, KeyBaseLength))
    ensures |SliceTo(base, KeyBaseLength)| == if |base| < KeyBaseLength then |base| else KeyBaseLength
    ensures year.Some? && IsDigits(year.value) ==> EndsWith(KeyOf(base, year), "_" + year.value)
    ensures !(year.Some? && IsDigits(year.value)) ==> EndsWith(KeyOf(base, year), "_noyear")
  {
    var y := KeyYear(year);
    assert IsKeyText(y);
    KeyParts(base, y);
  }

  /**
   * The key is made of `[a-z0-9_]` only; it starts with at most 40 characters
   * of the key base and ends with `_` and the year when that is all digits,
   * `_noyear` otherwise.
   */
  lemma CitationKeyShape(title: string, year: Option<string>)
    ensures IsKeyText(CitationKey(title, year))
    ensures StartsWith(CitationKey(title, year), SliceTo(KeyBase(title), KeyBaseLength))
    ensures |SliceTo(KeyBase(title), KeyBaseLength)| == if |KeyBase(title)| < KeyBaseLength then |KeyBase(title)| else KeyBaseLength
    ensures year.Some? && IsDigits(year.value) ==> EndsWith(CitationKey(title, year), "_" + year.value)
    ensures !(year.Some? && IsDigits(year.value)) ==> EndsWith(CitationKey(title, year), "_noyear")
  {
    KeyBaseWellFormed(title);
    KeyOfShape(KeyBase(title), year);
  }

  /** `base[:40] + "_" + y` for key texts `base` and `y`. */
  lemma KeyParts(base: string, y: string)
    requires IsKeyText(base) && IsKeyText(y)
    ensures IsKeyText(SliceTo(base, KeyBaseLength) + "_" + y)
    ensures StartsWith(SliceTo(base, KeyBaseLength) + "_" + y, SliceTo(base, KeyBaseLength))
    ensures EndsWith(SliceTo(base, KeyBaseLength) + "_" + y, "_" + y)
  {
    var b := SliceTo(base, KeyBaseLength);
    SliceOfKeyText(base, 0, |b|);
    KeyTextConcat(b, "_");
    KeyTextConcat(b + "_", y);
    ConcatEnds(b, "_" + y);
    assert b + "_" + y == b + ("_" + y);
  }

  lemma KeyTextConcat(a: string, b: string)
    requires IsKeyText(a) && IsKeyText(b)
    ensures IsKeyText(a + b)
  {
    assert forall k :: |a| <= k < |a + b| ==> (a + b)[k] == b[k - |a|];
  }

  /** `' and '.join([a for a in authors if a]) if authors else 'Unknown'`. */
  function AuthorString(authors: seq<string>): string
  {
    if authors == [] then "Unknown" else Join(KeepNonEmpty(authors), " and ")
  }

  /**
   * The author string reads `Unknown` exactly when the list is empty or its
   * only non-empty name is itself `Unknown`; a list of empty names gives "".
   */
  lemma AuthorStringUnknown(authors: seq<string>)
    ensures AuthorString(authors) == "Unknown" <==> authors == [] || KeepNonEmpty(authors) == ["Unknown"]
    ensures authors != [] && KeepNonEmpty(authors) == [] ==> AuthorString(authors) == ""
  {
    var names := KeepNonEmpty(authors);
    if authors != [] && |names| >= 2 {
      var s := AuthorString(authors);
      assert s == names[0] + " and " + Join(names[1..], " and ");
      assert s[|names[0]|] == ' ';
    }
  }

  /** `f"  {name}={{{{ {value} }}}},"`: one field line, the value between `{{ ` and ` }}`. */
  function FieldLine(name: string, value: string): string
  {
    "  " + name + "={{ " + value + " }},"
  }

  /** The header line `@article{KEY,`. */
  function HeaderLine(key: string): string
  {
    "@article{" + key + ","
  }

  /** The optional lines of a record: the year line, then the URL line, each when present and non-empty. */
  function OptionalLines(year: Option<string>, url: Option<string>): seq<string>
  {
    OptionalLine("year", year) + OptionalLine("url", url)
  }

  /** The field line of an optional value, when it is present and non-empty. */
  function OptionalLine(name: string, value: Option<string>): seq<string>
  {
    if Truthy(value) then [FieldLine(name, value.value)] else []
  }

  /**
   * The record's lines for a given key and author string, in order: header,
   * title, author, the year line when the year is present and non-empty, the
   * URL line likewise, and the closing brace.
   */
  function Lines(key: string, title: string, authorStr: string, year: Option<string>, url: Option<string>): (lines: seq<string>)
    ensures 4 <= |lines| <= 6 && lines[|lines| - 1] == "}"
  {
    [HeaderLine(key), FieldLine("title", title), FieldLine("author", authorStr)] + OptionalLines(year, url) + ["}"]
  }

  /** The lines of the record `generate_bibtex_simple` synthesises. */
  function RecordLines(title: string, authors: seq<string>, year: Option<string>, url: Option<string>): seq<string>
  {
    Lines(CitationKey(title, year), title, AuthorString(authors), year, url)
  }

  /** The record text: the lines joined with newlines. */
  function RecordText(title: string, authors: seq<string>, year: Option<string>, url: Option<string>): string
  {
    Join(RecordLines(title, authors, year, url), "\n")
  }

  /** Joining three lines, optional lines and `}` with newlines. */
  lemma LinesFrame(h: string, t: string, a: string, opt: seq<string>)
    ensures StartsWith(Join([h, t, a] + opt + ["}"], "\n"), h + "\n" + t + "\n" + a + "\n")
    ensures EndsWith(Join([h, t, a] + opt + ["}"], "\n"), "\n}")
    ensures StartsWith(Join([h, t, a] + opt + ["}"], "\n"), h)
  {
    var rest := opt + ["}"];
    assert [h, t, a] + opt + ["}"] == [h] + ([t] + ([a] + rest));
    JoinCons(h, [t] + ([a] + rest), "\n");
    JoinCons(t, [a] + rest, "\n");
    JoinCons(a, rest, "\n");
    var head := h + "\n" + t + "\n" + a + "\n";
    var text := Join([h, t, a] + opt + ["}"], "\n");
    assert text == head + Join(rest, "\n");
    ConcatEnds(head, Join(rest, "\n"));
    ConcatEnds(h + "\n", Join([t] + ([a] + rest), "\n"));
    StartsWithPrefix(text, h, "\n", "");
    if opt == [] {
      assert rest == ["}"];
      assert text == (h + "\n" + t + "\n" + a) + "\n}";
      ConcatEnds(h + "\n" + t + "\n" + a, "\n}");
    } else {
      JoinSnoc(opt, "}", "\n");
      assert text == (head + Join(opt, "\n")) + "\n}";
      ConcatEnds(head + Join(opt, "\n"), "\n}");
    }
  }

  /** The joined lines start with the three fixed lines and end with `\n}`. */
  lemma JoinedLinesFrame(key: string, title: string, authorStr: string, year: Option<string>, url: Option<string>)
    ensures StartsWith(Join(Lines(key, title, authorStr, year, url), "\n"),
      HeaderLine(key) + "\n" + FieldLine("title", title) + "\n" + FieldLine("author", authorStr) + "\n")
    ensures EndsWith(Join(Lines(key, title, authorStr, year, url), "\n"), "\n}")
  {
    LinesFrame(HeaderLine(key), FieldLine("title", title), FieldLine("author", authorStr), OptionalLines(year, url));
  }

  /** The joined lines start with `@article{`. */
  lemma JoinedLinesHeader(key: string, title: string, authorStr: string, year: Option<string>, url: Option<string>)
    ensures StartsWith(Join(Lines(key, title, authorStr, year, url), "\n"), "@article{")
  {
    var h := HeaderLine(key);
    LinesFrame(h, FieldLine("title", title), FieldLine("author", authorStr), OptionalLines(year, url));
    ConcatEnds("@article{", key + ",");
    assert h == "@article{" + (key + ",");
    StartsWithTrans(Join(Lines(key, title, authorStr, year, url), "\n"), h, "@article{");
  }

  /**
   * The record opens with the header, title and author lines verbatim (so it
   * starts with `@article{`) and closes with a newline and `}`.
   */
  lemma RecordFrame(title: string, authors: seq<string>, year: Option<string>, url: Option<string>)
    ensures StartsWith(RecordText(title, authors, year, url),
      HeaderLine(CitationKey(title, year)) + "\n" + FieldLine("title", title) + "\n"
      + FieldLine("author", AuthorString(authors)) + "\n")
    ensures StartsWith(RecordText(title, authors, year, url), "@article{")
    ensures EndsWith(RecordText(title, authors, year, url), "\n}")
  {
    JoinedLinesFrame(CitationKey(title, year), title, AuthorString(authors), year, url);
    JoinedLinesHeader(CitationKey(title, year), title, AuthorString(authors), year, url);
  }

  /** The record opens with `@article{` and closes with `}`. */
  lemma RecordEnds(title: string, authors: seq<string>, year: Option<string>, url: Option<string>)
    ensures StartsWith(RecordText(title, authors, year, url), "@article{")
    ensures EndsWith(RecordText(title, authors, year, url), "}")
  {
    RecordFrame(title, authors, year, url);
    ConcatEnds("\n", "}");
    EndsWithTrans(RecordText(title, authors, year, url), "\n}", "}");
  }

  lemma FieldLineAvoidsNewline(name: string, value: string)
    requires '\n' !in name && '\n' !in value
    ensures '\n' !in FieldLine(name, value)
  {
  }

  /** Lines without newlines in their fields are recovered by splitting their join. */
  lemma JoinedLinesSplit(key: string, title: string, authorStr: string, year: Option<string>, url: Option<string>)
    requires '\n' !in key && '\n' !in title && '\n' !in authorStr
    requires year.Some? ==> '\n' !in year.value
    requires url.Some? ==> '\n' !in url.value
    ensures Split(Join(Lines(key, title, authorStr, year, url), "\n"), '\n') == Lines(key, title, authorStr, year, url)
  {
    var lines := Lines(key, title, authorStr, year, url);
    FieldLineAvoidsNewline("title", title);
    FieldLineAvoidsNewline("author", authorStr);
    if Truthy(year) {
      FieldLineAvoidsNewline("year", year.value);
    }
    if Truthy(url) {
      FieldLineAvoidsNewline("url", url.value);
    }
    assert '\n' !in HeaderLine(key);
    assert forall i :: 0 <= i < |lines| ==> '\n' !in lines[i];
    assert "\n" == ['\n'];
    SplitJoin(lines, '\n');
  }

  /**
   * When no field holds a newline, splitting the record on newlines gives back
   * exactly its lines.
   */
  lemma RecordSplitsIntoLines(title: string, authors: seq<string>, year: Option<string>, url: Option<string>)
    requires '\n' !in title
    requires forall i :: 0 <= i < |authors| ==> '\n' !in authors[i]
    requires year.Some? ==> '\n' !in year.value
    requires url.Some? ==> '\n' !in url.value
    ensures Split(RecordText(title, authors, year, url), '\n') == RecordLines(title, authors, year, url)
  {
    CitationKeyShape(title, year);
    KeyTextAvoidsNewline(CitationKey(title, year));
    AuthorStringAvoidsNewline(authors);
    JoinedLinesSplit(CitationKey(title, year), title, AuthorString(authors), year, url);
  }

  lemma KeyTextAvoidsNewline(key: string)
    requires IsKeyText(key)
    ensures '\n' !in key
  {
    assert forall k :: 0 <= k < |key| ==> key[k] != '\n';
  }

  lemma AuthorStringAvoidsNewline(authors: seq<string>)
    requires forall i :: 0 <= i < |authors| ==> '\n' !in authors[i]
    ensures '\n' !in AuthorString(authors)
  {
    if authors != [] {
      var names := KeepNonEmpty(authors);
      KeepNonEmptyMembers(authors);
      assert forall i :: 0 <= i < |names| ==> names[i] in authors;
      JoinAvoids(names, " and ", '\n');
    }
  }

  /**
   * `generate_bibtex_simple`: collects the record's lines one append at a time
   * and joins them with newlines.
   */
  method GenerateBibtexSimple(title: string, authors: seq<string>, year: Option<string>, url: Option<string>)
    returns (bib: string)
    ensures bib == RecordText(title, authors, year, url)
    ensures StartsWith(bib, "@article{") && EndsWith(bib, "}")
  {
    var key := CitationKey(title, year);
    var authorStr := AuthorString(authors);
    var lines: seq<string> := [];
    lines := lines + [HeaderLine(key)];
    lines := lines + [FieldLine("title", title)];
    lines := lines + [FieldLine("author", authorStr)];
    ghost var fixed := lines;
    AppendThree(HeaderLine(key), FieldLine("title", title), FieldLine("author", authorStr));
    if Truthy(year) {
      lines := lines + [FieldLine("year", year.value)];
    }
    assert lines == fixed + OptionalLine("year", year);
    ghost var withYear := lines;
    if Truthy(url) {
      lines := lines + [FieldLine("url", url.value)];
    }
    assert lines == withYear + OptionalLine("url", url);
    AppendAssoc(fixed, OptionalLine("year", year), OptionalLine("url", url));
    lines := lines + ["}"];
    assert lines == Lines(key, title, authorStr, year, url);
    bib := Join(lines, "\n");
    RecordEnds(title, authors, year, url);
  }
}
