/**
 * The handful of Python string and list operations the application relies on:
 * `sep.join(parts)`, `s.split(c)`, `s.strip(chars)`, `startswith`/`endswith`,
 * `isdigit`, ASCII `lower`, slicing `s[:n]` and the filter `[a for a in xs if a]`.
 * Strings are sequences of characters; only the ASCII behaviour of `lower`,
 * `isdigit` and `strip` is modelled.
 */
module Text {

  // ---------------------------------------------------------------------------
  // Prefixes, suffixes, slices

  predicate StartsWith(s: string, prefix: string) {
    |prefix| <= |s| && s[..|prefix|] == prefix
  }

  predicate EndsWith(s: string, suffix: string) {
    |suffix| <= |s| && s[|s| - |suffix|..] == suffix
  }

  lemma ConcatEnds(a: string, b: string)
    ensures StartsWith(a + b, a) && EndsWith(a + b, b)
  {
    assert (a + b)[..|a|] == a;
    assert (a + b)[|a + b| - |b|..] == b;
  }

  lemma StartsWithTrans(s: string, p: string, q: string)
    requires StartsWith(s, p) && StartsWith(p, q)
    ensures StartsWith(s, q)
  {
    assert s[..|q|] == s[..|p|][..|q|];
  }

  lemma EndsWithTrans(s: string, p: string, q: string)
    requires EndsWith(s, p) && EndsWith(p, q)
    ensures EndsWith(s, q)
  {
    assert s[|s| - |q|..] == s[|s| - |p|..][|p| - |q|..];
  }

  lemma StartsWithPrefix(s: string, a: string, b: string, c: string)
    requires StartsWith(s, a + b + c)
    ensures StartsWith(s, a)
  {
    assert s[..|a|] == (a + b + c)[..|a|];
  }

  /** Python `s[:n]` on a string or list: a negative `n` counts from the end. */
  function SliceTo<T>(s: seq<T>, n: int): (r: seq<T>)
    ensures |r| <= |s|
    ensures n >= 0 ==> |r| <= n
    ensures r == s[..|r|]
    ensures n >= 0 && n <= |s| ==> |r| == n
    ensures n < 0 ==> |r| == if |s| + n >= 0 then |s| + n else 0
  {
    if n >= 0 then
      (if n <= |s| then s[..n] else s)
    else
      (if |s| + n >= 0 then s[..|s| + n] else [])
  }

  /** Three singleton appends onto the empty sequence give the three-element sequence. */
  lemma AppendThree<T>(x: T, y: T, z: T)
    ensures [] + [x] + [y] + [z] == [x, y, z]
  {
  }

  /** A non-empty sequence is its head in front of its tail, also when something follows. */
  lemma HeadTail<T>(a: seq<T>, rest: seq<T>)
    requires a != []
    ensures a == [a[0]] + a[1..] && a + rest == [a[0]] + (a[1..] + rest)
  {
  }

  /** A sequence cut at `i` and `j` is the concatenation of the three pieces, each holding the elements at its positions. */
  lemma SliceThree<T>(c: seq<T>, i: nat, j: nat)
    requires i <= j <= |c|
    ensures c == c[..i] + c[i..j] + c[j..]
    ensures forall k :: 0 <= k < i ==> c[..i][k] == c[k]
    ensures forall k :: 0 <= k < |c| - j ==> c[j..][k] == c[j + k]
  {
  }

  /** Concatenation is associative. */
  lemma AppendAssoc<T>(a: seq<T>, b: seq<T>, c: seq<T>)
    ensures a + b + c == a + (b + c)
  {
  }

  // ---------------------------------------------------------------------------
  // Characters

  /** The characters of the regular-expression class `[a-zA-Z0-9]`. */
  predicate IsAlnum(c: char) {
    ('a' <= c <= 'z') || ('A' <= c <= 'Z') || ('0' <= c <= '9')
  }

  predicate IsDigit(c: char) {
    '0' <= c <= '9'
  }

  predicate IsUpper(c: char) {
    'A' <= c <= 'Z'
  }

  /** Python `str.isdigit()` on ASCII text: non-empty and made of digits only. */
  predicate IsDigits(s: string) {
    |s| > 0 && forall i :: 0 <= i < |s| ==> IsDigit(s[i])
  }

  function LowerChar(c: char): (r: char)
    ensures !IsUpper(r)
    ensures IsAlnum(r) <==> IsAlnum(c)
    ensures !IsUpper(c) ==> r == c
  {
    if IsUpper(c) then (c as int - 'A' as int + 'a' as int) as char else c
  }

  /** Python `str.lower()` restricted to ASCII letters. */
  function Lower(s: string): (r: string)
    ensures |r| == |s|
    ensures forall i :: 0 <= i < |s| ==> r[i] == LowerChar(s[i])
  {
    seq(|s|, i requires 0 <= i < |s| => LowerChar(s[i]))
  }

  /** The characters Python's `str.strip()` removes, among ASCII characters. */
  const Whitespace: set<char> :=
    {' ', '\t', '\n', '\r', '\U{000B}', '\U{000C}', '\U{001C}', '\U{001D}', '\U{001E}', '\U{001F}'}

  // ---------------------------------------------------------------------------
  // strip

  /** How many leading characters of `s` are in `cs`. */
  function LeadCount(s: string, cs: set<char>): (n: nat)
    ensures n <= |s|
    ensures forall k :: 0 <= k < n ==> s[k] in cs
    ensures n == |s| || s[n] !in cs
    decreases |s|
  {
    if s != [] && s[0] in cs then 1 + LeadCount(s[1..], cs) else 0
  }

  /** How many trailing characters of `s` are in `cs`. */
  function TrailCount(s: string, cs: set<char>): (n: nat)
    ensures n <= |s|
    ensures forall k :: |s| - n <= k < |s| ==> s[k] in cs
    ensures n == |s| || s[|s| - n - 1] !in cs
    decreases |s|
  {
    if s != [] && s[|s| - 1] in cs then 1 + TrailCount(s[..|s| - 1], cs) else 0
  }

  /**
   * Python `s.strip(chars)`: `s` without its leading and trailing characters
   * from `cs`; what remains neither starts nor ends with one of them.
   */
  function Strip(s: string, cs: set<char>): (r: string)
    ensures r == [] || (r[0] !in cs && r[|r| - 1] !in cs)
  {
    var i := LeadCount(s, cs);
    s[i..|s| - TrailCount(s[i..], cs)]
  }

  /**
   * Only leading and trailing characters from `cs` are removed: what `strip`
   * leaves is a slice of `s` outside which every character is in `cs`.
   */
  lemma StripSlice(s: string, cs: set<char>)
    ensures var r := Strip(s, cs);
      exists i ::
        (0 <= i <= |s| - |r| && r == s[i..i + |r|] &&
         (forall c :: c in s[..i] ==> c in cs) &&
         (forall c :: c in s[i + |r|..] ==> c in cs))
  {
    var i := LeadCount(s, cs);
    var j := |s| - TrailCount(s[i..], cs);
    assert Strip(s, cs) == s[i..j];
    assert forall k :: 0 <= k < i ==> s[..i][k] in cs;
    assert forall k :: 0 <= k < |s| - j ==> s[j..][k] == s[i..][j - i + k];
    assert forall c :: c in s[j..] ==> c in cs;
    assert s[i..j] == s[i..i + |s[i..j]|] && s[j..] == s[i + |s[i..j]|..];
  }

  /** Text that neither starts nor ends with a character of `cs` is left as it is. */
  lemma StripNothing(s: string, cs: set<char>)
    requires s != [] && s[0] !in cs && s[|s| - 1] !in cs
    ensures Strip(s, cs) == s
  {
    assert LeadCount(s, cs) == 0;
    assert s[0..] == s;
    assert TrailCount(s, cs) == 0;
  }

  // ---------------------------------------------------------------------------
  // join

  /** Python `sep.join(parts)`. */
  function Join(parts: seq<string>, sep: string): string
  {
    if |parts| == 0 then ""
    else if |parts| == 1 then parts[0]
    else parts[0] + sep + Join(parts[1..], sep)
  }

  /** Total length of the parts. */
  function SumLengths(parts: seq<string>): nat
  {
    if parts == [] then 0 else |parts[0]| + SumLengths(parts[1..])
  }

  /** Where the `i`-th part starts in `Join(parts, sep)`. */
  function Offset(parts: seq<string>, sep: string, i: nat): nat
    requires i <= |parts|
  {
    SumLengths(parts[..i]) + i * |sep|
  }

  lemma {:induction false} JoinLength(parts: seq<string>, sep: string)
    ensures |parts| == 0 ==> |Join(parts, sep)| == 0
    ensures |parts| > 0 ==> |Join(parts, sep)| == SumLengths(parts) + (|parts| - 1) * |sep|
  {
    if |parts| > 1 {
      JoinLength(parts[1..], sep);
      assert (|parts| - 1) * |sep| == |sep| + (|parts| - 2) * |sep|;
    }
  }

  lemma {:induction false} OffsetStep(parts: seq<string>, sep: string, i: nat)
    requires 0 < i <= |parts|
    ensures Offset(parts, sep, i) == |parts[0]| + |sep| + Offset(parts[1..], sep, i - 1)
  {
    assert parts[..i][1..] == parts[1..][..i - 1];
    assert i * |sep| == |sep| + (i - 1) * |sep|;
  }

  /**
   * Joining keeps every part verbatim, in order: the `i`-th part sits at
   * `Offset(parts, sep, i)`, and exactly `sep` separates it from the next one.
   */
  lemma {:induction false} JoinPart(parts: seq<string>, sep: string, i: nat)
    requires i < |parts|
    ensures Offset(parts, sep, i) + |parts[i]| <= |Join(parts, sep)|
    ensures Join(parts, sep)[Offset(parts, sep, i)..Offset(parts, sep, i) + |parts[i]|] == parts[i]
    ensures i + 1 < |parts| ==>
      Offset(parts, sep, i + 1) == Offset(parts, sep, i) + |parts[i]| + |sep| &&
      Offset(parts, sep, i + 1) <= |Join(parts, sep)| &&
      Join(parts, sep)[Offset(parts, sep, i) + |parts[i]|..Offset(parts, sep, i + 1)] == sep
  {
    var j := Join(parts, sep);
    if i == 0 {
      assert Offset(parts, sep, 0) == 0 by { assert parts[..0] == []; }
      if |parts| > 1 {
        OffsetStep(parts, sep, 1);
        assert parts[1..][..0] == [];
        assert j == parts[0] + sep + Join(parts[1..], sep);
      }
    } else {
      var tail := parts[1..];
      JoinPart(tail, sep, i - 1);
      OffsetStep(parts, sep, i);
      if i + 1 < |parts| {
        OffsetStep(parts, sep, i + 1);
      }
      var d := |parts[0]| + |sep|;
      assert j == parts[0] + sep + Join(tail, sep);
      assert j[d..] == Join(tail, sep);
    }
  }

  /** `Join` of a list with at least two parts starts with its first part and a separator. */
  lemma JoinCons(x: string, rest: seq<string>, sep: string)
    requires rest != []
    ensures Join([x] + rest, sep) == x + sep + Join(rest, sep)
  {
    assert ([x] + rest)[1..] == rest;
  }

  /** Appending a part to a non-empty list adds one separator and the part. */
  lemma {:induction false} JoinSnoc(parts: seq<string>, x: string, sep: string)
    requires parts != []
    ensures Join(parts + [x], sep) == Join(parts, sep) + sep + x
  {
    if |parts| == 1 {
      JoinCons(parts[0], [x], sep);
      assert parts + [x] == [parts[0]] + [x];
    } else {
      JoinSnoc(parts[1..], x, sep);
      assert (parts + [x])[1..] == parts[1..] + [x];
    }
  }

  /** A character absent from every part and from the separator is absent from the join. */
  lemma {:induction false} JoinAvoids(parts: seq<string>, sep: string, c: char)
    requires c !in sep
    requires forall i :: 0 <= i < |parts| ==> c !in parts[i]
    ensures c !in Join(parts, sep)
  {
    if |parts| > 1 {
      JoinAvoids(parts[1..], sep, c);
    }
  }

  // ---------------------------------------------------------------------------
  // split

  /** Python `s.split(c)` for one separator character. */
  function Split(s: string, c: char): (r: seq<string>)
    ensures |r| >= 1
    decreases |s|
  {
    if s == [] then [""]
    else
      var rest := Split(s[1..], c);
      if s[0] == c then [""] + rest else [[s[0]] + rest[0]] + rest[1..]
  }

  lemma {:induction false} SplitNoSeparator(s: string, c: char)
    requires c !in s
    ensures Split(s, c) == [s]
    decreases |s|
  {
    if s != [] {
      SplitNoSeparator(s[1..], c);
      assert [s[0]] + s[1..] == s;
    }
  }

  lemma {:induction false} SplitAfterPart(a: string, b: string, c: char)
    requires c !in a
    ensures Split(a + [c] + b, c) == [a] + Split(b, c)
    decreases |a|
  {
    if a == [] {
      assert a + [c] + b == [c] + b;
      assert ([c] + b)[1..] == b;
    } else {
      var s := a + [c] + b;
      assert s[1..] == a[1..] + [c] + b;
      SplitAfterPart(a[1..], b, c);
      assert [a[0]] + a[1..] == a;
    }
  }

  /** Splitting on the separator character recovers the joined parts. */
  lemma {:induction false} SplitJoin(parts: seq<string>, c: char)
    requires |parts| >= 1
    requires forall i :: 0 <= i < |parts| ==> c !in parts[i]
    ensures Split(Join(parts, [c]), c) == parts
  {
    if |parts| == 1 {
      SplitNoSeparator(parts[0], c);
    } else {
      SplitJoin(parts[1..], c);
      SplitAfterPart(parts[0], Join(parts[1..], [c]), c);
      assert [parts[0]] + parts[1..] == parts;
    }
  }

  // ---------------------------------------------------------------------------
  // [a for a in xs if a]

  /** The non-empty strings of `xs`, in order. */
  function KeepNonEmpty(xs: seq<string>): (r: seq<string>)
    ensures |r| <= |xs|
    ensures forall k :: 0 <= k < |r| ==> r[k] != ""
  {
    if xs == [] then []
    else if xs[0] == "" then KeepNonEmpty(xs[1..])
    else [xs[0]] + KeepNonEmpty(xs[1..])
  }

  /** The filter keeps exactly the non-empty strings of `xs`. */
  lemma {:induction false} KeepNonEmptyMembers(xs: seq<string>)
    ensures forall x :: x in KeepNonEmpty(xs) <==> x in xs && x != ""
  {
    if xs != [] {
      KeepNonEmptyMembers(xs[1..]);
      assert xs == [xs[0]] + xs[1..];
    }
  }

  /** Filtering distributes over concatenation, so it never reorders. */
  lemma {:induction false} KeepNonEmptyAppend(a: seq<string>, b: seq<string>)
    ensures KeepNonEmpty(a + b) == KeepNonEmpty(a) + KeepNonEmpty(b)
  {
    if a == [] {
      assert a + b == b;
    } else {
      var ab := a + b;
      assert ab[0] == a[0];
      assert ab[1..] == a[1..] + b;
      KeepNonEmptyAppend(a[1..], b);
      if a[0] != "" {
        assert KeepNonEmpty(ab) == [a[0]] + KeepNonEmpty(a[1..] + b);
        assert KeepNonEmpty(a) == [a[0]] + KeepNonEmpty(a[1..]);
      }
    }
  }
}
