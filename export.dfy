/**
 * The download endpoint's file content: the citations of the posted entries
 * joined with a blank line between consecutive ones, in the order posted.
 */
module Export {
  import opened Wrappers
  import opened Text

  /** One posted entry. */
  datatype BibEntry = BibEntry(title: string, authors: string, year: Option<string>, bibtex: string)

  const Separator := "\n\n"

  /** The citations of the entries, in order. */
  function Citations(entries: seq<BibEntry>): (cs: seq<string>)
    ensures |cs| == |entries|
    ensures forall k :: 0 <= k < |entries| ==> cs[k] == entries[k].bibtex
  {
    seq(|entries|, k requires 0 <= k < |entries| => entries[k].bibtex)
  }

  /** The content written to `references.bib`. */
  function DownloadContent(entries: seq<BibEntry>): string
  {
    Join(Citations(entries), Separator)
  }

  /**
   * Nothing is added or lost: the content is empty for no entries, and
   * otherwise as long as the citations plus two characters between each
   * consecutive pair.
   */
  lemma ExportLength(entries: seq<BibEntry>)
    ensures entries == [] ==> DownloadContent(entries) == ""
    ensures entries != [] ==>
      |DownloadContent(entries)| == SumLengths(Citations(entries)) + 2 * (|entries| - 1)
  {
    JoinLength(Citations(entries), Separator);
  }

  /**
   * Every citation appears verbatim, in input order, at its offset, and
   * exactly a blank line separates it from the next one.
   */
  lemma ExportVerbatim(entries: seq<BibEntry>, i: nat)
    requires i < |entries|
    ensures var cs := Citations(entries);
      var at := Offset(cs, Separator, i);
      at + |entries[i].bibtex| <= |DownloadContent(entries)| &&
      DownloadContent(entries)[at..at + |entries[i].bibtex|] == entries[i].bibtex
    ensures var cs := Citations(entries);
      var after := Offset(cs, Separator, i) + |entries[i].bibtex|;
      i + 1 < |entries| ==>
        after + 2 <= |DownloadContent(entries)| && DownloadContent(entries)[after..after + 2] == Separator
  {
    JoinPart(Citations(entries), Separator, i);
  }

  /** Posting one more entry appends a blank line and its citation. */
  lemma ExportAppend(entries: seq<BibEntry>, e: BibEntry)
    requires entries != []
    ensures DownloadContent(entries + [e]) == DownloadContent(entries) + Separator + e.bibtex
  {
    assert Citations(entries + [e]) == Citations(entries) + [e.bibtex];
    JoinSnoc(Citations(entries), e.bibtex, Separator);
  }
}
