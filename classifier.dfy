/** Venue classification: which raw records count as main-track POPL or
    ICLR papers. */
module Classifier {
  import opened Strings
  import opened Seqs
  import opened Wrappers
  import opened Dblp

  /** The journal label DBLP uses for PACMPL issues. */
  const JOURNAL_LABEL := "Proc. ACM Program. Lang"

  /** `is_popl_paper`: a POPL conference record (the venue names POPL, is not
      the PACMPL journal and is not a satellite event marked with "@"), or a
      PACMPL journal record whose issue number is "POPL". */
  predicate IsPoplPaper(p: Pub) {
    || (Contains(p.venue, "POPL") && !Contains(p.venue, "PACMPL") && !Contains(p.venue, "@"))
    || ((Contains(p.venue, JOURNAL_LABEL) || Contains(p.venue, "PACMPL")) && p.number == "POPL")
  }

  /** The inline filter on the POPL stream results: no "@" in the venue and
      not an editorship entry. */
  predicate IsPoplPrimary(p: Pub) {
    !Contains(p.venue, "@") && p.pubType != "Editorship"
  }

  /** The ICLR main-track test: not an editorship entry, and a venue naming
      neither a workshop nor the tiny-paper track. */
  predicate IsIclrMain(p: Pub) {
    p.pubType != "Editorship" && !Contains(p.venue, "Workshop") && !Contains(p.venue, "Tiny")
  }

  /** The list comprehension that selects ICLR main-track records. */
  function IclrFilter(pubs: seq<Pub>): seq<Pub> {
    Filter(IsIclrMain, pubs)
  }

  /** On a PACMPL-labelled record, only the issue number decides. */
  lemma PacmplDecidedByNumber(p: Pub)
    requires Contains(p.venue, "PACMPL")
    ensures IsPoplPaper(p) <==> p.number == "POPL"
  {
  }

  /** On a record with the long journal label and no "POPL" in it, only the
      issue number decides: an ICFP issue is not a POPL paper. */
  lemma JournalDecidedByNumber(p: Pub)
    requires Contains(p.venue, JOURNAL_LABEL) && !Contains(p.venue, "POPL")
    ensures IsPoplPaper(p) <==> p.number == "POPL"
  {
  }

  /** Without any journal label, a record is a POPL paper exactly when its
      venue names POPL and carries no "@" marker; the number is ignored. */
  lemma ConferenceDecidedByVenue(p: Pub)
    requires !Contains(p.venue, JOURNAL_LABEL) && !Contains(p.venue, "PACMPL")
    ensures IsPoplPaper(p) <==> Contains(p.venue, "POPL") && !Contains(p.venue, "@")
  {
  }

  /** The DBLP journal record of a POPL issue is a POPL paper; the same
      journal label with issue number "ICFP" is not. */
  lemma JournalExamples(title: Option<string>, authors: AuthorField)
    ensures IsPoplPaper(Pub("Proc. ACM Program. Lang.", "Journal Articles", "POPL", title, authors))
    ensures !IsPoplPaper(Pub("Proc. ACM Program. Lang.", "Journal Articles", "ICFP", title, authors))
  {
    var v := "Proc. ACM Program. Lang.";
    assert v[..|JOURNAL_LABEL|] == JOURNAL_LABEL;
    assert 'O' in "POPL" && 'O' !in v;
    if Contains(v, "POPL") {
      ContainsChars(v, "POPL");
    }
  }

  /** Every record the ICLR filter keeps is a main-track record, every
      main-track record is kept as often as it occurs, and the order of the
      input is kept. */
  lemma IclrFilterExact(a: seq<Pub>, b: seq<Pub>)
    ensures forall p :: p in IclrFilter(a) <==> p in a && IsIclrMain(p)
    ensures forall p :: multiset(IclrFilter(a))[p] == if IsIclrMain(p) then multiset(a)[p] else 0
    ensures IclrFilter(a + b) == IclrFilter(a) + IclrFilter(b)
  {
    FilterAppend(IsIclrMain, a, b);
    forall p ensures multiset(IclrFilter(a))[p] == if IsIclrMain(p) then multiset(a)[p] else 0 {
      FilterCount(IsIclrMain, a, p);
    }
  }

  /** A record at a workshop or in the tiny-paper track is never kept for
      ICLR, whatever its stream. */
  lemma IclrWorkshopExcluded(p: Pub, pubs: seq<Pub>)
    requires Contains(p.venue, "Workshop") || Contains(p.venue, "Tiny") || p.pubType == "Editorship"
    ensures p !in IclrFilter(pubs)
  {
  }
}
