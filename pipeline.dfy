/** `main` without its printing and file output: both collectors run on the
    supplied fetch results and their indexes are matched. */
module Pipeline {
  import opened Dblp
  import opened Collector
  import opened Matcher

  /** The matched entries, read back in terms of the collected papers: each
      entry's lists are exactly the papers of its key at each venue, both
      non-empty and in year order, and the keys are those with papers at
      both venues. */
  ghost predicate MatchesPapers(common: seq<Match>, ps: seq<Paper>, qs: seq<Paper>) {
    && KeySet(common) == KeysOf(ps) * KeysOf(qs)
    && forall i :: 0 <= i < |common| ==>
      && common[i].poplPapers == Select(ps, common[i].key)
      && common[i].iclrPapers == Select(qs, common[i].key)
      && common[i].poplCount == |common[i].poplPapers| && common[i].iclrCount == |common[i].iclrPapers|
      && common[i].poplPapers != [] && common[i].iclrPapers != []
      && common[i].name == common[i].poplPapers[0].authorName
      && SortedByYear(common[i].poplPapers) && SortedByYear(common[i].iclrPapers)
  }

  lemma ResolveMatches(common: seq<Match>, ps: seq<Paper>, qs: seq<Paper>)
    requires IndexInvariant(Group(ps), POPL) && IndexInvariant(Group(qs), ICLR)
    requires KeySet(common) == Group(ps).Keys * Group(qs).Keys
    requires forall i :: 0 <= i < |common| ==> Describes(Group(ps), Group(qs), common[i])
    ensures MatchesPapers(common, ps, qs)
  {
    assert Group(ps).Keys == KeysOf(ps);
    assert Group(qs).Keys == KeysOf(qs);
  }

  /** `main`: the matched authors, with the two author counts it reports.
      `poplStream(y)` and `iclrStream(y)` are the stream fetches of year
      `y`, `poplToc(v)` the fetch of PACMPL volume `v`. */
  method Analyze(poplStream: int -> seq<Pub>, poplToc: int -> seq<Pub>, iclrStream: int -> seq<Pub>)
    returns (common: seq<Match>, poplCount: int, iclrCount: int, volumes: seq<int>)
    ensures poplCount == |KeysOf(PoplPapers(poplStream, poplToc, END_YEAR))|
    ensures iclrCount == |KeysOf(IclrPapers(iclrStream, END_YEAR))|
    ensures volumes == TocVolumes(poplStream, END_YEAR)
    ensures MatchesPapers(common, PoplPapers(poplStream, poplToc, END_YEAR), IclrPapers(iclrStream, END_YEAR))
    ensures DistinctKeys(common) && SortedByTotal(common)
  {
    ghost var ps, qs := PoplPapers(poplStream, poplToc, END_YEAR), IclrPapers(iclrStream, END_YEAR);
    PoplPapersCollected(poplStream, poplToc, END_YEAR);
    GroupInvariant(ps, POPL);
    IclrPapersCollected(iclrStream, END_YEAR);
    GroupInvariant(qs, ICLR);
    var poplAuthors, vols := CollectPopl(poplStream, poplToc);
    poplCount := |poplAuthors|;
    var iclrAuthors := CollectIclr(iclrStream);
    iclrCount := |iclrAuthors|;
    common := FindCommonAuthors(poplAuthors, iclrAuthors);
    volumes := vols;
    GroupSize(ps);
    GroupSize(qs);
    ResolveMatches(common, ps, qs);
  }
}
