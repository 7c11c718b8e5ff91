/** Per-venue collection: the year loops of `fetch_popl_data` and
    `fetch_iclr_data`, with the network results given as functions
    (`stream(year)` for a stream query, `toc(volume)` for a PACMPL
    table-of-contents query). */
module Collector {
  import opened Wrappers
  import opened Seqs
  import opened Strings
  import opened Dblp
  import opened Extractor
  import opened Normalizer
  import opened Classifier

  /** The year range `range(START_YEAR, END_YEAR + 1)` of both collectors.
      The recursive collector functions below test `hi < 2016` with the
      literal value of START_YEAR, which keeps their unfolding cheap for the
      verifier. */
  const START_YEAR := 2016
  const END_YEAR := 2025
  /** From this year on an empty POPL stream is retried through PACMPL. */
  const PACMPL_FIRST_YEAR := 2018
  /** PACMPL volume of POPL `year` is `year - PACMPL_BASE_YEAR`. */
  const PACMPL_BASE_YEAR := 2016

  datatype Venue = POPL | ICLR

  /** A retained paper record. `pid` is None for a bare-string author and
      the (possibly empty) "@pid" otherwise. */
  datatype Paper = Paper(
    year: int,
    title: string,
    authorName: string,
    normalizedName: string,
    pid: Option<string>,
    venue: Venue)

  /** The identity key: the person id when it is non-empty, else the
      normalised name. */
  function KeyOf(p: Paper): string {
    if p.pid.Some? && p.pid.value != "" then p.pid.value else p.normalizedName
  }

  /** A paper as the collector builds it: a non-empty author name stored
      with its normalisation. */
  ghost predicate WellFormed(p: Paper) {
    p.authorName != "" && p.normalizedName == NormalizeAuthorName(p.authorName)
  }

  function TitleOf(pub: Pub): string {
    pub.title.GetOr("Unknown")
  }

  /** The paper recorded for one qualifying record of `year`, or None when
      its first author has no (or an empty) name and it is skipped. */
  function PaperOf(pub: Pub, year: int, venue: Venue): Option<Paper> {
    var (name, pid) := ExtractFirstAuthor(pub.authors);
    if name.Some? && name.value != "" then
      Some(Paper(year, TitleOf(pub), name.value, NormalizeAuthorName(name.value), pid, venue))
    else None
  }

  /** A record yields a paper exactly when its extracted first author is
      present and non-empty; the paper carries that name, its normalisation,
      the extracted id, the record's title (or "Unknown"), the year and the
      venue. */
  lemma PaperOfExact(pub: Pub, year: int, venue: Venue)
    ensures var r := PaperOf(pub, year, venue);
      && (r.Some? <==> ExtractFirstAuthor(pub.authors).0.Some? && ExtractFirstAuthor(pub.authors).0.value != "")
      && (r.Some? ==> r.value.year == year && r.value.venue == venue && WellFormed(r.value))
      && (r.Some? ==> r.value.authorName == ExtractFirstAuthor(pub.authors).0.value)
      && (r.Some? ==> r.value.pid == ExtractFirstAuthor(pub.authors).1 && r.value.title == TitleOf(pub))
  {
  }

  function AsSeq(o: Option<Paper>): seq<Paper> {
    if o.Some? then [o.value] else []
  }

  /** The papers of the qualifying records of one year, in record order. */
  function Papers(pubs: seq<Pub>, year: int, venue: Venue): seq<Paper>
    decreases |pubs|
  {
    if pubs == [] then []
    else Papers(pubs[..|pubs| - 1], year, venue) + AsSeq(PaperOf(pubs[|pubs| - 1], year, venue))
  }

  /** At most one paper per record; every paper is of `year` and `venue`
      and well-formed. */
  lemma {:induction false} PapersDated(pubs: seq<Pub>, year: int, venue: Venue)
    ensures |Papers(pubs, year, venue)| <= |pubs|
    ensures forall i :: 0 <= i < |Papers(pubs, year, venue)| ==>
      var p := Papers(pubs, year, venue)[i];
      p.year == year && p.venue == venue && WellFormed(p)
    decreases |pubs|
  {
    if pubs != [] {
      var init, last := pubs[..|pubs| - 1], pubs[|pubs| - 1];
      PapersDated(init, year, venue);
      PaperOfExact(last, year, venue);
      var a: seq<Paper>, b: seq<Paper> := Papers(init, year, venue), AsSeq(PaperOf(last, year, venue));
      forall i | 0 <= i < |a + b| ensures (a + b)[i].year == year && (a + b)[i].venue == venue && WellFormed((a + b)[i]) {
        if i >= |a| {
          assert (a + b)[i] == b[i - |a|];
        } else {
          assert (a + b)[i] == a[i];
        }
      }
    }
  }

  /** Each record contributes its own paper, or nothing, in record order:
      a named record is appended exactly once, a nameless one never. */
  lemma {:induction false} PapersAppend(a: seq<Pub>, b: seq<Pub>, year: int, venue: Venue)
    ensures Papers(a + b, year, venue) == Papers(a, year, venue) + Papers(b, year, venue)
    decreases |b|
  {
    if b == [] {
      assert a + b == a;
    } else {
      var init := b[..|b| - 1];
      assert (a + b)[..|a + b| - 1] == a + init;
      assert (a + b)[|a + b| - 1] == b[|b| - 1];
      PapersAppend(a, init, year, venue);
    }
  }

  /** One record more: its paper, if any, is appended. */
  lemma PapersPrefix(done: seq<Paper>, pubs: seq<Pub>, i: int, year: int, venue: Venue)
    requires 0 <= i < |pubs|
    ensures Papers(pubs[..i + 1], year, venue) == Papers(pubs[..i], year, venue) + AsSeq(PaperOf(pubs[i], year, venue))
    ensures done + Papers(pubs[..i + 1], year, venue) == done + Papers(pubs[..i], year, venue) + AsSeq(PaperOf(pubs[i], year, venue))
  {
    assert pubs[..i + 1][..i] == pubs[..i];
  }

  // -----------------------------------------------------------------------
  // The author index: `defaultdict(list)` from identity key to papers
  // -----------------------------------------------------------------------

  type Index = map<string, seq<Paper>>

  /** The papers of `ps` whose key is `k`, in order. */
  function Select(ps: seq<Paper>, k: string): seq<Paper> {
    Filter((p: Paper) => KeyOf(p) == k, ps)
  }

  function KeysOf(ps: seq<Paper>): set<string> {
    set p | p in ps :: KeyOf(p)
  }

  /** The index that appending the papers `ps` one by one to an empty
      `defaultdict(list)` builds: one entry per key occurring in `ps`,
      holding that key's papers in order. */
  function Group(ps: seq<Paper>): Index {
    map k | k in KeysOf(ps) :: Select(ps, k)
  }

  /** `author_papers[key].append(paper)`: the entry is created empty when
      missing. */
  function Append(index: Index, p: Paper): Index {
    var k := KeyOf(p);
    index[k := (if k in index then index[k] else []) + [p]]
  }

  lemma KeysOfSnoc(ps: seq<Paper>, p: Paper)
    ensures KeysOf(ps + [p]) == KeysOf(ps) + {KeyOf(p)}
  {
    forall q | q in ps + [p] ensures q in ps || q == p {}
  }

  lemma SelectSnoc(ps: seq<Paper>, p: Paper, k: string)
    ensures Select(ps + [p], k) == Select(ps, k) + (if KeyOf(p) == k then [p] else [])
  {
    assert (ps + [p])[..|ps|] == ps;
  }

  /** A key has an entry exactly when some paper carries it. */
  lemma SelectEmpty(ps: seq<Paper>, k: string)
    ensures Select(ps, k) == [] <==> k !in KeysOf(ps)
  {
    if Select(ps, k) != [] {
      assert Select(ps, k)[0] in Select(ps, k);
    }
    if k in KeysOf(ps) {
      var q :| q in ps && KeyOf(q) == k;
      assert q in Select(ps, k);
    }
  }

  /** Appending one more paper to the grouped papers groups the longer
      sequence. */
  lemma GroupSnoc(ps: seq<Paper>, p: Paper)
    ensures Group(ps + [p]) == Append(Group(ps), p)
  {
    var g, g', a := Group(ps), Group(ps + [p]), Append(Group(ps), p);
    var k0 := KeyOf(p);
    KeysOfSnoc(ps, p);
    assert g'.Keys == a.Keys;
    forall k | k in g' ensures g'[k] == a[k] {
      SelectSnoc(ps, p, k);
      if k == k0 && k0 !in g {
        SelectEmpty(ps, k0);
      }
    }
  }

  /** `len(author_papers)`: one entry per distinct key among the papers. */
  lemma GroupSize(ps: seq<Paper>)
    ensures |Group(ps)| == |KeysOf(ps)|
  {
    assert Group(ps).Keys == KeysOf(ps);
  }

  lemma GroupEmpty()
    ensures Group([]) == map[]
  {
    assert KeysOf([]) == {};
  }

  /** A sequence of papers ordered by year. */
  ghost predicate SortedByYear(ps: seq<Paper>) {
    forall i, j :: 0 <= i < j < |ps| ==> ps[i].year <= ps[j].year
  }

  /** The papers a collector produces up to year `hi`: well-formed, of one
      venue, dated START_YEAR..hi, in year order. */
  ghost predicate Collected(ps: seq<Paper>, venue: Venue, hi: int) {
    && (forall i :: 0 <= i < |ps| ==> ps[i].venue == venue && START_YEAR <= ps[i].year <= hi && WellFormed(ps[i]))
    && SortedByYear(ps)
  }

  /** The collector invariant of a finished index: every list is non-empty;
      every paper under key `k` has key `k`, the index's venue, a year in
      START_YEAR..END_YEAR and a well-formed name; each list is in year
      order. */
  ghost predicate IndexInvariant(index: Index, venue: Venue) {
    && (forall k :: k in index ==> index[k] != [])
    && (forall k, i :: k in index && 0 <= i < |index[k]| ==>
          var p := index[k][i];
          KeyOf(p) == k && p.venue == venue && START_YEAR <= p.year <= END_YEAR && WellFormed(p))
    && (forall k :: k in index ==> SortedByYear(index[k]))
  }

  /** Selecting one key keeps the year order. */
  lemma {:induction false} SelectSorted(ps: seq<Paper>, k: string)
    requires SortedByYear(ps)
    ensures SortedByYear(Select(ps, k))
    decreases |ps|
  {
    if ps != [] {
      var init, last := ps[..|ps| - 1], ps[|ps| - 1];
      assert ps == init + [last];
      SelectSorted(init, k);
      var s := Select(init, k);
      forall q | q in s ensures q.year <= last.year {
        var i :| 0 <= i < |init| && init[i] == q;
      }
    }
  }

  /** The index grouped from collected papers satisfies the collector
      invariant. */
  lemma GroupInvariant(ps: seq<Paper>, venue: Venue)
    requires Collected(ps, venue, END_YEAR)
    ensures IndexInvariant(Group(ps), venue)
  {
    var g: Index := Group(ps);
    forall k | k in g ensures g[k] != [] && SortedByYear(g[k]) {
      var p :| p in ps && KeyOf(p) == k;
      assert p in g[k];
      SelectSorted(ps, k);
    }
    forall k: string, i: int | k in g && 0 <= i < |g[k]|
      ensures KeyOf(g[k][i]) == k && g[k][i].venue == venue
      ensures START_YEAR <= g[k][i].year <= END_YEAR && WellFormed(g[k][i])
    {
      assert g[k][i] in g[k];
    }
  }

  /** Every paper is stored under its own key as many times as it was
      produced, and under no other key. */
  lemma GroupExactlyOnce(ps: seq<Paper>, k: string, p: Paper)
    requires k in Group(ps)
    ensures multiset(Group(ps)[k])[p] == if KeyOf(p) == k then multiset(ps)[p] else 0
  {
    FilterCount((q: Paper) => KeyOf(q) == k, ps, p);
  }

  /** A first author object with a non-empty person id is recorded under
      that id, whatever the shape of the author field and the spelling of
      the name (provided the name is not explicitly empty). */
  lemma PidDecidesKey(pub: Pub, year: int, venue: Venue, id: string, t: Option<string>)
    requires AuthorList(pub.authors) != [] && AuthorList(pub.authors)[0] == Person(t, Some(id))
    requires id != "" && t != Some("")
    ensures PaperOf(pub, year, venue).Some? && KeyOf(PaperOf(pub, year, venue).value) == id
  {
  }

  /** A first author with a non-empty name and no person id, or an empty
      one, is recorded under the normalised name. */
  lemma NameDecidesKey(pub: Pub, year: int, venue: Venue, n: string)
    requires ExtractFirstAuthor(pub.authors).0 == Some(n) && n != ""
    requires ExtractFirstAuthor(pub.authors).1 == None || ExtractFirstAuthor(pub.authors).1 == Some("")
    ensures PaperOf(pub, year, venue).Some? && KeyOf(PaperOf(pub, year, venue).value) == NormalizeAuthorName(n)
  {
  }

  // -----------------------------------------------------------------------
  // Specification of the two collectors
  // -----------------------------------------------------------------------

  /** The PACMPL fallback fires for `year`: the filtered stream is empty and
      the year is in the journal era. */
  predicate NeedsToc(year: int, streamPubs: seq<Pub>) {
    Filter(IsPoplPrimary, streamPubs) == [] && year >= PACMPL_FIRST_YEAR
  }

  /** The POPL records kept for `year`: the filtered stream, or, when the
      fallback fires, the POPL entries of PACMPL volume `year - 2016`. */
  function PoplYear(year: int, streamPubs: seq<Pub>, toc: int -> seq<Pub>): seq<Pub> {
    if NeedsToc(year, streamPubs) then Filter(IsPoplPaper, toc(year - PACMPL_BASE_YEAR))
    else Filter(IsPoplPrimary, streamPubs)
  }

  /** Exactly which records are kept for one POPL year, with multiplicity. */
  lemma PoplYearExact(year: int, streamPubs: seq<Pub>, toc: int -> seq<Pub>, p: Pub)
    ensures NeedsToc(year, streamPubs) ==>
      multiset(PoplYear(year, streamPubs, toc))[p] == if IsPoplPaper(p) then multiset(toc(year - PACMPL_BASE_YEAR))[p] else 0
    ensures !NeedsToc(year, streamPubs) ==>
      multiset(PoplYear(year, streamPubs, toc))[p] == if IsPoplPrimary(p) then multiset(streamPubs)[p] else 0
  {
    FilterCount(IsPoplPaper, toc(year - PACMPL_BASE_YEAR), p);
    FilterCount(IsPoplPrimary, streamPubs, p);
  }

  /** The papers `fetch_popl_data` appends for years START_YEAR..hi, in
      append order. */
  function PoplPapers(stream: int -> seq<Pub>, toc: int -> seq<Pub>, hi: int): seq<Paper>
    decreases hi - START_YEAR
  {
    if hi < 2016 then []
    else PoplPapers(stream, toc, hi - 1) + Papers(PoplYear(hi, stream(hi), toc), hi, POPL)
  }

  /** The papers `fetch_iclr_data` appends for years START_YEAR..hi. */
  function IclrPapers(stream: int -> seq<Pub>, hi: int): seq<Paper>
    decreases hi - START_YEAR
  {
    if hi < 2016 then []
    else IclrPapers(stream, hi - 1) + Papers(IclrFilter(stream(hi)), hi, ICLR)
  }

  /** Appending the papers of year `hi` to those of the earlier years keeps
      the collector's invariant. */
  lemma CollectedSnoc(before: seq<Paper>, now: seq<Paper>, venue: Venue, hi: int)
    requires Collected(before, venue, hi - 1)
    requires forall i :: 0 <= i < |now| ==> now[i].year == hi && now[i].venue == venue && WellFormed(now[i])
    requires START_YEAR <= hi
    ensures Collected(before + now, venue, hi)
  {
    var ps := before + now;
    forall i | 0 <= i < |ps|
      ensures ps[i].venue == venue && START_YEAR <= ps[i].year <= hi && WellFormed(ps[i])
    {
      if i >= |before| {
        assert ps[i] == now[i - |before|];
      }
    }
    forall i, j | 0 <= i < j < |ps| ensures ps[i].year <= ps[j].year {
      if j < |before| {
        assert ps[i] == before[i] && ps[j] == before[j];
      } else if i < |before| {
        assert ps[i] == before[i] && ps[j] == now[j - |before|];
      } else {
        assert ps[i] == now[i - |before|] && ps[j] == now[j - |before|];
      }
    }
  }

  /** The POPL papers are well-formed, all POPL, dated START_YEAR..hi and in
      year order. */
  lemma {:induction false} PoplPapersCollected(stream: int -> seq<Pub>, toc: int -> seq<Pub>, hi: int)
    ensures Collected(PoplPapers(stream, toc, hi), POPL, hi)
    decreases hi - START_YEAR
  {
    if hi >= 2016 {
      PoplPapersCollected(stream, toc, hi - 1);
      PapersDated(PoplYear(hi, stream(hi), toc), hi, POPL);
      CollectedSnoc(PoplPapers(stream, toc, hi - 1), Papers(PoplYear(hi, stream(hi), toc), hi, POPL), POPL, hi);
    }
  }

  /** The same for the ICLR papers. */
  lemma {:induction false} IclrPapersCollected(stream: int -> seq<Pub>, hi: int)
    ensures Collected(IclrPapers(stream, hi), ICLR, hi)
    decreases hi - START_YEAR
  {
    if hi >= 2016 {
      IclrPapersCollected(stream, hi - 1);
      PapersDated(IclrFilter(stream(hi)), hi, ICLR);
      CollectedSnoc(IclrPapers(stream, hi - 1), Papers(IclrFilter(stream(hi)), hi, ICLR), ICLR, hi);
    }
  }

  /** The PACMPL volumes requested for years START_YEAR..hi, in request
      order. */
  function TocVolumes(stream: int -> seq<Pub>, hi: int): seq<int>
    decreases hi - START_YEAR
  {
    if hi < 2016 then []
    else TocVolumes(stream, hi - 1) + (if NeedsToc(hi, stream(hi)) then [hi - PACMPL_BASE_YEAR] else [])
  }

  /** Volume `y - 2016` is requested exactly for the years `y` of the range
      whose fallback fires, each once, in increasing order. */
  lemma {:induction false} TocVolumesExact(stream: int -> seq<Pub>, hi: int)
    ensures forall v :: v in TocVolumes(stream, hi) ==> START_YEAR <= v + PACMPL_BASE_YEAR <= hi
    ensures forall y :: START_YEAR <= y <= hi ==> (y - PACMPL_BASE_YEAR in TocVolumes(stream, hi) <==> NeedsToc(y, stream(y)))
    ensures forall i, j :: 0 <= i < j < |TocVolumes(stream, hi)| ==> TocVolumes(stream, hi)[i] < TocVolumes(stream, hi)[j]
    decreases hi - START_YEAR
  {
    if hi >= 2016 {
      TocVolumesExact(stream, hi - 1);
      var before, vs := TocVolumes(stream, hi - 1), TocVolumes(stream, hi);
      assert vs == before + (if NeedsToc(hi, stream(hi)) then [hi - PACMPL_BASE_YEAR] else []);
      forall i, j | 0 <= i < j < |vs| ensures vs[i] < vs[j] {
        if j >= |before| {
          assert vs[i] == before[i] && before[i] in before;
        }
      }
    }
  }

  /** A year whose ICLR query failed (and so returned nothing) contributes
      no paper; the other years are collected as usual. */
  lemma {:induction false} IclrFailedYear(stream: int -> seq<Pub>, hi: int, y: int)
    requires stream(y) == []
    ensures forall p :: p in IclrPapers(stream, hi) ==> p.year != y
    decreases hi - START_YEAR
  {
    if hi >= 2016 {
      IclrFailedYear(stream, hi - 1, y);
      if hi == y {
        assert IclrFilter(stream(hi)) == [];
        assert Papers([], hi, ICLR) == [];
      } else {
        PapersDated(IclrFilter(stream(hi)), hi, ICLR);
      }
    }
  }

  // -----------------------------------------------------------------------
  // The collectors
  // -----------------------------------------------------------------------

  /** Lines 213-225 (and 274-286), the body of the record loop: a record
      whose first author has a non-empty name is appended to the index
      under its key; any other record is skipped. */
  method AddPaper(index: Index, ghost done: seq<Paper>, pub: Pub, year: int, venue: Venue)
    returns (result: Index)
    requires index == Group(done)
    ensures result == Group(done + AsSeq(PaperOf(pub, year, venue)))
  {
    var (firstAuthor, pid) := ExtractFirstAuthor(pub.authors);
    if firstAuthor.Some? && firstAuthor.value != "" {
      var title := TitleOf(pub);
      var normalized := NormalizeAuthorName(firstAuthor.value);
      var key := if pid.Some? && pid.value != "" then pid.value else normalized;
      var paper := Paper(year, title, firstAuthor.value, normalized, pid, venue);
      assert PaperOf(pub, year, venue) == Some(paper);
      GroupSnoc(done, paper);
      result := index[key := (if key in index then index[key] else []) + [paper]];
    } else {
      assert done + AsSeq(PaperOf(pub, year, venue)) == done;
      result := index;
    }
  }

  /** Lines 212-225 (and 273-286): append the paper of every named record of
      `pubs` to the index under its identity key. */
  method AddPapers(index: Index, ghost done: seq<Paper>, pubs: seq<Pub>, year: int, venue: Venue)
    returns (result: Index)
    requires index == Group(done)
    ensures result == Group(done + Papers(pubs, year, venue))
  {
    result := index;
    assert done + Papers(pubs[..0], year, venue) == done;
    for i := 0 to |pubs|
      invariant result == Group(done + Papers(pubs[..i], year, venue))
    {
      PapersPrefix(done, pubs, i, year, venue);
      result := AddPaper(result, done + Papers(pubs[..i], year, venue), pubs[i], year, venue);
    }
    assert pubs[..|pubs|] == pubs;
  }

  /** Lines 191-196: the inline filter over the POPL stream results. */
  method PrimaryRecords(pubs: seq<Pub>) returns (kept: seq<Pub>)
    ensures kept == Filter(IsPoplPrimary, pubs)
  {
    kept := [];
    for i := 0 to |pubs|
      invariant kept == Filter(IsPoplPrimary, pubs[..i])
    {
      var pub := pubs[i];
      assert pubs[..i + 1][..i] == pubs[..i];
      if !Contains(pub.venue, "@") && pub.pubType != "Editorship" {
        kept := kept + [pub];
      }
    }
    assert pubs[..|pubs|] == pubs;
  }

  /** Lines 206-208: the POPL entries of a PACMPL volume. */
  method PacmplPoplRecords(allPacmpl: seq<Pub>) returns (kept: seq<Pub>)
    ensures kept == Filter(IsPoplPaper, allPacmpl)
  {
    kept := [];
    for i := 0 to |allPacmpl|
      invariant kept == Filter(IsPoplPaper, allPacmpl[..i])
    {
      var pub := allPacmpl[i];
      assert allPacmpl[..i + 1][..i] == allPacmpl[..i];
      if IsPoplPaper(pub) {
        kept := kept + [pub];
      }
    }
    assert allPacmpl[..|allPacmpl|] == allPacmpl;
  }

  /** Lines 186-208: the POPL records of one year, and the PACMPL volume
      requested when the filtered stream is empty from 2018 on. */
  method PoplPublications(year: int, pubs: seq<Pub>, toc: int -> seq<Pub>)
    returns (poplPubs: seq<Pub>, volume: Option<int>)
    ensures poplPubs == PoplYear(year, pubs, toc)
    ensures volume == if NeedsToc(year, pubs) then Some(year - PACMPL_BASE_YEAR) else None
  {
    poplPubs := PrimaryRecords(pubs);
    volume := None;
    if poplPubs == [] && year >= PACMPL_FIRST_YEAR {
      var vol := year - PACMPL_BASE_YEAR;
      volume := Some(vol);
      poplPubs := PacmplPoplRecords(toc(vol));
    }
  }

  /** One iteration of the year loop of `fetch_popl_data`: the records of
      `year` are selected, the requested volume noted and the papers added. */
  method CollectPoplYear(stream: int -> seq<Pub>, toc: int -> seq<Pub>, year: int,
                         index: Index, volumes: seq<int>)
    returns (index': Index, volumes': seq<int>)
    requires START_YEAR <= year
    requires index == Group(PoplPapers(stream, toc, year - 1))
    requires volumes == TocVolumes(stream, year - 1)
    ensures index' == Group(PoplPapers(stream, toc, year))
    ensures volumes' == TocVolumes(stream, year)
  {
    var pubs := stream(year);
    var poplPubs, volume := PoplPublications(year, pubs, toc);
    volumes' := volumes;
    if volume.Some? {
      volumes' := volumes + [volume.value];
    }
    index' := AddPapers(index, PoplPapers(stream, toc, year - 1), poplPubs, year, POPL);
  }

  /** `fetch_popl_data`: the POPL author index and the PACMPL volumes it
      requested. */
  method CollectPopl(stream: int -> seq<Pub>, toc: int -> seq<Pub>)
    returns (index: Index, volumes: seq<int>)
    ensures index == Group(PoplPapers(stream, toc, END_YEAR))
    ensures volumes == TocVolumes(stream, END_YEAR)
  {
    index, volumes := map[], [];
    GroupEmpty();
    for year := 2016 to 2026  // range(START_YEAR, END_YEAR + 1)
      invariant index == Group(PoplPapers(stream, toc, year - 1))
      invariant volumes == TocVolumes(stream, year - 1)
    {
      index, volumes := CollectPoplYear(stream, toc, year, index, volumes);
    }
  }

  /** One iteration of the year loop of `fetch_iclr_data`. */
  method CollectIclrYear(stream: int -> seq<Pub>, year: int, index: Index) returns (index': Index)
    requires START_YEAR <= year
    requires index == Group(IclrPapers(stream, year - 1))
    ensures index' == Group(IclrPapers(stream, year))
  {
    var pubs := stream(year);
    var iclrPubs := IclrFilter(pubs);
    index' := AddPapers(index, IclrPapers(stream, year - 1), iclrPubs, year, ICLR);
  }

  /** `fetch_iclr_data`: the ICLR author index. */
  method CollectIclr(stream: int -> seq<Pub>) returns (index: Index)
    ensures index == Group(IclrPapers(stream, END_YEAR))
  {
    index := map[];
    GroupEmpty();
    for year := 2016 to 2026  // range(START_YEAR, END_YEAR + 1)
      invariant index == Group(IclrPapers(stream, year - 1))
    {
      index := CollectIclrYear(stream, year, index);
    }
  }
}
