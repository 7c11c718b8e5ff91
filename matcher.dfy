/** `find_common_authors`: the authors who were first author at both
    venues, one entry per identity key, most papers first. */
module Matcher {
  import opened Collector

  /** One entry of the result list `common`. */
  datatype Match = Match(
    key: string,
    name: string,
    poplPapers: seq<Paper>,
    iclrPapers: seq<Paper>,
    poplCount: int,
    iclrCount: int)

  /** The sort key `popl_count + iclr_count`. */
  function Total(m: Match): int {
    m.poplCount + m.iclrCount
  }

  /** `m` is the entry the source builds for its key: both lists are the
      indexes' lists for that key, the counts are their lengths and the name
      is the author name of the first POPL paper. */
  ghost predicate Describes(popl: Index, iclr: Index, m: Match) {
    && m.key in popl && m.key in iclr
    && m.poplPapers == popl[m.key] && m.iclrPapers == iclr[m.key]
    && m.poplCount == |m.poplPapers| && m.iclrCount == |m.iclrPapers|
    && m.poplPapers != [] && m.name == m.poplPapers[0].authorName
  }

  function KeySet(ms: seq<Match>): set<string> {
    set m | m in ms :: m.key
  }

  predicate DistinctKeys(ms: seq<Match>) {
    forall i, j :: 0 <= i < j < |ms| ==> ms[i].key != ms[j].key
  }

  /** Non-increasing by total, as `sort(..., reverse=True)` leaves it. */
  predicate SortedByTotal(ms: seq<Match>) {
    forall i, j :: 0 <= i < j < |ms| ==> Total(ms[i]) >= Total(ms[j])
  }

  /** Places `m` after the leading entries whose total is at least its own. */
  function Insert(ms: seq<Match>, m: Match): seq<Match>
    decreases |ms|
  {
    if ms == [] || Total(ms[0]) < Total(m) then [m] + ms
    else [ms[0]] + Insert(ms[1..], m)
  }

  /** Insertion adds exactly one occurrence of `m` and loses nothing. */
  lemma {:induction false} InsertCount(ms: seq<Match>, m: Match)
    ensures multiset(Insert(ms, m)) == multiset(ms) + multiset{m}
    decreases |ms|
  {
    if ms != [] && Total(ms[0]) >= Total(m) {
      InsertCount(ms[1..], m);
      assert ms == [ms[0]] + ms[1..];
    }
  }

  /** Every entry of the insertion result is `m` or an entry of `ms`. */
  lemma InsertMembers(ms: seq<Match>, m: Match)
    ensures forall x :: x in Insert(ms, m) ==> x in ms || x == m
  {
    InsertCount(ms, m);
    forall x | x in Insert(ms, m) ensures x in ms || x == m {
      assert x in multiset(Insert(ms, m));
    }
  }

  lemma ConsSorted(x: Match, t: seq<Match>)
    requires SortedByTotal(t)
    requires forall y :: y in t ==> Total(x) >= Total(y)
    ensures SortedByTotal([x] + t)
  {
    var r := [x] + t;
    forall i, j | 0 <= i < j < |r| ensures Total(r[i]) >= Total(r[j]) {
      assert r[j] == t[j - 1];
      if i > 0 {
        assert r[i] == t[i - 1];
      }
    }
  }

  lemma ConsDistinct(x: Match, t: seq<Match>)
    requires DistinctKeys(t)
    requires forall y :: y in t ==> x.key != y.key
    ensures DistinctKeys([x] + t)
  {
    var r := [x] + t;
    forall i, j | 0 <= i < j < |r| ensures r[i].key != r[j].key {
      assert r[j] == t[j - 1];
      if i > 0 {
        assert r[i] == t[i - 1];
      }
    }
  }

  /** Insertion into an ordered list keeps it ordered. */
  lemma {:induction false} InsertSorted(ms: seq<Match>, m: Match)
    requires SortedByTotal(ms)
    ensures SortedByTotal(Insert(ms, m))
    decreases |ms|
  {
    if ms == [] || Total(ms[0]) < Total(m) {
      ConsSorted(m, ms);
    } else {
      InsertSorted(ms[1..], m);
      InsertMembers(ms[1..], m);
      assert forall y :: y in ms[1..] ==> Total(ms[0]) >= Total(y);
      ConsSorted(ms[0], Insert(ms[1..], m));
    }
  }

  /** The same entries, hence the same keys. */
  lemma SameKeys(a: seq<Match>, b: seq<Match>)
    requires multiset(a) == multiset(b)
    ensures KeySet(a) == KeySet(b)
  {
    forall m | m in a ensures m in b {
      assert m in multiset(a);
    }
    forall m | m in b ensures m in a {
      assert m in multiset(b);
    }
  }

  /** Inserting an entry with a fresh key keeps the keys distinct. */
  lemma {:induction false} InsertDistinct(ms: seq<Match>, m: Match)
    requires DistinctKeys(ms) && m.key !in KeySet(ms)
    ensures DistinctKeys(Insert(ms, m))
    decreases |ms|
  {
    if ms == [] || Total(ms[0]) < Total(m) {
      ConsDistinct(m, ms);
    } else {
      var tail := ms[1..];
      assert forall x :: x in tail ==> x in ms;
      InsertDistinct(tail, m);
      InsertMembers(tail, m);
      forall y | y in tail ensures ms[0].key != y.key {
        var j :| 0 <= j < |tail| && tail[j] == y;
        assert ms[j + 1] == y;
      }
      ConsDistinct(ms[0], Insert(tail, m));
    }
  }

  /** Appending an entry with a fresh key adds that key and keeps the keys
      distinct. */
  lemma SnocKeys(ms: seq<Match>, m: Match)
    requires DistinctKeys(ms) && m.key !in KeySet(ms)
    ensures KeySet(ms + [m]) == KeySet(ms) + {m.key}
    ensures DistinctKeys(ms + [m])
  {
    var r := ms + [m];
    forall i, j | 0 <= i < j < |r| ensures r[i].key != r[j].key {
      assert r[i] == ms[i];
      if j < |ms| {
        assert r[j] == ms[j];
      } else {
        assert ms[i].key in KeySet(ms);
      }
    }
  }

  /** Distinct keys: as many keys as entries. */
  lemma {:induction false} DistinctKeysCount(ms: seq<Match>)
    requires DistinctKeys(ms)
    ensures |KeySet(ms)| == |ms|
    decreases |ms|
  {
    if ms != [] {
      var init := ms[..|ms| - 1];
      var last := ms[|ms| - 1];
      assert ms == init + [last];
      DistinctKeysCount(init);
      assert KeySet(ms) == KeySet(init) + {last.key};
    }
  }

  /** The state of the insertion loop after `i` entries of `s`. */
  ghost predicate Sorting(s: seq<Match>, r: seq<Match>, i: int)
    requires 0 <= i <= |s|
  {
    && multiset(r) == multiset(s[..i])
    && SortedByTotal(r)
    && (DistinctKeys(s) ==> DistinctKeys(r))
  }

  /** Inserting the next entry of `s` advances the insertion loop. */
  lemma SortingStep(s: seq<Match>, r: seq<Match>, i: int)
    requires 0 <= i < |s| && Sorting(s, r, i)
    ensures Sorting(s, Insert(r, s[i]), i + 1)
  {
    assert s[..i + 1] == s[..i] + [s[i]];
    InsertCount(r, s[i]);
    InsertSorted(r, s[i]);
    if DistinctKeys(s) {
      SameKeys(r, s[..i]);
      InsertDistinct(r, s[i]);
    }
  }

  /** Line 322, `common.sort(key=total, reverse=True)`: a permutation of the
      input, ordered by non-increasing total. */
  method SortByTotal(s: seq<Match>) returns (r: seq<Match>)
    ensures multiset(r) == multiset(s)
    ensures SortedByTotal(r)
    ensures DistinctKeys(s) ==> DistinctKeys(r)
  {
    r := [];
    for i := 0 to |s|
      invariant Sorting(s, r, i)
    {
      SortingStep(s, r, i);
      r := Insert(r, s[i]);
    }
    assert s[..|s|] == s;
  }

  /** The state of the loop over the intersection: the keys `seen` so far
      each have their entry in `unsorted`, once, and `rest` is what is left. */
  ghost predicate Progress(popl: Index, iclr: Index, unsorted: seq<Match>, seen: set<string>, rest: set<string>) {
    && seen + rest == popl.Keys * iclr.Keys
    && seen !! rest
    && KeySet(unsorted) == seen
    && DistinctKeys(unsorted)
    && forall i :: 0 <= i < |unsorted| ==> Describes(popl, iclr, unsorted[i])
  }

  /** Appending the entry of one more key of `rest` makes progress. */
  lemma ProgressStep(popl: Index, iclr: Index, unsorted: seq<Match>, seen: set<string>, rest: set<string>, m: Match)
    requires Progress(popl, iclr, unsorted, seen, rest)
    requires m.key in rest && Describes(popl, iclr, m)
    ensures Progress(popl, iclr, unsorted + [m], seen + {m.key}, rest - {m.key})
  {
    SnocKeys(unsorted, m);
    var r := unsorted + [m];
    forall i | 0 <= i < |r| ensures Describes(popl, iclr, r[i]) {
      if i < |unsorted| {
        assert r[i] == unsorted[i];
      }
    }
  }

  /** Lines 297-319: the unsorted `common` list, one entry per key of the
      intersection, in the set's (unspecified) iteration order. */
  method CommonEntries(popl: Index, iclr: Index) returns (unsorted: seq<Match>)
    requires forall k :: k in popl && k in iclr ==> popl[k] != []
    ensures forall i :: 0 <= i < |unsorted| ==> Describes(popl, iclr, unsorted[i])
    ensures KeySet(unsorted) == popl.Keys * iclr.Keys
    ensures DistinctKeys(unsorted)
  {
    unsorted := [];
    var rest := popl.Keys * iclr.Keys;
    ghost var seen: set<string> := {};
    while rest != {}
      invariant Progress(popl, iclr, unsorted, seen, rest)
      decreases |rest|
    {
      var key :| key in rest;
      var poplPapers, iclrPapers := popl[key], iclr[key];
      var name := poplPapers[0].authorName;
      var m := Match(key, name, poplPapers, iclrPapers, |poplPapers|, |iclrPapers|);
      ProgressStep(popl, iclr, unsorted, seen, rest, m);
      unsorted := unsorted + [m];
      seen := seen + {key};
      rest := rest - {key};
    }
  }

  /** `find_common_authors`: one entry for each key the two indexes share,
      built from that key's lists, and no other entry; most papers first. */
  method FindCommonAuthors(popl: Index, iclr: Index) returns (common: seq<Match>)
    requires forall k :: k in popl && k in iclr ==> popl[k] != []
    ensures forall i :: 0 <= i < |common| ==> Describes(popl, iclr, common[i])
    ensures KeySet(common) == popl.Keys * iclr.Keys
    ensures DistinctKeys(common)
    ensures |common| == |popl.Keys * iclr.Keys|
    ensures common == [] <==> popl.Keys * iclr.Keys == {}
    ensures SortedByTotal(common)
  {
    var unsorted := CommonEntries(popl, iclr);
    common := SortByTotal(unsorted);
    SameKeys(common, unsorted);
    forall i | 0 <= i < |common| ensures Describes(popl, iclr, common[i]) {
      assert common[i] in multiset(unsorted);
      var j :| 0 <= j < |unsorted| && unsorted[j] == common[i];
    }
    DistinctKeysCount(common);
  }
}
