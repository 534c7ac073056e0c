/** Search over several readers: a top-k from each, merged, stably sorted by score, and sliced into a page. */
module Search {
  import opened Options
  import opened StableSort

  /** A matching document; `stored` is whether the doc store can return it. Scores are integers. */
  datatype Hit = Hit(score: int, address: nat, stored: bool)

  /**
   What one reader does with the query. `Ranked` lists every match in the order the collector ranks them, so that
   `TopDocs::with_limit(k)` returns its first `k`.
   */
  datatype Reader = NoTextField | RejectsQuery | FailsSearch | Ranked(matches: seq<Hit>)

  /** A hit of the merged list: sorted by descending score. */
  type GlobalHit = Keyed<(nat, Hit)>

  datatype Outcome =
    | Found(total: nat, maxScore: Option<int>, hits: seq<GlobalHit>)
    | InvalidQuery
    | SearchError
    | RetrievalError

  predicate RankedReader(r: Reader) {
    r.Ranked? ==> forall i, j :: 0 <= i < j < |r.matches| ==> r.matches[i].score >= r.matches[j].score
  }

  predicate RankedReaders(rs: seq<Reader>) {
    forall i :: 0 <= i < |rs| ==> RankedReader(rs[i])
  }

  function Global(idx: nat, h: Hit): GlobalHit {
    Keyed(-h.score, (idx, h))
  }

  function Tag(idx: nat, hits: seq<Hit>): (r: seq<GlobalHit>)
    ensures |r| == |hits|
    ensures forall i :: 0 <= i < |hits| ==> r[i] == Global(idx, hits[i])
  {
    seq(|hits|, i requires 0 <= i < |hits| => Global(idx, hits[i]))
  }

  function Matches(r: Reader): seq<Hit> {
    if r.Ranked? then r.matches else []
  }

  /** Every match of every reader, in reader order; the readers are numbered from `idx`. */
  function AllMatches(idx: nat, rs: seq<Reader>): seq<GlobalHit>
    decreases |rs|
  {
    if rs == [] then [] else Tag(idx, Matches(rs[0])) + AllMatches(idx + 1, rs[1..])
  }

  /** The first `k` matches of every reader. */
  function TopMatches(idx: nat, rs: seq<Reader>, k: nat): seq<GlobalHit>
    decreases |rs|
  {
    if rs == [] then [] else Tag(idx, Take(Matches(rs[0]), k)) + TopMatches(idx + 1, rs[1..], k)
  }

  function TotalMatches(rs: seq<Reader>): nat
    decreases |rs|
  {
    if rs == [] then 0 else |Matches(rs[0])| + TotalMatches(rs[1..])
  }

  /** The ranking a single index holding all documents would give. */
  function Ranking(rs: seq<Reader>): seq<GlobalHit> {
    Sort(AllMatches(0, rs))
  }

  /** `skip(from).take(size)` */
  function Page<T>(s: seq<T>, from: nat, size: nat): seq<T> {
    Take(if from <= |s| then s[from..] else [], size)
  }

  /** Never zero, which the collector would not accept. */
  function Limit(from: nat, size: nat): (k: nat)
    ensures k > 0 && k >= size
  {
    if size == 0 then 1 else from + size
  }

  /** The page the search computes from the top matches of its readers. */
  function SearchPage(rs: seq<Reader>, from: nat, size: nat): seq<GlobalHit> {
    Page(Sort(TopMatches(0, rs, Limit(from, size))), from, size)
  }

  lemma TagRanked(idx: nat, r: Reader, k: nat)
    requires RankedReader(r)
    ensures Sorted(Tag(idx, Matches(r)))
    ensures Tag(idx, Take(Matches(r), k)) == Take(Tag(idx, Matches(r)), k)
  {
  }

  /**
   The top-k merge is exact: the `k` best of the readers' first `limit` matches are the `k` best of all their matches,
   ties included, for any `limit` of at least `k`.
   */
  lemma {:induction false} TopMergeExact(idx: nat, rs: seq<Reader>, k: nat, limit: nat)
    requires RankedReaders(rs) && k <= limit
    ensures Take(Sort(TopMatches(idx, rs, limit)), k) == Take(Sort(AllMatches(idx, rs)), k)
    decreases |rs|
  {
    if rs != [] {
      hide Sort, Merge, Take, Sorted, RankedReader, Tag;
      assert RankedReader(rs[0]);
      var a := Tag(idx, Matches(rs[0]));
      var rest, top := Sort(AllMatches(idx + 1, rs[1..])), Sort(TopMatches(idx + 1, rs[1..], limit));
      TagRanked(idx, rs[0], limit);
      SortOfSorted(a);
      SortedTake(a, limit);
      SortOfSorted(Take(a, limit));
      SortConcat(a, AllMatches(idx + 1, rs[1..]));
      SortConcat(Take(a, limit), TopMatches(idx + 1, rs[1..], limit));
      TopMergeExact(idx + 1, rs[1..], k, limit);
      TakeMerge(a, rest, k, k, k);
      TakeMerge(Take(a, limit), top, k, k, k);
      TakeTake(a, limit, k);
    }
  }

  lemma TakeTake<T>(s: seq<T>, limit: nat, k: nat)
    requires k <= limit
    ensures Take(Take(s, limit), k) == Take(s, k)
  {
  }

  lemma PageOfTake<T>(s: seq<T>, t: seq<T>, from: nat, size: nat)
    requires Take(s, from + size) == Take(t, from + size)
    ensures Page(s, from, size) == Page(t, from, size)
  {
    PageIsDroppedTake(s, from, size);
    PageIsDroppedTake(t, from, size);
  }

  lemma PageIsDroppedTake<T>(s: seq<T>, from: nat, size: nat)
    ensures var t := Take(s, from + size); Page(s, from, size) == if from <= |t| then t[from..] else []
  {
  }

  /** The page is the corresponding slice of the full ranking. */
  lemma SearchPageExact(rs: seq<Reader>, from: nat, size: nat)
    requires RankedReaders(rs)
    ensures SearchPage(rs, from, size) == Page(Ranking(rs), from, size)
  {
    if size > 0 {
      TopMergeExact(0, rs, from + size, Limit(from, size));
      PageOfTake(Sort(TopMatches(0, rs, Limit(from, size))), Ranking(rs), from, size);
    }
  }

  /** Consecutive pages neither overlap nor skip, although each asks its readers for a different number of matches. */
  lemma PagesAbut(rs: seq<Reader>, from: nat, a: nat, b: nat)
    requires RankedReaders(rs)
    ensures SearchPage(rs, from, a) + SearchPage(rs, from + a, b) == SearchPage(rs, from, a + b)
  {
    hide SearchPage, Ranking;
    SearchPageExact(rs, from, a);
    SearchPageExact(rs, from + a, b);
    SearchPageExact(rs, from, a + b);
    assert Page(Ranking(rs), from, a) + Page(Ranking(rs), from + a, b) == Page(Ranking(rs), from, a + b);
  }

  lemma PageIsSlice<T>(s: seq<T>, from: nat, size: nat)
    ensures |Page(s, from, size)| == if from + size <= |s| then size else if from <= |s| then |s| - from else 0
    ensures forall k :: 0 <= k < |Page(s, from, size)| ==> Page(s, from, size)[k] == s[from + k]
  {
  }

  lemma {:induction false} TopMatchKeys(idx: nat, rs: seq<Reader>, k: nat)
    ensures forall h <- TopMatches(idx, rs, k) :: h.key == -h.value.1.score
    decreases |rs|
  {
    if rs != [] {
      TopMatchKeys(idx + 1, rs[1..], k);
    }
  }

  lemma PageSorted(rs: seq<Reader>, from: nat, size: nat)
    ensures Sorted(SearchPage(rs, from, size))
    ensures forall h <- SearchPage(rs, from, size) :: h.key == -h.value.1.score
  {
    hide Sort, TopMatches;
    var top := TopMatches(0, rs, Limit(from, size));
    TopMatchKeys(0, rs, Limit(from, size));
    SortIsStable(top, 0);
    forall h <- SearchPage(rs, from, size)
      ensures h.key == -h.value.1.score
    {
      assert h in Sort(top);
      assert h in multiset(top);
    }
  }

  // ---------------------------------------------------------------- what the ranking is

  lemma CountCons<T>(x: T, s: seq<T>, y: T)
    ensures multiset([x] + s)[y] == (if x == y then 1 else 0) + multiset(s)[y]
  {
    assert multiset([x] + s) == multiset{x} + multiset(s);
  }

  lemma TagCons(idx: nat, h: Hit, hits: seq<Hit>)
    ensures Tag(idx, [h] + hits) == [Keyed(-h.score, (idx, h))] + Tag(idx, hits)
  {
  }

  lemma TagNone(idx: nat)
    ensures Tag(idx, []) == []
  {
  }

  lemma {:induction false} TagCount(idx: nat, hits: seq<Hit>, x: GlobalHit)
    ensures multiset(Tag(idx, hits))[x] ==
            if x.value.0 == idx && x.key == -x.value.1.score then multiset(hits)[x.value.1] else 0
  {
    hide Tag, Global;
    if hits == [] {
      TagNone(idx);
    } else {
      var h, rest := hits[0], hits[1..];
      assert hits == [h] + rest;
      TagCons(idx, h, rest);
      TagCount(idx, rest, x);
      CountCons(h, rest, x.value.1);
      var y := Keyed(-h.score, (idx, h));
      CountCons(y, Tag(idx, rest), x);
      assert y == x <==> x.value.0 == idx && x.key == -x.value.1.score && x.value.1 == h;
    }
  }

  lemma AllMatchesStep(idx: nat, rs: seq<Reader>)
    ensures rs == [] ==> AllMatches(idx, rs) == []
    ensures rs != [] ==> AllMatches(idx, rs) == Tag(idx, Matches(rs[0])) + AllMatches(idx + 1, rs[1..])
  {
  }

  lemma CountConcat<T>(a: seq<T>, b: seq<T>, x: T)
    ensures multiset(a + b)[x] == multiset(a)[x] + multiset(b)[x]
  {
  }

  lemma {:induction false} AllMatchesCount(idx: nat, rs: seq<Reader>, x: GlobalHit)
    ensures var i := x.value.0 - idx;
            multiset(AllMatches(idx, rs))[x] ==
            if 0 <= i < |rs| && rs[i].Ranked? && x.key == -x.value.1.score
            then multiset(rs[i].matches)[x.value.1] else 0
    decreases |rs|
  {
    hide Tag, Global, AllMatches;
    AllMatchesStep(idx, rs);
    if rs != [] {
      TagCount(idx, Matches(rs[0]), x);
      AllMatchesCount(idx + 1, rs[1..], x);
      CountConcat(Tag(idx, Matches(rs[0])), AllMatches(idx + 1, rs[1..]), x);
    }
  }

  /**
   What is ranked: each hit of each reader that has hits, as often as that reader returns it, under the number of that
   reader and by descending score, and nothing else.
   */
  lemma RankingCount(rs: seq<Reader>, x: GlobalHit)
    ensures multiset(Ranking(rs))[x] ==
            if x.value.0 < |rs| && rs[x.value.0].Ranked? && x.key == -x.value.1.score
            then multiset(rs[x.value.0].matches)[x.value.1] else 0
  {
    hide Sort, AllMatches;
    SortIsStable(AllMatches(0, rs), 0);
    AllMatchesCount(0, rs, x);
  }

  lemma RankedHit(rs: seq<Reader>, x: GlobalHit)
    requires x in Ranking(rs)
    ensures var (i, h) := x.value; i < |rs| && rs[i].Ranked? && h in rs[i].matches && x.key == -h.score
  {
    hide Ranking;
    RankingCount(rs, x);
    assert x in multiset(Ranking(rs));
  }

  /** The readers' numbers do not decrease along `s`. */
  predicate InReaderOrder(s: seq<GlobalHit>) {
    forall i, j :: 0 <= i < j < |s| ==> s[i].value.0 <= s[j].value.0
  }

  lemma {:induction false} AllMatchesInOrder(idx: nat, rs: seq<Reader>)
    ensures InReaderOrder(AllMatches(idx, rs)) && forall x <- AllMatches(idx, rs) :: x.value.0 >= idx
    decreases |rs|
  {
    if rs != [] {
      AllMatchesInOrder(idx + 1, rs[1..]);
    }
  }

  lemma OrderUncons(x: GlobalHit, s: seq<GlobalHit>)
    requires InReaderOrder([x] + s)
    ensures InReaderOrder(s) && forall y <- s :: x.value.0 <= y.value.0
  {
    var t := [x] + s;
    forall k | 0 <= k < |s|
      ensures x.value.0 <= s[k].value.0
    {
      assert t[0].value.0 <= t[k + 1].value.0;
    }
    forall i, j | 0 <= i < j < |s|
      ensures s[i].value.0 <= s[j].value.0
    {
      assert t[i + 1].value.0 <= t[j + 1].value.0;
    }
  }

  lemma OrderCons(x: GlobalHit, s: seq<GlobalHit>)
    requires InReaderOrder(s) && forall y <- s :: x.value.0 <= y.value.0
    ensures InReaderOrder([x] + s)
  {
  }

  lemma {:induction false} WithKeyInOrder(s: seq<GlobalHit>, key: int)
    requires InReaderOrder(s)
    ensures InReaderOrder(WithKey(s, key)) && forall x <- WithKey(s, key) :: x in s
  {
    hide WithKey, InReaderOrder;
    if s == [] {
      NoKeys(key);
    } else {
      var x, rest := s[0], s[1..];
      assert s == [x] + rest;
      OrderUncons(x, rest);
      WithKeyInOrder(rest, key);
      WithKeyCons(x, rest, key);
      OrderCons(x, WithKey(rest, key));
      InBoth(x, rest, key);
      assert [] + WithKey(rest, key) == WithKey(rest, key);
    }
  }

  lemma NoKeys(key: int)
    ensures WithKey<(nat, Hit)>([], key) == [] && InReaderOrder([])
  {
  }

  lemma InBoth(x: GlobalHit, rest: seq<GlobalHit>, key: int)
    requires forall y <- WithKey(rest, key) :: y in rest
    ensures forall y <- (if x.key == key then [x] else []) + WithKey(rest, key) :: y in [x] + rest
  {
    hide WithKey;
  }

  lemma {:induction false} OrderWithinKey(s: seq<GlobalHit>, p: nat, q: nat)
    requires p < q < |s| && s[p].key == s[q].key && InReaderOrder(WithKey(s, s[p].key))
    ensures s[p].value.0 <= s[q].value.0
    decreases q
  {
    var key := s[p].key;
    assert s == [s[0]] + s[1..];
    WithKeyCons(s[0], s[1..], key);
    if p > 0 {
      var rest, all := WithKey(s[1..], key), WithKey(s, key);
      assert s[0].key == key ==> forall i :: 0 <= i < |rest| ==> rest[i] == all[i + 1];
      assert s[0].key != key ==> all == rest;
      OrderWithinKey(s[1..], p - 1, q - 1);
    } else {
      KeyIsFound(s[1..], q - 1);
      var rest := WithKey(s[1..], key);
      var k :| 0 <= k < |rest| && rest[k] == s[q];
      var all := WithKey(s, key);
      assert all == [s[0]] + rest;
      assert all[0] == s[0] && all[k + 1] == s[q];
    }
  }

  lemma {:induction false} KeyIsFound(s: seq<GlobalHit>, q: nat)
    requires q < |s|
    ensures s[q] in WithKey(s, s[q].key)
  {
    if q > 0 {
      KeyIsFound(s[1..], q - 1);
    }
  }

  /** How it is ranked: higher scores first, and of equal scores those of earlier readers first. */
  lemma RankingOrder(rs: seq<Reader>, p: nat, q: nat)
    requires p < q < |Ranking(rs)|
    ensures var a, b := Ranking(rs)[p].value, Ranking(rs)[q].value;
            a.1.score > b.1.score || (a.1.score == b.1.score && a.0 <= b.0)
  {
    hide Sort, AllMatches;
    var all, r := AllMatches(0, rs), Ranking(rs);
    SortIsStable(all, r[p].key);
    RankedHit(rs, r[p]);
    RankedHit(rs, r[q]);
    if r[p].key == r[q].key {
      AllMatchesInOrder(0, rs);
      WithKeyInOrder(all, r[p].key);
      OrderWithinKey(r, p, q);
    }
  }

  lemma {:induction false} TotalIsRanking(rs: seq<Reader>, idx: nat)
    ensures |AllMatches(idx, rs)| == TotalMatches(rs)
    decreases |rs|
  {
    if rs != [] {
      TotalIsRanking(rs[1..], idx + 1);
    }
  }

  lemma RankingLength(rs: seq<Reader>)
    ensures |Ranking(rs)| == TotalMatches(rs)
  {
    hide Sort;
    SortIsStable(AllMatches(0, rs), 0);
    TotalIsRanking(rs, 0);
    assert |multiset(Ranking(rs))| == |multiset(AllMatches(0, rs))|;
  }

  /** The error of the first reader that fails. */
  function FirstFailure(rs: seq<Reader>): (f: Option<Outcome>)
    ensures f.Some? ==> f.value.InvalidQuery? || f.value.SearchError?
    decreases |rs|
  {
    if rs == [] then None
    else match rs[0]
      case RejectsQuery => Some(InvalidQuery)
      case FailsSearch => Some(SearchError)
      case _ => FirstFailure(rs[1..])
  }

  /** Which failure is reported: that of the first reader that rejects the query or fails to search. */
  lemma {:induction false} FirstFailureIs(rs: seq<Reader>)
    ensures FirstFailure(rs).None? <==> forall i :: 0 <= i < |rs| ==> !rs[i].RejectsQuery? && !rs[i].FailsSearch?
    ensures FirstFailure(rs).Some? ==>
              exists i :: 0 <= i < |rs| &&
                          FirstFailure(rs).value == (if rs[i].RejectsQuery? then InvalidQuery else SearchError) &&
                          (rs[i].RejectsQuery? || rs[i].FailsSearch?) &&
                          forall j :: 0 <= j < i ==> !rs[j].RejectsQuery? && !rs[j].FailsSearch?
    decreases |rs|
  {
    if rs != [] && !rs[0].RejectsQuery? && !rs[0].FailsSearch? {
      FirstFailureIs(rs[1..]);
      assert forall i :: 0 < i < |rs| ==> rs[i] == rs[1..][i - 1];
      if FirstFailure(rs).Some? {
        var i :| 0 <= i < |rs[1..]| &&
                 FirstFailure(rs).value == (if rs[1..][i].RejectsQuery? then InvalidQuery else SearchError) &&
                 (rs[1..][i].RejectsQuery? || rs[1..][i].FailsSearch?) &&
                 forall j :: 0 <= j < i ==> !rs[1..][j].RejectsQuery? && !rs[1..][j].FailsSearch?;
        assert rs[i + 1] == rs[1..][i];
      }
    }
  }

  ghost predicate IsMaxScore(m: Option<int>, hits: seq<GlobalHit>) {
    match m
    case None => hits == []
    case Some(score) =>
      && (exists h <- hits :: h.value.1.score == score)
      && (forall h <- hits :: h.value.1.score <= score)
  }

  predicate AllStored(hits: seq<GlobalHit>) {
    forall h <- hits :: h.value.1.stored
  }

  /**
   `execute_search`. It fails with the first failing reader; otherwise it reports the number of all matches and the
   page of the full ranking, with the highest score on the page, unless a document of the page cannot be retrieved.
   */
  method ExecuteSearch(readers: seq<Reader>, from: nat, size: nat) returns (r: Outcome)
    requires RankedReaders(readers)
    ensures var page := Page(Ranking(readers), from, size);
            if FirstFailure(readers).Some? then r == FirstFailure(readers).value
            else if AllStored(page) then r.Found? && r.total == TotalMatches(readers) && r.hits == page
            else r == RetrievalError
    ensures r.Found? ==> IsMaxScore(r.maxScore, r.hits)
    ensures r.InvalidQuery? || r.SearchError? <==>
            exists i :: 0 <= i < |readers| && (readers[i].RejectsQuery? || readers[i].FailsSearch?)
    ensures r.InvalidQuery? || r.SearchError? ==>
              exists i :: 0 <= i < |readers| && r == (if readers[i].RejectsQuery? then InvalidQuery else SearchError) &&
                          (readers[i].RejectsQuery? || readers[i].FailsSearch?) &&
                          forall j :: 0 <= j < i ==> !readers[j].RejectsQuery? && !readers[j].FailsSearch?
    ensures r.Found? ==>
              && r.total == |Ranking(readers)|
              && |r.hits| == (if from + size <= r.total then size else if from <= r.total then r.total - from else 0)
              && (forall k :: 0 <= k < |r.hits| ==> r.hits[k] == Ranking(readers)[from + k])
              && (forall x <- r.hits ::
                    var (i, h) := x.value; i < |readers| && readers[i].Ranked? && h in readers[i].matches && h.stored)
  {
    hide TopMatches, Ranking, Page, RankedReaders, FirstFailure, Global, TotalMatches;
    FirstFailureIs(readers);
    PageIsSlice(Ranking(readers), from, size);
    RankingLength(readers);
    var failure, total, globalHits := CollectMatches(readers, Limit(from, size));
    if failure.Some? {
      return failure.value;
    }
    SearchPageExact(readers, from, size);
    PageSorted(readers, from, size);
    r := RetrievePage(Page(Sort(globalHits), from, size), total);
    if r.Found? {
      forall x <- r.hits
        ensures var (i, h) := x.value; i < |readers| && readers[i].Ranked? && h in readers[i].matches
      {
        RankedHit(readers, x);
      }
    }
  }

  /** The reader loop, up to the first failing reader. */
  method CollectMatches(readers: seq<Reader>, limit: nat)
    returns (failure: Option<Outcome>, total: nat, hits: seq<GlobalHit>)
    requires limit > 0
    ensures failure == FirstFailure(readers)
    ensures failure.None? ==> total == TotalMatches(readers) && hits == TopMatches(0, readers, limit)
  {
    hide TopMatches, TotalMatches, FirstFailure;
    failure, total, hits := None, 0, [];
    assert readers[0..] == readers;
    for i := 0 to |readers|
      invariant FirstFailure(readers) == FirstFailure(readers[i..])
      invariant TotalMatches(readers) == total + TotalMatches(readers[i..])
      invariant TopMatches(0, readers, limit) == hits + TopMatches(i, readers[i..], limit)
    {
      ReaderStep(i, readers, limit);
      match readers[i]
      case NoTextField =>
      case RejectsQuery => return Some(InvalidQuery), total, hits;
      case FailsSearch => return Some(SearchError), total, hits;
      case Ranked(matches) =>
        total := total + |matches|;
        hits := hits + Tag(i, Take(matches, limit));
    }
    assert readers[|readers|..] == [];
    NoReaders(|readers|, limit);
  }

  lemma ReaderStep(i: nat, readers: seq<Reader>, limit: nat)
    requires i < |readers|
    ensures var r, before, after := readers[i], readers[i..], readers[i + 1..];
            && TotalMatches(before) == |Matches(r)| + TotalMatches(after)
            && TopMatches(i, before, limit) == Tag(i, Take(Matches(r), limit)) + TopMatches(i + 1, after, limit)
            && FirstFailure(before) == (match r
                                        case RejectsQuery => Some(InvalidQuery)
                                        case FailsSearch => Some(SearchError)
                                        case _ => FirstFailure(after))
  {
    assert readers[i..][1..] == readers[i + 1..];
  }

  lemma NoReaders(i: nat, limit: nat)
    ensures TotalMatches([]) == 0 && TopMatches(i, [], limit) == [] && FirstFailure([]) == None
  {
  }

  /** The page loop. */
  method RetrievePage(paginated: seq<GlobalHit>, total: nat) returns (r: Outcome)
    requires Sorted(paginated) && forall h <- paginated :: h.key == -h.value.1.score
    ensures if AllStored(paginated) then r.Found? && r.total == total && r.hits == paginated else r == RetrievalError
    ensures r.Found? ==> IsMaxScore(r.maxScore, r.hits)
  {
    var hits: seq<GlobalHit> := [];
    var maxScore: Option<int> := None;
    for i := 0 to |paginated|
      invariant hits == paginated[..i]
      invariant AllStored(hits)
      invariant maxScore == if i == 0 then None else Some(paginated[0].value.1.score)
    {
      var h := paginated[i];
      if maxScore.None? {
        maxScore := Some(h.value.1.score);
      }
      if !h.value.1.stored {
        return RetrievalError;
      }
      hits := hits + [h];
    }
    assert forall h <- paginated :: h.key >= paginated[0].key;
    return Found(total, maxScore, hits);
  }
}
