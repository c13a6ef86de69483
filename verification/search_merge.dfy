/** The query fan-out and result merge of the user search handler: one
    search request per compiled filter string, and a fold over the
    per-request outcomes, in the order they are processed, that keeps the
    first hit of every object id. A failed request contributes nothing. */
module SearchMerge {
  import opened Optional
  import opened Model
  import opened FilterStrings

  /** A search hit: the index's object id and the user record stored for it. */
  datatype SearchHit = SearchHit(objectID: string, record: User)

  /** The options of one search call: an empty query text, the ranking hint,
      and a filter string unless there is nothing to filter on. */
  datatype SearchRequest = SearchRequest(text: string, optionalFilters: seq<string>, filters: Option<string>)

  /** The outcome of one search call: its hits, or `None` when it failed. */
  type Outcome = Option<seq<SearchHit>>

  /** The options for one filter string; an absent or empty filter string
      sends no `filters` option. */
  function RequestFor(filterString: Option<string>, optionalFilters: seq<string>): (r: SearchRequest)
    ensures r.text == "" && r.optionalFilters == optionalFilters
    ensures r.filters.Some? <==> filterString.Some? && filterString.value != ""
    ensures r.filters.Some? ==> r.filters == filterString
  {
    if filterString.Some? && filterString.value != "" then
      SearchRequest("", optionalFilters, filterString)
    else SearchRequest("", optionalFilters, None)
  }

  /** The filter strings of a query, with the fallback to one unfiltered
      search when there are none. */
  function FilterStringsOrFallback(q: Query): (r: seq<Option<string>>)
    ensures |r| == |GetFilterStrings(q)|
    ensures forall i :: 0 <= i < |r| ==> r[i] == Some(GetFilterStrings(q)[i])
  {
    var fs := GetFilterStrings(q);
    if |fs| == 0 then [None]
    else seq(|fs|, i requires 0 <= i < |fs| => Some(fs[i]))
  }

  /** The search calls issued for a query, one per filter string. */
  function SearchRequests(q: Query): (rs: seq<SearchRequest>)
    ensures |rs| == if |q.availability| == 0 then 1 else |q.availability|
    ensures forall i :: 0 <= i < |rs| ==>
              rs[i] == RequestFor(Some(GetFilterStrings(q)[i]), OptionalFilters(q))
  {
    var strings := FilterStringsOrFallback(q);
    seq(|strings|, i requires 0 <= i < |strings| => RequestFor(strings[i], OptionalFilters(q)))
  }

  /** A search call goes out without a filter only when the query asks for
      nothing at all: no clause and no timeslot. */
  lemma UnfilteredOnlyForEmptyQuery(q: Query, i: int)
    requires 0 <= i < if |q.availability| == 0 then 1 else |q.availability|
    ensures SearchRequests(q)[i].filters.None? <==>
              |q.availability| == 0 && RequestedClauses(q) == []
  {
    assert SearchRequests(q)[i] == RequestFor(Some(GetFilterStrings(q)[i]), OptionalFilters(q));
    FilterStringEmptyIff(q, i);
  }

  /** A compiled filter string is empty only when the query asks for nothing. */
  lemma FilterStringEmptyIff(q: Query, i: int)
    requires 0 <= i < if |q.availability| == 0 then 1 else |q.availability|
    ensures GetFilterStrings(q)[i] == "" <==> |q.availability| == 0 && RequestedClauses(q) == []
  {
    if |q.availability| > 0 {
      assert |GetFilterStrings(q)[i]| >= |AndSep|;
    } else {
      NoClauseNoText(q);
    }
  }

  // The merge.

  function Ids(hits: seq<SearchHit>): set<string> {
    set i | 0 <= i < |hits| :: hits[i].objectID
  }

  predicate UniqueIds(hits: seq<SearchHit>) {
    forall i, j :: 0 <= i < j < |hits| ==> hits[i].objectID != hits[j].objectID
  }

  lemma IdsAppend(a: seq<SearchHit>, b: seq<SearchHit>)
    ensures Ids(a + b) == Ids(a) + Ids(b)
  {
    var ab := a + b;
    forall id | id in Ids(ab)
      ensures id in Ids(a) + Ids(b)
    {
      var i :| 0 <= i < |ab| && ab[i].objectID == id;
      if i >= |a| {
        assert b[i - |a|].objectID == id;
      }
    }
    forall id | id in Ids(a)
      ensures id in Ids(ab)
    {
      var i :| 0 <= i < |a| && a[i].objectID == id;
      assert ab[i].objectID == id;
    }
    forall id | id in Ids(b)
      ensures id in Ids(ab)
    {
      var i :| 0 <= i < |b| && b[i].objectID == id;
      assert ab[|a| + i].objectID == id;
    }
  }

  /** The inner loop over one response's hits: a hit is appended exactly when
      no result so far has its object id. */
  function AddHits(results: seq<SearchHit>, hits: seq<SearchHit>): (r: seq<SearchHit>)
    ensures |results| <= |r| && r[..|results|] == results
    ensures Ids(r) == Ids(results) + Ids(hits)
    ensures UniqueIds(results) ==> UniqueIds(r)
    ensures forall i :: |results| <= i < |r| ==> r[i] in hits
    decreases |hits|
  {
    if |hits| == 0 then results
    else
      var h := hits[0];
      var next := if h.objectID in Ids(results) then results else results + [h];
      AddOne(results, h, next);
      assert Ids(hits) == {h.objectID} + Ids(hits[1..]) by {
        IdsAppend([h], hits[1..]);
        assert hits == [h] + hits[1..];
      }
      var r := AddHits(next, hits[1..]);
      assert r[..|next|] == next;
      assert r[..|results|] == next[..|results|];
      assert forall i :: |results| <= i < |r| ==> r[i] in hits by {
        forall i | |results| <= i < |r|
          ensures r[i] in hits
        {
          if i < |next| {
            assert r[i] == next[i] == hits[0];
          } else {
            assert r[i] in hits[1..];
          }
        }
      }
      r
  }

  /** One step of `AddHits`: `h` is appended unless its id is already there. */
  lemma AddOne(results: seq<SearchHit>, h: SearchHit, next: seq<SearchHit>)
    requires next == if h.objectID in Ids(results) then results else results + [h]
    ensures |results| <= |next| && next[..|results|] == results
    ensures Ids(next) == Ids(results) + {h.objectID}
    ensures UniqueIds(results) ==> UniqueIds(next)
    ensures forall i :: |results| <= i < |next| ==> next[i] == h
  {
    IdsAppend(results, [h]);
    assert Ids([h]) == {h.objectID} by {
      assert [h][0].objectID == h.objectID;
    }
  }

  /** The outer loop: every successful outcome is merged in the order the
      outcomes are processed; a failed one is skipped. */
  function MergeOutcomes(results: seq<SearchHit>, outcomes: seq<Outcome>): (r: seq<SearchHit>)
    ensures |results| <= |r| && r[..|results|] == results
    ensures Ids(r) == Ids(results) + Ids(Successful(outcomes))
    ensures UniqueIds(results) ==> UniqueIds(r)
    decreases |outcomes|
  {
    if |outcomes| == 0 then
      assert Ids([]) == {};
      results
    else
      var first := match outcomes[0] case None => [] case Some(hits) => hits;
      var next := match outcomes[0]
        case None => results
        case Some(hits) => AddHits(results, hits);
      assert Ids(next) == Ids(results) + Ids(first) by {
        assert Ids([]) == {};
      }
      assert Ids(Successful(outcomes)) == Ids(first) + Ids(Successful(outcomes[1..])) by {
        IdsAppend(first, Successful(outcomes[1..]));
      }
      var r := MergeOutcomes(next, outcomes[1..]);
      assert r[..|results|] == next[..|results|] by {
        assert r[..|next|] == next;
      }
      r
  }

  /** The merged result of one search: the fold starting from no results,
      which holds each object id of a successful response exactly once. */
  function SearchUsers(outcomes: seq<Outcome>): (r: seq<SearchHit>)
    ensures UniqueIds(r)
    ensures Ids(r) == Ids(Successful(outcomes))
  {
    assert Ids([]) == {};
    MergeOutcomes([], outcomes)
  }

  /** All hits of the successful outcomes, in order. */
  function Successful(outcomes: seq<Outcome>): seq<SearchHit>
    decreases |outcomes|
  {
    if |outcomes| == 0 then []
    else
      (match outcomes[0] case None => [] case Some(hits) => hits) + Successful(outcomes[1..])
  }

  /** `xs[i]` is the first hit with its object id. */
  predicate IsFirst(xs: seq<SearchHit>, i: int)
    requires 0 <= i < |xs|
  {
    forall j :: 0 <= j < i ==> xs[j].objectID != xs[i].objectID
  }

  /** The reference merge: the first hit of every object id, in order. */
  function FirstOccurrences(xs: seq<SearchHit>): (r: seq<SearchHit>)
    ensures UniqueIds(r)
    ensures Ids(r) == Ids(xs)
    ensures forall k :: 0 <= k < |r| ==> r[k] in xs
    ensures forall i :: 0 <= i < |xs| && IsFirst(xs, i) ==> xs[i] in r
    decreases |xs|
  {
    if |xs| == 0 then []
    else
      var init := xs[..|xs| - 1];
      var last := xs[|xs| - 1];
      var r := FirstOccurrences(init) + (if IsFirst(xs, |xs| - 1) then [last] else []);
      assert xs == init + [last];
      IdsAppend(init, [last]);
      IdsAppend(FirstOccurrences(init), if IsFirst(xs, |xs| - 1) then [last] else []);
      assert !IsFirst(xs, |xs| - 1) ==> last.objectID in Ids(init);
      assert IsFirst(xs, |xs| - 1) ==> last.objectID !in Ids(init);
      assert forall i :: 0 <= i < |init| ==> (IsFirst(xs, i) <==> IsFirst(init, i));
      r
  }

  lemma FirstOccurrencesSnoc(p: seq<SearchHit>, h: SearchHit)
    ensures FirstOccurrences(p + [h])
            == FirstOccurrences(p) + (if h.objectID in Ids(p) then [] else [h])
  {
    var xs := p + [h];
    assert xs[..|xs| - 1] == p;
    assert IsFirst(xs, |xs| - 1) <==> h.objectID !in Ids(p) by {
      if h.objectID in Ids(p) {
        var j :| 0 <= j < |p| && p[j].objectID == h.objectID;
        assert xs[j].objectID == h.objectID;
      }
    }
  }

  lemma AppendAssoc(a: seq<SearchHit>, b: seq<SearchHit>, c: seq<SearchHit>)
    ensures a + (b + c) == (a + b) + c
  {
  }

  lemma MoveFirst(p: seq<SearchHit>, hits: seq<SearchHit>)
    requires |hits| > 0
    ensures p + hits == (p + [hits[0]]) + hits[1..]
  {
    assert hits == [hits[0]] + hits[1..];
  }

  /** Appending one response to the first occurrences of the hits so far
      gives the first occurrences of all hits. */
  lemma {:induction false} AddHitsIsFirstOccurrences(p: seq<SearchHit>, hits: seq<SearchHit>)
    ensures AddHits(FirstOccurrences(p), hits) == FirstOccurrences(p + hits)
    decreases |hits|
  {
    if |hits| == 0 {
      assert p + hits == p;
    } else {
      var h := hits[0];
      var fo := FirstOccurrences(p);
      var next := if h.objectID in Ids(fo) then fo else fo + [h];
      assert AddHits(fo, hits) == AddHits(next, hits[1..]);
      FirstOccurrencesSnoc(p, h);
      assert next == FirstOccurrences(p + [h]);
      AddHitsIsFirstOccurrences(p + [h], hits[1..]);
      MoveFirst(p, hits);
    }
  }

  lemma {:induction false} MergeIsFirstOccurrencesFrom(p: seq<SearchHit>, outcomes: seq<Outcome>)
    ensures MergeOutcomes(FirstOccurrences(p), outcomes) == FirstOccurrences(p + Successful(outcomes))
    decreases |outcomes|
  {
    if |outcomes| == 0 {
      assert p + Successful(outcomes) == p;
    } else {
      var first := match outcomes[0] case None => [] case Some(hits) => hits;
      var fo := FirstOccurrences(p);
      var next := match outcomes[0]
        case None => fo
        case Some(hits) => AddHits(fo, hits);
      assert MergeOutcomes(fo, outcomes) == MergeOutcomes(next, outcomes[1..]);
      AddHitsIsFirstOccurrences(p, first);
      if outcomes[0].None? {
        assert p + first == p;
      }
      assert next == FirstOccurrences(p + first);
      MergeIsFirstOccurrencesFrom(p + first, outcomes[1..]);
      assert Successful(outcomes) == first + Successful(outcomes[1..]);
      AppendAssoc(p, first, Successful(outcomes[1..]));
    }
  }

  /** The merge is the first occurrence of every object id across the
      successful responses, taken in processing order: no id twice, every
      id of a successful response present, the first hit winning. */
  lemma SearchUsersIsFirstOccurrences(outcomes: seq<Outcome>)
    ensures SearchUsers(outcomes) == FirstOccurrences(Successful(outcomes))
    ensures UniqueIds(SearchUsers(outcomes))
    ensures Ids(SearchUsers(outcomes)) == Ids(Successful(outcomes))
  {
    MergeIsFirstOccurrencesFrom([], outcomes);
    assert [] + Successful(outcomes) == Successful(outcomes);
  }

  /** A failed request changes nothing, wherever it comes, and does not
      stop the outcomes after it from being merged. */
  lemma {:induction false} FailedQueryIgnored(results: seq<SearchHit>, before: seq<Outcome>, after: seq<Outcome>)
    ensures MergeOutcomes(results, before + [None] + after) == MergeOutcomes(results, before + after)
    decreases |before|
  {
    if |before| == 0 {
      assert before + [None] + after == [None] + after;
      assert ([None] + after)[1..] == after;
      assert before + after == after;
    } else {
      var next := match before[0]
        case None => results
        case Some(hits) => AddHits(results, hits);
      assert (before + [None] + after)[1..] == before[1..] + [None] + after;
      assert (before + after)[1..] == before[1..] + after;
      FailedQueryIgnored(next, before[1..], after);
    }
  }

  /** Results already merged keep their places: merging more hits only
      appends. */
  lemma {:induction false} FirstOccurrencesPrefix(a: seq<SearchHit>, b: seq<SearchHit>)
    ensures |FirstOccurrences(a)| <= |FirstOccurrences(a + b)|
    ensures FirstOccurrences(a + b)[..|FirstOccurrences(a)|] == FirstOccurrences(a)
  {
    AddHitsIsFirstOccurrences(a, b);
  }
}
