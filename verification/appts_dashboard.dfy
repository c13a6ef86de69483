/** The appointments table of an organisation's dashboard: the local
    replace-by-id of an edited row in the cached response, the pagination
    controls, and the per-appointment pending pushes that debounce edits. */
module ApptsDashboard {
  import opened Optional
  import opened Json

  /** An appointment row; only its id matters to the table's updates. */
  datatype Appt = Appt(id: string, details: Record)

  /** A page of appointments and the total number of hits. */
  datatype ApptsResponse = ApptsResponse(appts: seq<Appt>, hits: int)

  // The local update.

  /** `findIndex((u) => u.id === key)`: the first row with that id, or -1. */
  function FindIndex(appts: seq<Appt>, key: string): (idx: int)
    ensures -1 <= idx < |appts|
    ensures idx >= 0 ==> appts[idx].id == key && forall j :: 0 <= j < idx ==> appts[j].id != key
    ensures idx < 0 <==> forall j :: 0 <= j < |appts| ==> appts[j].id != key
    decreases |appts|
  {
    if |appts| == 0 then -1
    else if appts[0].id == key then 0
    else
      var k := FindIndex(appts[1..], key);
      if k < 0 then -1 else k + 1
  }

  /** `oldId || updated.id`: an absent or empty old id falls back to the
      row's own id. */
  function LookupKey(updated: Appt, oldId: Option<string>): (key: string)
    ensures oldId.Some? && oldId.value != "" ==> key == oldId.value
    ensures oldId.None? || oldId.value == "" ==> key == updated.id
  {
    if oldId.Some? && oldId.value != "" then oldId.value else updated.id
  }

  /** `updateLocal`'s mutation of the cached response: the first row with the
      lookup key becomes `updated`; no cached response, or no such row, leaves
      the cache as it is. */
  function UpdateLocal(prev: Option<ApptsResponse>, updated: Appt, oldId: Option<string>): (r: Option<ApptsResponse>)
    ensures prev.None? ==> r.None?
    ensures prev.Some? ==> r.Some? && r.value.hits == prev.value.hits && |r.value.appts| == |prev.value.appts|
    ensures (prev.Some? && forall j :: 0 <= j < |prev.value.appts| ==> prev.value.appts[j].id != LookupKey(updated, oldId))
              ==> r == prev
    ensures prev.Some? ==> forall j :: 0 <= j < |prev.value.appts| ==>
              r.value.appts[j] == if j == FindIndex(prev.value.appts, LookupKey(updated, oldId))
                                  then updated else prev.value.appts[j]
  {
    match prev
    case None => prev
    case Some(res) =>
      var rows := res.appts;
      var idx := FindIndex(rows, LookupKey(updated, oldId));
      if idx < 0 then prev
      else Some(res.(appts := rows[..idx] + [updated] + rows[idx + 1..]))
  }

  /** Writing the same row again changes nothing: the row now sits where its
      id is first found. */
  lemma UpdateLocalIdempotent(prev: Option<ApptsResponse>, updated: Appt)
    ensures UpdateLocal(UpdateLocal(prev, updated, None), updated, None) == UpdateLocal(prev, updated, None)
  {
    if prev.Some? {
      var rows := prev.value.appts;
      assert LookupKey(updated, None) == updated.id;
      var idx := FindIndex(rows, updated.id);
      if idx >= 0 {
        var once := rows[..idx] + [updated] + rows[idx + 1..];
        assert UpdateLocal(prev, updated, None) == Some(prev.value.(appts := once));
        assert FindIndex(once, updated.id) == idx by {
          assert once[idx].id == updated.id;
          assert forall j :: 0 <= j < idx ==> once[j] == rows[j];
        }
        ReplaceWithSame(once, idx);
      }
    }
  }

  /** Replacing an element by itself leaves the sequence as it was. */
  lemma ReplaceWithSame<T>(s: seq<T>, i: int)
    requires 0 <= i < |s|
    ensures s[..i] + [s[i]] + s[i + 1..] == s
  {
  }

  /** After an update that found its row, the row is found under its new id
      at the same place, unless an earlier row already has that id. */
  lemma UpdateLocalFindsRow(res: ApptsResponse, updated: Appt, oldId: Option<string>)
    requires FindIndex(res.appts, LookupKey(updated, oldId)) >= 0
    ensures var idx := FindIndex(res.appts, LookupKey(updated, oldId));
            var r := UpdateLocal(Some(res), updated, oldId).value;
            r.appts[idx] == updated
            && (FindIndex(r.appts, updated.id) == idx
                || (0 <= FindIndex(r.appts, updated.id) < idx
                    && r.appts[FindIndex(r.appts, updated.id)] == res.appts[FindIndex(r.appts, updated.id)]))
  {
  }

  // Pagination.

  /** The query the table is showing: the search text and the page window. */
  datatype ApptsQuery = ApptsQuery(query: string, page: int, hitsPerPage: int)

  /** The rows-per-page options the select offers. */
  const RowsPerPage: seq<int> := [5, 10, 15, 20, 25, 30]

  /** The "previous" button is disabled on the first page. */
  predicate PrevDisabled(q: ApptsQuery) {
    q.page <= 0
  }

  /** The "next" button: `page + 1 >= hits / hitsPerPage` in floating point.
      With a positive page size it is disabled exactly when the pages up to
      the current one hold all the hits; a division by zero gives an infinity
      (or not-a-number for zero hits) and so disables it only for a negative
      count. */
  function NextDisabled(q: ApptsQuery, hits: int): (disabled: bool)
    ensures q.hitsPerPage > 0 ==> (disabled <==> (q.page + 1) * q.hitsPerPage >= hits)
    ensures q.hitsPerPage == 0 ==> (disabled <==> hits < 0)
  {
    if q.hitsPerPage == 0 then hits < 0
    else
      var disabled := (q.page + 1) as real >= hits as real / q.hitsPerPage as real;
      if q.hitsPerPage > 0 then
        QuotientBound(q.page + 1, q.hitsPerPage, hits);
        disabled
      else disabled
  }

  /** `a >= h / p` over the reals is `a * p >= h` over the integers when `p`
      is positive. */
  lemma QuotientBound(a: int, p: int, h: int)
    requires p > 0
    ensures a as real >= h as real / p as real <==> a * p >= h
  {
    var ar := a as real;
    var pr := p as real;
    var hr := h as real;
    assert ar * pr == (a * p) as real;
    assert hr / pr * pr == hr;
    if ar >= hr / pr {
      assert ar * pr >= hr / pr * pr;
    } else {
      assert ar * pr < hr / pr * pr;
    }
  }

  /** The number of hits the table knows of: `data ? data.hits : 0`. */
  function KnownHits(data: Option<ApptsResponse>): int {
    if data.Some? then data.value.hits else 0
  }

  /** The query after the same control is used `n` times. */
  function Presses(q: ApptsQuery, c: Control, n: nat): ApptsQuery
    decreases n
  {
    if n == 0 then q else Step(Presses(q, c, n - 1), c)
  }

  /** From any page of a valid query, "previous" stays enabled until it has
      led back to the first page, where it is disabled. */
  lemma {:induction false} PrevLeadsToFirstPage(q: ApptsQuery, hits: int, n: nat)
    requires ValidQuery(q) && n <= q.page
    ensures Presses(q, PrevPage, n) == q.(page := q.page - n)
    ensures n < q.page ==> Enabled(Presses(q, PrevPage, n), PrevPage, hits)
    ensures n == q.page ==> PrevDisabled(Presses(q, PrevPage, n))
    decreases n
  {
    if n > 0 {
      PrevLeadsToFirstPage(q, hits, n - 1);
    }
  }

  /** What the controls do to the query. */
  datatype Control =
    | SearchEdited(text: string)
    | RowsPerPageChosen(rows: int)
    | PrevPage
    | NextPage

  /** The query after a control is used. */
  function Step(q: ApptsQuery, c: Control): (r: ApptsQuery)
    ensures c.SearchEdited? ==> r == q.(query := c.text, page := 0)
    ensures c.RowsPerPageChosen? ==> r == q.(hitsPerPage := c.rows, page := 0)
    ensures c.PrevPage? ==> r == q.(page := q.page - 1)
    ensures c.NextPage? ==> r == q.(page := q.page + 1)
  {
    match c
    case SearchEdited(text) => q.(query := text, page := 0)
    case RowsPerPageChosen(rows) => q.(hitsPerPage := rows, page := 0)
    case PrevPage => q.(page := q.page - 1)
    case NextPage => q.(page := q.page + 1)
  }

  /** A control can be used: the paging buttons only when enabled, the select
      only with one of its options. */
  predicate Enabled(q: ApptsQuery, c: Control, hits: int) {
    match c
    case SearchEdited(_) => true
    case RowsPerPageChosen(rows) => rows in RowsPerPage
    case PrevPage => !PrevDisabled(q)
    case NextPage => !NextDisabled(q, hits)
  }

  /** The table's query is on a real page and uses an offered page size. */
  predicate ValidQuery(q: ApptsQuery) {
    q.page >= 0 && q.hitsPerPage in RowsPerPage
  }

  const InitialQuery := ApptsQuery("", 0, 10)

  lemma InitialQueryValid()
    ensures ValidQuery(InitialQuery)
  {
  }

  /** Enabled controls keep the query valid, and "next" only ever opens a page
      that starts before the last hit. */
  lemma StepKeepsValid(q: ApptsQuery, c: Control, hits: int)
    requires ValidQuery(q) && Enabled(q, c, hits)
    ensures ValidQuery(Step(q, c))
    ensures c.NextPage? ==> Step(q, c).page * Step(q, c).hitsPerPage < hits
  {
  }

  /** "previous" undoes "next", and "next" undoes "previous". */
  lemma PrevUndoesNext(q: ApptsQuery)
    ensures Step(Step(q, NextPage), PrevPage) == q
    ensures Step(Step(q, PrevPage), NextPage) == q
  {
  }

  // Debounced pushes.

  /** A scheduled push of an edited appointment, known by its timer handle. */
  datatype Push = Push(appt: Appt, timer: nat)

  /** The effect of an edit on the pending pushes: any push still pending for
      the appointment is cancelled and replaced by one for the edit. */
  function Schedule(pending: map<string, Push>, appt: Appt, timer: nat): (r: (map<string, Push>, Option<Push>))
    ensures r.0.Keys == pending.Keys + {appt.id}
    ensures r.0[appt.id] == Push(appt, timer)
    ensures forall id :: id in pending && id != appt.id ==> r.0[id] == pending[id]
    ensures r.1.Some? <==> appt.id in pending
    ensures r.1.Some? ==> r.1.value == pending[appt.id]
  {
    var cancelled := if appt.id in pending then Some(pending[appt.id]) else None;
    var rest := pending - {appt.id};
    (rest[appt.id := Push(appt, timer)], cancelled)
  }

  /** The pending pushes after a run of edits, each with its timer handle. */
  function ScheduleAll(pending: map<string, Push>, edits: seq<Push>): (r: map<string, Push>)
    ensures r.Keys == pending.Keys + EditedIds(edits)
    decreases |edits|
  {
    if |edits| == 0 then pending
    else
      var last := edits[|edits| - 1];
      EditedIdsSnoc(edits);
      Schedule(ScheduleAll(pending, edits[..|edits| - 1]), last.appt, last.timer).0
  }

  /** The appointments a run of edits touches. */
  ghost function EditedIds(edits: seq<Push>): set<string> {
    set i | 0 <= i < |edits| :: edits[i].appt.id
  }

  lemma EditedIdsSnoc(edits: seq<Push>)
    requires |edits| > 0
    ensures EditedIds(edits) == EditedIds(edits[..|edits| - 1]) + {edits[|edits| - 1].appt.id}
  {
    var init := edits[..|edits| - 1];
    assert forall i :: 0 <= i < |init| ==> init[i] == edits[i];
  }

  /** The position of the last edit of an appointment, or -1. */
  function LastEditIndex(edits: seq<Push>, id: string): (k: int)
    ensures -1 <= k < |edits|
    ensures k >= 0 ==> edits[k].appt.id == id
    ensures forall j :: k < j < |edits| ==> edits[j].appt.id != id
    decreases |edits|
  {
    if |edits| == 0 then -1
    else if edits[|edits| - 1].appt.id == id then |edits| - 1
    else LastEditIndex(edits[..|edits| - 1], id)
  }

  /** The last edit of an appointment in a run of edits, if any. */
  function LastEdit(edits: seq<Push>, id: string): (r: Option<Push>)
    ensures r.Some? ==> r.value in edits && r.value.appt.id == id
    ensures r.Some? ==> exists k :: 0 <= k < |edits| && edits[k] == r.value
                                    && forall j :: k < j < |edits| ==> edits[j].appt.id != id
    ensures r.None? <==> forall i :: 0 <= i < |edits| ==> edits[i].appt.id != id
  {
    var k := LastEditIndex(edits, id);
    if k < 0 then None else Some(edits[k])
  }

  /** After a run of edits, each edited appointment has exactly one pending
      push, the one for its last edit; other appointments keep theirs. */
  lemma {:induction false} LastEditWins(pending: map<string, Push>, edits: seq<Push>, id: string)
    ensures id in ScheduleAll(pending, edits) <==> id in pending || LastEdit(edits, id).Some?
    ensures LastEdit(edits, id).Some? ==> ScheduleAll(pending, edits)[id] == LastEdit(edits, id).value
    ensures LastEdit(edits, id).None? && id in pending ==> ScheduleAll(pending, edits)[id] == pending[id]
    decreases |edits|
  {
    if |edits| > 0 {
      LastEditWins(pending, edits[..|edits| - 1], id);
    }
  }
}
