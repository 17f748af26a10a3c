/** The database-backed uniqueifier: the same offset loop, asked against the
    `Events` table, with a cached `eventCount` that triggers a cleanup keeping
    only the `history` most recently created events. The table is a sequence
    of rows in store order. */
module DbEngine {
  import opened Offsets
  import MemoryEngine

  /** A row of the `Events` table; `Created` is the insertion instant. */
  datatype Event = Event(eventDate: string, patientCode: string, created: nat)

  /** The (event date, patient code) pairs the table holds. */
  function Keys(events: seq<Event>): set<MemoryEngine.Entry> {
    set e | e in events :: MemoryEngine.Entry(e.eventDate, e.patientCode)
  }

  /** The query `Where(e => e.EventDate.StartsWith(eventDate) && e.PatientCode
      == patientCode).ToList()`, in store order. */
  function Prefilter(events: seq<Event>, eventDate: string, patientCode: string): seq<Event> {
    if events == [] then []
    else
      var rest := Prefilter(events[1..], eventDate, patientCode);
      if StartsWith(events[0].eventDate, eventDate) && events[0].patientCode == patientCode
      then [events[0]] + rest
      else rest
  }

  /** The query keeps exactly the rows of the patient whose event date starts
      with the one asked about. */
  lemma {:induction false} PrefilterMembers(events: seq<Event>, eventDate: string, patientCode: string)
    ensures forall e :: e in Prefilter(events, eventDate, patientCode) <==>
      e in events && StartsWith(e.eventDate, eventDate) && e.patientCode == patientCode
    decreases |events|
  {
    if events != [] {
      PrefilterMembers(events[1..], eventDate, patientCode);
      assert forall e :: e in events <==> e == events[0] || e in events[1..];
    }
  }

  /** `FirstOrDefault(e => e.EventDate == date)` on the query's list. */
  function FirstWithDate(list: seq<Event>, date: string): Option<Event> {
    if list == [] then None
    else if list[0].eventDate == date then Some(list[0])
    else FirstWithDate(list[1..], date)
  }

  /** The row found is on the list and has the date; nothing is found
      exactly when no row on the list has it. */
  lemma {:induction false} FirstWithDateFinds(list: seq<Event>, date: string)
    ensures var r := FirstWithDate(list, date);
      (r.Some? ==> r.value in list && r.value.eventDate == date) &&
      (r.None? <==> forall e :: e in list ==> e.eventDate != date)
    decreases |list|
  {
    if list != [] && list[0].eventDate != date {
      FirstWithDateFinds(list[1..], date);
      assert forall e :: e in list <==> e == list[0] || e in list[1..];
    }
  }

  /** The `StartsWith` prefilter cannot change which offset is chosen: every
      candidate starts with the event date, so the rows it drops could never
      have matched a candidate exactly. */
  lemma PrefilterKeepsCandidates(events: seq<Event>, eventDate: string, patientCode: string, i: nat)
    requires i < Slots
    ensures FirstWithDate(Prefilter(events, eventDate, patientCode), Candidate(eventDate, i)).None?
        <==> MemoryEngine.Entry(Candidate(eventDate, i), patientCode) !in Keys(events)
  {
    var c := Candidate(eventDate, i);
    var matching := Prefilter(events, eventDate, patientCode);
    PrefilterMembers(events, eventDate, patientCode);
    FirstWithDateFinds(matching, c);
    if MemoryEngine.Entry(c, patientCode) in Keys(events) {
      var e :| e in events && MemoryEngine.Entry(e.eventDate, e.patientCode) == MemoryEngine.Entry(c, patientCode);
      assert e in matching;
    }
    var found := FirstWithDate(matching, c);
    if found.Some? {
      assert found.value in events;
      assert MemoryEngine.Entry(found.value.eventDate, found.value.patientCode) in Keys(events);
    }
  }

  /** The loop over the query's list stops where `Choose` stops on the
      table's pairs: at offset `i` with its candidate when that is the first
      offset the list lacks, or after all 60 with the exhaustion error. */
  lemma SearchAgrees(events: seq<Event>, eventDate: string, patientCode: string, i: nat, r: Outcome)
    requires i <= Slots
    requires forall j :: 0 <= j < i ==> FirstWithDate(Prefilter(events, eventDate, patientCode), Candidate(eventDate, j)).Some?
    requires if i < Slots
      then FirstWithDate(Prefilter(events, eventDate, patientCode), Candidate(eventDate, i)).None? && r == Unique(Candidate(eventDate, i))
      else r == Exhausted
    ensures r == MemoryEngine.Choose(Keys(events), eventDate, patientCode)
  {
    var keys := Keys(events);
    forall j | 0 <= j < i ensures MemoryEngine.Entry(Candidate(eventDate, j), patientCode) in keys {
      PrefilterKeepsCandidates(events, eventDate, patientCode, j);
    }
    MemoryEngine.ChooseIsFirstFree(keys, eventDate, patientCode);
    if i < Slots {
      PrefilterKeepsCandidates(events, eventDate, patientCode, i);
      assert MemoryEngine.IsFirstFree(keys, eventDate, patientCode, i);
    }
  }

  /** What a call inserts: the new row on success, nothing on exhaustion. */
  function Recorded(r: Outcome, patientCode: string, now: nat): seq<Event> {
    if r.Unique? then [Event(r.eventDate, patientCode, now)] else []
  }

  /** Index of the row that `OrderByDescending(e => e.Created)` puts last:
      the smallest `Created`. The query runs as an SQL `ORDER BY`, which
      leaves rows with equal `Created` in no particular order; the model
      breaks such ties by taking the latest in store order. */
  function OldestIndex(events: seq<Event>): (k: nat)
    requires |events| > 0
    ensures k < |events|
    ensures forall j :: 0 <= j < |events| ==> events[k].created <= events[j].created
    ensures forall j :: k < j < |events| ==> events[k].created < events[j].created
  {
    if |events| == 1 then 0
    else
      var k := OldestIndex(events[1..]) + 1;
      assert forall j :: 1 <= j < |events| ==> events[j] == events[1..][j - 1];
      if events[0].created < events[k].created then 0 else k
  }

  function Without(events: seq<Event>, k: nat): seq<Event>
    requires k < |events|
  {
    events[..k] + events[k + 1..]
  }

  /** The table after `RemoveRange(OrderByDescending(e => e.Created)
      .Skip(history))`: the row the sort puts last is dropped until only
      `history` rows are left. */
  function Newest(events: seq<Event>, history: nat): seq<Event>
    decreases |events|
  {
    if |events| <= history then events
    else Newest(Without(events, OldestIndex(events)), history)
  }

  /** `Cleanup`: nothing when `history < 1`, otherwise the newest rows. */
  function Cleaned(history: int, events: seq<Event>): seq<Event> {
    if history < 1 then events else Newest(events, history)
  }

  /** One call of `Uniquify` on the table: its answer, chosen exactly as the
      in-memory variant chooses from the same pairs, and the table after the
      insert and the cleanup that `eventCount > history * 1.1` triggers. */
  function Step(history: int, events: seq<Event>, eventDate: string, patientCode: string, now: nat): (Outcome, seq<Event>) {
    var r := MemoryEngine.Choose(Keys(events), eventDate, patientCode);
    var stored := events + Recorded(r, patientCode, now);
    (r, if 10 * |stored| > 11 * history then Cleaned(history, stored) else stored)
  }

  class DbUniqueifier {
    var history: int
    var events: seq<Event>
    var eventCount: int

    /** The cached count is the number of rows. */
    ghost predicate Valid()
      reads this
    {
      eventCount == |events|
    }

    /** The constructor reads the count from the table it is given. */
    constructor (historyLength: int, stored: seq<Event>)
      ensures Valid() && history == historyLength && events == stored
      ensures eventCount == |stored|
    {
      history := historyLength;
      events := stored;
      eventCount := |stored|;
    }

    method Uniquify(eventDate: string, patientCode: string, now: nat) returns (r: Outcome)
      requires Valid()
      modifies this
      ensures Valid() && history == old(history)
      ensures (r, events) == old(Step(history, events, eventDate, patientCode, now))
      ensures r.Unique? && 10 * (old(eventCount) + 1) <= 11 * history ==> eventCount == old(eventCount) + 1
      ensures r.Exhausted? && 10 * old(eventCount) <= 11 * history ==> events == old(events)
    {
      ghost var events0 := events;
      var matching := Prefilter(events, eventDate, patientCode);
      r := Exhausted;
      var i := 0;
      while i < Slots
        invariant 0 <= i <= Slots
        invariant events == events0 && Valid() && history == old(history) && r == Exhausted
        invariant forall j :: 0 <= j < i ==> FirstWithDate(matching, Candidate(eventDate, j)).Some?
      {
        var updatedEventDate := Candidate(eventDate, i);
        if FirstWithDate(matching, updatedEventDate).None? {
          r := Unique(updatedEventDate);
          events := events + [Event(updatedEventDate, patientCode, now)];
          eventCount := eventCount + 1;
          break;
        }
        i := i + 1;
      }
      SearchAgrees(events0, eventDate, patientCode, i, r);
      assert events == events0 + Recorded(r, patientCode, now);
      if 10 * eventCount > 11 * history {
        Cleanup();
      }
    }

    /** Keeps the `history` rows with the latest `Created`; with `history < 1`
        it leaves everything, the count included, as it was. */
    method Cleanup()
      requires Valid()
      modifies this
      ensures Valid() && history == old(history)
      ensures events == Cleaned(history, old(events))
      ensures history < 1 ==> events == old(events) && eventCount == old(eventCount)
    {
      if history < 1 {
        return;
      }
      events := Newest(events, history);
      eventCount := |events|;
    }
  }

  // ---------------------------------------------------------------------
  // The retention rule

  function Min(a: nat, b: nat): nat {
    if a < b then a else b
  }

  lemma WithoutMultiset(events: seq<Event>, k: nat)
    requires k < |events|
    ensures multiset(Without(events, k)) + multiset{events[k]} == multiset(events)
  {
    assert events == events[..k] + [events[k]] + events[k + 1..];
  }

  lemma {:induction false} NewestSize(events: seq<Event>, history: nat)
    ensures |Newest(events, history)| == Min(|events|, history)
    decreases |events|
  {
    if |events| > history {
      NewestSize(Without(events, OldestIndex(events)), history);
    }
  }

  lemma {:induction false} NewestSubset(events: seq<Event>, history: nat)
    ensures multiset(Newest(events, history)) <= multiset(events)
    decreases |events|
  {
    if |events| > history {
      var k := OldestIndex(events);
      NewestSubset(Without(events, k), history);
      WithoutMultiset(events, k);
    }
  }

  /** Every row the cleanup drops was created no later than every row it
      keeps. */
  lemma {:induction false} NewestOrder(events: seq<Event>, history: nat)
    ensures forall kept: Event, dropped: Event ::
      kept in multiset(Newest(events, history)) && dropped in multiset(events) - multiset(Newest(events, history))
      ==> dropped.created <= kept.created
    decreases |events|
  {
    if |events| > history {
      var k := OldestIndex(events);
      var rest := Without(events, k);
      var r := Newest(rest, history);
      assert Newest(events, history) == r;
      NewestOrder(rest, history);
      NewestSubset(rest, history);
      WithoutMultiset(events, k);
      forall kept: Event, dropped: Event | kept in multiset(r) && dropped in multiset(events) - multiset(r)
        ensures dropped.created <= kept.created
      {
        if dropped == events[k] {
          assert kept in multiset(events);
          assert kept in events;
          var j :| 0 <= j < |events| && events[j] == kept;
        } else {
          assert multiset(events)[dropped] == multiset(rest)[dropped];
          assert dropped in multiset(rest) - multiset(r);
        }
      }
    }
  }

  /** The cleanup keeps `history` rows (all of them if there are fewer), takes
      nothing that was not there, and every row it drops was created no later
      than every row it keeps. */
  lemma NewestKeepsLatest(events: seq<Event>, history: nat)
    ensures |Newest(events, history)| == Min(|events|, history)
    ensures multiset(Newest(events, history)) <= multiset(events)
    ensures forall kept: Event, dropped: Event ::
      kept in multiset(Newest(events, history)) && dropped in multiset(events) - multiset(Newest(events, history))
      ==> dropped.created <= kept.created
  {
    NewestSize(events, history);
    NewestSubset(events, history);
    NewestOrder(events, history);
  }

  /** With `history >= 1`, the table never stays above 110% of it after a
      call. */
  lemma StepBounded(history: int, events: seq<Event>, eventDate: string, patientCode: string, now: nat)
    requires history >= 1
    ensures 10 * |Step(history, events, eventDate, patientCode, now).1| <= 11 * history
  {
    var r := MemoryEngine.Choose(Keys(events), eventDate, patientCode);
    var stored := events + Recorded(r, patientCode, now);
    if 10 * |stored| > 11 * history {
      NewestSize(stored, history);
    }
  }

  /** The durable and the in-memory variants hand out the same answer when
      they remember the same (event date, patient code) pairs. */
  lemma VariantsAgree(history: int, events: seq<Event>, queue: seq<MemoryEngine.Entry>, eventDate: string, patientCode: string, now: nat)
    requires MemoryEngine.Elements(queue) == Keys(events)
    ensures Step(history, events, eventDate, patientCode, now).0 == MemoryEngine.Step(history, queue, eventDate, patientCode).0
  {
  }
}
