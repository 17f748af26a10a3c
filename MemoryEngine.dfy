/** The in-memory uniqueifier: a hash set of claimed (event date, patient
    code) entries, kept in step with a FIFO queue that remembers the order in
    which they were claimed, so that the oldest can be forgotten once the
    history grows past 110% of its configured length. */
module MemoryEngine {
  import opened Offsets

  /** The private `Entry` class. Its `Equals` compares both strings, so here
      it is a value. */
  datatype Entry = Entry(eventDate: string, patientCode: string)

  function Elements(q: seq<Entry>): set<Entry> {
    set e | e in q
  }

  predicate Distinct(q: seq<Entry>) {
    forall i, j :: 0 <= i < j < |q| ==> q[i] != q[j]
  }

  /** Offset `i` is free for the key and every offset from `from` up to it
      is claimed. */
  ghost predicate IsFirstFreeFrom(entries: set<Entry>, eventDate: string, patientCode: string, from: nat, i: nat) {
    && from <= i < Slots
    && Entry(Candidate(eventDate, i), patientCode) !in entries
    && forall j :: from <= j < i ==> Entry(Candidate(eventDate, j), patientCode) in entries
  }

  ghost predicate IsFirstFree(entries: set<Entry>, eventDate: string, patientCode: string, i: nat) {
    IsFirstFreeFrom(entries, eventDate, patientCode, 0, i)
  }

  /** The offset loop from offset `from` on: the first offset whose entry is
      not in the set, or None. */
  function FreeOffset(entries: set<Entry>, eventDate: string, patientCode: string, from: nat): (r: Option<nat>)
    decreases Slots - from
    ensures r.Some? ==> from <= r.value < Slots
  {
    if from >= Slots then None
    else if Entry(Candidate(eventDate, from), patientCode) !in entries then Some(from)
    else FreeOffset(entries, eventDate, patientCode, from + 1)
  }

  /** The answer of the whole loop: the candidate of the first free offset, or
      the exhaustion error. */
  function Choose(entries: set<Entry>, eventDate: string, patientCode: string): Outcome {
    match FreeOffset(entries, eventDate, patientCode, 0)
    case Some(i) => Unique(Candidate(eventDate, i))
    case None => Exhausted
  }

  lemma {:induction false} FreeOffsetIsFirst(entries: set<Entry>, eventDate: string, patientCode: string, from: nat)
    ensures var r := FreeOffset(entries, eventDate, patientCode, from);
      && (r.Some? ==> IsFirstFreeFrom(entries, eventDate, patientCode, from, r.value))
      && (r.None? <==> forall i :: from <= i < Slots ==> Entry(Candidate(eventDate, i), patientCode) in entries)
    decreases Slots - from
  {
    if from < Slots && Entry(Candidate(eventDate, from), patientCode) in entries {
      FreeOffsetIsFirst(entries, eventDate, patientCode, from + 1);
    }
  }

  /** `Choose` picks the candidate of the smallest free offset, and fails
      exactly when all 60 candidates are claimed. */
  lemma ChooseIsFirstFree(entries: set<Entry>, eventDate: string, patientCode: string)
    ensures var r := Choose(entries, eventDate, patientCode);
      r.Unique? ==> exists i :: IsFirstFree(entries, eventDate, patientCode, i) && r.eventDate == Candidate(eventDate, i)
    ensures forall i :: IsFirstFree(entries, eventDate, patientCode, i) ==>
      Choose(entries, eventDate, patientCode) == Unique(Candidate(eventDate, i))
    ensures Choose(entries, eventDate, patientCode).Exhausted? <==>
      forall i :: 0 <= i < Slots ==> Entry(Candidate(eventDate, i), patientCode) in entries
  {
    FreeOffsetIsFirst(entries, eventDate, patientCode, 0);
    var r := FreeOffset(entries, eventDate, patientCode, 0);
    forall i: nat | IsFirstFree(entries, eventDate, patientCode, i)
      ensures r == Some(i)
    {
      assert r.Some?;
      assert r.value <= i;
      assert i <= r.value;
    }
  }

  /** What a call appends to the queue: the new entry on success, nothing on
      exhaustion. */
  function Claimed(r: Outcome, patientCode: string): seq<Entry> {
    if r.Unique? then [Entry(r.eventDate, patientCode)] else []
  }

  /** The `finally` guard: `history > 1 && entryQueue.Count > history * 1.1`,
      with the floating-point product written as integers. */
  predicate Overfull(history: int, count: nat) {
    history > 1 && 10 * count > 11 * history
  }

  /** The eviction sweep: when overfull, dequeue until `history` entries are
      left. */
  function Sweep(history: int, q: seq<Entry>): seq<Entry> {
    if Overfull(history, |q|) then q[|q| - history..] else q
  }

  /** One call of `Uniquify` on the queue: its answer and the queue after the
      claim and the sweep. The set is always the queue's elements. */
  function Step(history: int, q: seq<Entry>, eventDate: string, patientCode: string): (Outcome, seq<Entry>) {
    var r := Choose(Elements(q), eventDate, patientCode);
    (r, Sweep(history, q + Claimed(r, patientCode)))
  }

  class MemoryUniqueifier {
    var history: int
    var entrySet: set<Entry>
    var entryQueue: seq<Entry>

    /** The set holds exactly the queue's elements and the queue has no
        duplicates: `Add`/`Enqueue` and `Dequeue`/`Remove` go in pairs. */
    ghost predicate Valid()
      reads this
    {
      entrySet == Elements(entryQueue) && Distinct(entryQueue)
    }

    constructor (historyLength: int)
      ensures Valid() && history == historyLength
      ensures entrySet == {} && entryQueue == []
    {
      history := historyLength;
      entrySet := {};
      entryQueue := [];
    }

    method Uniquify(eventDate: string, patientCode: string) returns (r: Outcome)
      requires Valid()
      modifies this
      ensures Valid() && history == old(history)
      ensures (r, entryQueue) == old(Step(history, entryQueue, eventDate, patientCode))
    {
      ghost var queue0, set0 := entryQueue, entrySet;
      ChooseIsFirstFree(set0, eventDate, patientCode);
      r := Exhausted;
      var i := 0;
      while i < Slots
        invariant 0 <= i <= Slots
        invariant entrySet == set0 && entryQueue == queue0
        invariant forall j :: 0 <= j < i ==> Entry(Candidate(eventDate, j), patientCode) in set0
      {
        var entry := Entry(Candidate(eventDate, i), patientCode);
        if entry !in entrySet {
          assert IsFirstFree(set0, eventDate, patientCode, i);
          r := Unique(entry.eventDate);
          entrySet := entrySet + {entry};
          entryQueue := entryQueue + [entry];
          break;
        }
        i := i + 1;
      }
      assert r == Choose(set0, eventDate, patientCode);
      assert entryQueue == queue0 + Claimed(r, patientCode);
      DistinctAppendClaimed(queue0, r, patientCode);
      EvictOldest();
    }

    /** The sweep of the `finally` block, run after both outcomes. */
    method EvictOldest()
      requires entrySet == Elements(entryQueue) && Distinct(entryQueue)
      modifies this
      ensures Valid() && history == old(history)
      ensures entryQueue == Sweep(history, old(entryQueue))
    {
      if history > 1 && 10 * |entryQueue| > 11 * history {
        while |entryQueue| > history
          invariant Valid() && history == old(history)
          invariant history <= |entryQueue| <= |old(entryQueue)|
          invariant entryQueue == old(entryQueue)[|old(entryQueue)| - |entryQueue|..]
          decreases |entryQueue|
        {
          var oldest := entryQueue[0];
          assert oldest !in entryQueue[1..];
          entryQueue := entryQueue[1..];
          entrySet := entrySet - {oldest};
        }
      }
    }
  }

  // ---------------------------------------------------------------------
  // Properties of one call

  lemma DistinctSuffix(q: seq<Entry>, k: nat)
    requires Distinct(q) && k <= |q|
    ensures Distinct(q[k..])
  {
    forall i, j | 0 <= i < j < |q| - k ensures q[k..][i] != q[k..][j] {
      assert q[k..][i] == q[k + i] && q[k..][j] == q[k + j];
    }
  }

  lemma DistinctAppend(q: seq<Entry>, e: Entry)
    requires Distinct(q) && e !in Elements(q)
    ensures Distinct(q + [e])
  {
    var g := q + [e];
    forall i, j | 0 <= i < j < |g| ensures g[i] != g[j] {
      if j == |q| {
        assert g[i] == q[i] && q[i] in Elements(q);
      } else {
        assert g[i] == q[i] && g[j] == q[j];
      }
    }
  }

  /** The entry `Choose` hands out is one the set does not hold. */
  lemma ChooseClaimsFree(entries: set<Entry>, eventDate: string, patientCode: string)
    ensures var r := Choose(entries, eventDate, patientCode);
      r.Unique? ==> Entry(r.eventDate, patientCode) !in entries
  {
    FreeOffsetIsFirst(entries, eventDate, patientCode, 0);
  }

  /** Claiming keeps the queue free of duplicates: the claimed entry was not
      in the set. */
  lemma DistinctAppendClaimed(q: seq<Entry>, r: Outcome, patientCode: string)
    requires Distinct(q)
    requires r.Unique? ==> Entry(r.eventDate, patientCode) !in Elements(q)
    ensures Distinct(q + Claimed(r, patientCode))
    ensures Elements(q + Claimed(r, patientCode)) == Elements(q) + Elements(Claimed(r, patientCode))
  {
    if r.Unique? {
      DistinctAppend(q, Entry(r.eventDate, patientCode));
    } else {
      assert q + Claimed(r, patientCode) == q;
    }
  }

  /** A call never brings a duplicate into the queue. */
  lemma StepKeepsDistinct(history: int, q: seq<Entry>, eventDate: string, patientCode: string)
    requires Distinct(q)
    ensures Distinct(Step(history, q, eventDate, patientCode).1)
  {
    var r := Choose(Elements(q), eventDate, patientCode);
    ChooseClaimsFree(Elements(q), eventDate, patientCode);
    DistinctAppendClaimed(q, r, patientCode);
    var grown := q + Claimed(r, patientCode);
    if Overfull(history, |grown|) {
      DistinctSuffix(grown, |grown| - history);
    }
  }

  /** On success the claimed entry is the newest in the queue and survives the
      sweep, because the sweep only takes from the front and leaves at least
      two entries. */
  lemma StepClaimIsNewest(history: int, q: seq<Entry>, eventDate: string, patientCode: string)
    requires Step(history, q, eventDate, patientCode).0.Unique?
    ensures var st := Step(history, q, eventDate, patientCode); var r, q' := st.0, st.1;
      |q'| > 0 && q'[|q'| - 1] == Entry(r.eventDate, patientCode) && Entry(r.eventDate, patientCode) in Elements(q')
  {
  }

  /** Exhaustion claims nothing: the queue afterwards is a suffix of the old
      one (unchanged unless it was already overfull). */
  lemma StepExhaustedClaimsNothing(history: int, q: seq<Entry>, eventDate: string, patientCode: string)
    requires Step(history, q, eventDate, patientCode).0.Exhausted?
    ensures var q' := Step(history, q, eventDate, patientCode).1;
      |q'| <= |q| && q' == q[|q| - |q'|..] && Elements(q') <= Elements(q)
    ensures !Overfull(history, |q|) ==> Step(history, q, eventDate, patientCode).1 == q
  {
    assert q + [] == q;
  }

  /** A sweep that fires leaves exactly `history` entries, and what it removed
      is the front of the queue: the oldest entries in claim order. */
  lemma SweepEvictsOldest(history: int, q: seq<Entry>)
    ensures Overfull(history, |q|) ==>
      |Sweep(history, q)| == history && q == q[..|q| - history] + Sweep(history, q)
    ensures !Overfull(history, |q|) ==> Sweep(history, q) == q
  {
    if Overfull(history, |q|) {
      assert q == q[..|q| - history] + q[|q| - history..];
    }
  }

  /** With a positive bounded history, the queue is never left above 110% of
      it after a call, whatever it held before. */
  lemma StepBounded(history: int, q: seq<Entry>, eventDate: string, patientCode: string)
    requires history > 1
    ensures 10 * |Step(history, q, eventDate, patientCode).1| <= 11 * history
  {
  }

  /** With `history <= 1` nothing is ever evicted: the set only grows. */
  lemma SmallHistoryNeverEvicts(history: int, q: seq<Entry>, eventDate: string, patientCode: string)
    requires history <= 1
    ensures var st := Step(history, q, eventDate, patientCode); var r, q' := st.0, st.1;
      q' == q + Claimed(r, patientCode) && Elements(q) <= Elements(q')
  {
  }

  // ---------------------------------------------------------------------
  // Repeated calls with one key

  /** `n` successive calls with the same key: their answers in call order and
      the queue afterwards. */
  function Repeat(history: int, q: seq<Entry>, eventDate: string, patientCode: string, n: nat): (seq<Outcome>, seq<Entry>)
    decreases n
  {
    if n == 0 then ([], q)
    else
      var now := Step(history, q, eventDate, patientCode);
      var later := Repeat(history, now.1, eventDate, patientCode, n - 1);
      ([now.0] + later.0, later.1)
  }

  /** Exactly the offsets below `m` are claimed for the key. */
  ghost predicate ClaimedBelow(entries: set<Entry>, eventDate: string, patientCode: string, m: nat) {
    forall j :: 0 <= j < Slots ==> (Entry(Candidate(eventDate, j), patientCode) in entries <==> j < m)
  }

  /** When even one more entry would not make the queue overfull (so the
      sweep cannot fire), once offsets 0..m-1 are claimed for a key, the next
      call claims offset m, or fails when m is 60. */
  lemma StepAfterClaimedBelow(history: int, q: seq<Entry>, eventDate: string, patientCode: string, m: nat)
    requires !Overfull(history, |q| + 1) && m <= Slots
    requires ClaimedBelow(Elements(q), eventDate, patientCode, m)
    ensures m < Slots ==>
      && Step(history, q, eventDate, patientCode) == (Unique(Candidate(eventDate, m)), q + [Entry(Candidate(eventDate, m), patientCode)])
      && ClaimedBelow(Elements(q + [Entry(Candidate(eventDate, m), patientCode)]), eventDate, patientCode, m + 1)
    ensures m == Slots ==> Step(history, q, eventDate, patientCode) == (Exhausted, q)
  {
    var entries := Elements(q);
    ChooseIsFirstFree(entries, eventDate, patientCode);
    if m < Slots {
      assert IsFirstFree(entries, eventDate, patientCode, m);
      var q1 := q + [Entry(Candidate(eventDate, m), patientCode)];
      forall j | 0 <= j < Slots
        ensures Entry(Candidate(eventDate, j), patientCode) in Elements(q1) <==> j < m + 1
      {
        CandidateInjective(eventDate, j, eventDate, m);
      }
    } else {
      assert q + [] == q;
    }
  }

  /** The answer the call claiming offset `i` gets: its candidate, or
      exhaustion past 59. */
  function Expected(eventDate: string, i: nat): Outcome {
    if i < Slots then Unique(Candidate(eventDate, i)) else Exhausted
  }

  /** Answer `k` is the one for offset `m + k`. */
  predicate AnswersFrom(rs: seq<Outcome>, eventDate: string, m: nat) {
    forall k :: 0 <= k < |rs| ==> rs[k] == Expected(eventDate, m + k)
  }

  /** When `n` more entries would not make the queue overfull, once offsets
      0..m-1 are claimed for a key, the next `n` calls hand out m, m+1, ...
      and then fail. */
  lemma {:induction false} RepeatFrom(history: int, q: seq<Entry>, eventDate: string, patientCode: string, m: nat, n: nat)
    requires !Overfull(history, |q| + n) && m <= Slots
    requires ClaimedBelow(Elements(q), eventDate, patientCode, m)
    ensures |Repeat(history, q, eventDate, patientCode, n).0| == n
    ensures AnswersFrom(Repeat(history, q, eventDate, patientCode, n).0, eventDate, m)
    decreases n
  {
    if n > 0 {
      StepAfterClaimedBelow(history, q, eventDate, patientCode, m);
      var now := Step(history, q, eventDate, patientCode);
      var m1 := if m < Slots then m + 1 else m;
      assert |now.1| <= |q| + 1;
      RepeatFrom(history, now.1, eventDate, patientCode, m1, n - 1);
      var later := Repeat(history, now.1, eventDate, patientCode, n - 1).0;
      assert Repeat(history, q, eventDate, patientCode, n).0 == [now.0] + later;
      assert |[now.0] + later| == n;
      ExpectedCons(eventDate, m, m1, now.0, later);
    }
  }

  lemma ExpectedCons(eventDate: string, m: nat, m1: nat, first: Outcome, later: seq<Outcome>)
    requires m1 == if m < Slots then m + 1 else m
    requires first == Expected(eventDate, m)
    requires AnswersFrom(later, eventDate, m1)
    ensures AnswersFrom([first] + later, eventDate, m)
  {
    forall k | 0 <= k < |later| + 1 ensures ([first] + later)[k] == Expected(eventDate, m + k) {
      if k > 0 {
        assert ([first] + later)[k] == later[k - 1];
        if m >= Slots {
          assert Expected(eventDate, m1 + (k - 1)) == Exhausted == Expected(eventDate, m + k);
        }
      }
    }
  }

  /** Sixty pairwise distinct answers, then a failure. */
  predicate SixtyThenFailure(rs: seq<Outcome>) {
    && |rs| == Slots + 1
    && (forall k :: 0 <= k < Slots ==> rs[k].Unique?)
    && (forall a, b :: 0 <= a < b < Slots ==> rs[a] != rs[b])
    && rs[Slots] == Exhausted
  }

  /** As long as no sweep fires during the 61 calls (always with `history <=
      1`; otherwise when 61 more entries would not make the queue overfull),
      a key with no claimed offsets gets 60 pairwise distinct answers, and the
      61st call fails. */
  lemma SixtyThenExhausted(history: int, q: seq<Entry>, eventDate: string, patientCode: string)
    requires !Overfull(history, |q| + Slots + 1)
    requires forall i :: 0 <= i < Slots ==> Entry(Candidate(eventDate, i), patientCode) !in Elements(q)
    ensures SixtyThenFailure(Repeat(history, q, eventDate, patientCode, Slots + 1).0)
  {
    NothingClaimed(Elements(q), eventDate, patientCode);
    RepeatFrom(history, q, eventDate, patientCode, 0, Slots + 1);
    ExpectedAnswers(eventDate, Repeat(history, q, eventDate, patientCode, Slots + 1).0);
  }

  /** A fresh uniqueifier, with the default history of 1000 or any history
      from 56 on (or with eviction switched off), gives a key 60 distinct
      answers before it fails. */
  lemma SixtyFromFresh(history: int, eventDate: string, patientCode: string)
    requires history <= 1 || history >= 56
    ensures SixtyThenFailure(Repeat(history, [], eventDate, patientCode, Slots + 1).0)
  {
    SixtyThenExhausted(history, [], eventDate, patientCode);
  }

  lemma NothingClaimed(entries: set<Entry>, eventDate: string, patientCode: string)
    requires forall i :: 0 <= i < Slots ==> Entry(Candidate(eventDate, i), patientCode) !in entries
    ensures ClaimedBelow(entries, eventDate, patientCode, 0)
  {
  }

  lemma ExpectedAnswers(eventDate: string, rs: seq<Outcome>)
    requires |rs| == Slots + 1
    requires AnswersFrom(rs, eventDate, 0)
    ensures SixtyThenFailure(rs)
  {
    forall a, b | 0 <= a < b < Slots ensures rs[a] != rs[b] {
      CandidateInjective(eventDate, a, eventDate, b);
    }
  }
}
