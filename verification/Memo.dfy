/** The client-side decision memo (src/memo.rs): a TTL cache bounded by a FIFO queue,
    against the plain log of what was put into it and when it was cleared. */
module Memo {
  import opened Outcomes

  datatype Key = Key(
    subjectId: Option<string>, resourceId: string, action: string, scope: Option<string>, actingTenant: Option<string>)

  datatype Decision = Decision(allowed: bool, reason: Option<string>, reasonCode: Option<string>)

  datatype Entry = Entry(decision: Decision, storedAt: nat)

  const MAX_TTL: nat := 5_000
  const MAX_ENTRIES: nat := 1024

  // --- The two structures and what each method does to them ---

  datatype Tables = Tables(entries: map<Key, Entry>, order: seq<Key>)

  const EMPTY: Tables := Tables(map[], [])

  function Evict(t: Tables): Tables
    decreases |t.order|
  {
    if |t.order| > MAX_ENTRIES then Evict(Tables(t.entries - {t.order[0]}, t.order[1..])) else t
  }

  function PutStep(t: Tables, key: Key, decision: Decision, now: nat): Tables {
    Evict(Tables(t.entries[key := Entry(decision, now)], if key in t.entries then t.order else t.order + [key]))
  }

  /** `Instant::duration_since` is zero when the clock reads earlier. */
  function Age(storedAt: nat, now: nat): nat {
    if now >= storedAt then now - storedAt else 0
  }

  function GetStep(ttl: nat, entry: Option<Entry>, now: nat): Option<Decision> {
    if ttl > 0 && entry.Some? && Age(entry.value.storedAt, now) < ttl then Some(entry.value.decision) else None
  }

  function Lookup(t: Tables, key: Key): Option<Entry> {
    if key in t.entries then Some(t.entries[key]) else None
  }

  class DecisionMemo {
    const ttl: nat
    var entries: map<Key, Entry>
    var order: seq<Key>

    function State(): Tables
      reads this
    {
      Tables(entries, order)
    }

    constructor (ttl: nat)
      ensures this.ttl <= ttl && this.ttl <= 5_000 && this.ttl in {ttl, 5_000} && State() == EMPTY
    {
      this.ttl := if ttl < MAX_TTL then ttl else MAX_TTL;
      entries, order := map[], [];
    }

    method GetAt(key: Key, now: nat) returns (r: Option<Decision>)
      ensures r == GetStep(ttl, Lookup(State(), key), now)
      ensures r.Some? <==> ttl > 0 && key in entries && now < entries[key].storedAt + ttl
      ensures r.Some? ==> r.value == entries[key].decision
    {
      if ttl == 0 || key !in entries {
        return None;
      }
      var entry := entries[key];
      if Age(entry.storedAt, now) >= ttl {
        return None;
      }
      return Some(entry.decision);
    }

    method PutAt(key: Key, decision: Decision, now: nat)
      modifies this
      ensures State() == if ttl == 0 then old(State()) else PutStep(old(State()), key, decision, now)
    {
      if ttl == 0 {
        return;
      }
      var absent := key !in entries;
      entries := entries[key := Entry(decision, now)];
      if absent {
        order := order + [key];
      }
      while |order| > MAX_ENTRIES
        invariant Evict(State()) == PutStep(old(State()), key, decision, now)
        decreases |order|
      {
        var oldest := order[0];
        order := order[1..];
        entries := entries - {oldest};
      }
    }

    /** The first lock section of `clear`. */
    method ClearEntries()
      modifies this`entries
      ensures entries == map[]
    {
      entries := map[];
    }

    /** The second lock section of `clear`. */
    method ClearOrder()
      modifies this`order
      ensures order == []
    {
      order := [];
    }

    method Clear()
      modifies this
      ensures State() == EMPTY
    {
      ClearEntries();
      ClearOrder();
    }
  }

  // --- Each method atomic: the log, and the FIFO window over it ---

  datatype Op = Put(key: Key, decision: Decision, at: nat) | Clear

  /** The latest put for a key since the last clear. */
  function LatestPut(log: seq<Op>, key: Key): Option<Entry> {
    if log == [] then None
    else
      var last := log[|log| - 1];
      if last.Clear? then None
      else if last.key == key then Some(Entry(last.decision, last.at))
      else LatestPut(log[..|log| - 1], key)
  }

  function Window(arrivals: seq<Key>): seq<Key> {
    if |arrivals| <= MAX_ENTRIES then arrivals else arrivals[|arrivals| - MAX_ENTRIES..]
  }

  /** The insertions since the last clear of keys absent at the time, in order: a key is
      absent when it is not among the last 1024 arrivals. */
  function Arrivals(log: seq<Op>): seq<Key> {
    if log == [] then []
    else
      var before := Arrivals(log[..|log| - 1]);
      match log[|log| - 1]
      case Clear => []
      case Put(key, _, _) => if key in Window(before) then before else before + [key]
  }

  function KeysSinceClear(log: seq<Op>): set<Key> {
    if log == [] || log[|log| - 1].Clear? then {} else KeysSinceClear(log[..|log| - 1]) + {log[|log| - 1].key}
  }

  /** The tables of an enabled memo after a run of atomic operations. */
  function RunOps(log: seq<Op>): Tables {
    if log == [] then EMPTY
    else
      match log[|log| - 1]
      case Clear => EMPTY
      case Put(key, decision, at) => PutStep(RunOps(log[..|log| - 1]), key, decision, at)
  }

  predicate NoDuplicates(s: seq<Key>) {
    forall i, j :: 0 <= i < j < |s| ==> s[i] != s[j]
  }

  /** The coupling: the queue is the window, the map its keys with their latest puts. */
  ghost predicate Coupled(t: Tables, log: seq<Op>) {
    && t.order == Window(Arrivals(log)) && NoDuplicates(t.order)
    && (forall k :: k in t.entries <==> k in t.order)
    && forall k :: k in t.entries ==> LatestPut(log, k) == Some(t.entries[k])
  }

  /** Append, and let the oldest go when full. */
  function Enqueue(order: seq<Key>, key: Key): seq<Key> {
    (if |order| == MAX_ENTRIES then order[1..] else order) + [key]
  }

  lemma WindowSlides(before: seq<Key>, key: Key)
    ensures Window(before + [key]) == Enqueue(Window(before), key)
  {
  }

  /** The queue and the map after a put, without the loop. */
  lemma PutUnfolds(t: Tables, key: Key, decision: Decision, now: nat)
    requires |t.order| <= MAX_ENTRIES && (key in t.entries <==> key in t.order)
    ensures var entries := t.entries[key := Entry(decision, now)];
            PutStep(t, key, decision, now) ==
            if key in t.order then Tables(entries, t.order)
            else if |t.order| < MAX_ENTRIES then Tables(entries, t.order + [key])
            else Tables(entries - {t.order[0]}, t.order[1..] + [key])
  {
    if key !in t.order && |t.order| == MAX_ENTRIES {
      var queued := Tables(t.entries[key := Entry(decision, now)], t.order + [key]);
      assert queued.order[0] == t.order[0] && queued.order[1..] == t.order[1..] + [key];
      var evicted := Tables(queued.entries - {t.order[0]}, t.order[1..] + [key]);
      assert Evict(queued) == Evict(evicted) == evicted;
    }
  }

  lemma EnqueueKeepsDistinct(order: seq<Key>, key: Key)
    requires NoDuplicates(order) && key !in order
    ensures NoDuplicates(Enqueue(order, key))
    ensures forall k :: k in Enqueue(order, key) <==>
              k == key || (k in order && !(|order| == MAX_ENTRIES && k == order[0]))
  {
    if |order| == MAX_ENTRIES {
      assert order == [order[0]] + order[1..];
    }
  }

  lemma LatestAfterPut(log: seq<Op>, op: Op, key: Key)
    requires op.Put?
    ensures LatestPut(log + [op], key) == if op.key == key then Some(Entry(op.decision, op.at)) else LatestPut(log, key)
    ensures Arrivals(log + [op]) == if op.key in Window(Arrivals(log)) then Arrivals(log) else Arrivals(log) + [op.key]
  {
  }

  lemma EntriesStayLatest(t: Tables, log: seq<Op>, op: Op, entries: map<Key, Entry>)
    requires op.Put? && (forall k :: k in t.entries ==> LatestPut(log, k) == Some(t.entries[k]))
    requires forall k :: k in entries ==>
               if k == op.key then entries[k] == Entry(op.decision, op.at)
               else k in t.entries && entries[k] == t.entries[k]
    ensures forall k :: k in entries ==> LatestPut(log + [op], k) == Some(entries[k])
  {
    forall k | k in entries
      ensures LatestPut(log + [op], k) == Some(entries[k])
    {
      LatestAfterPut(log, op, k);
    }
  }

  /** A live key put again: only its entry changes. */
  lemma ReputKeepsCoupled(t: Tables, log: seq<Op>, op: Op)
    requires Coupled(t, log) && op.Put? && op.key in t.order
    ensures Coupled(Tables(t.entries[op.key := Entry(op.decision, op.at)], t.order), log + [op])
  {
    hide LatestPut, Arrivals, Window;
    LatestAfterPut(log, op, op.key);
    EntriesStayLatest(t, log, op, t.entries[op.key := Entry(op.decision, op.at)]);
  }

  /** An absent key put: it joins the queue, and the oldest leaves if the queue was full. */
  lemma ArrivalKeepsCoupled(t: Tables, log: seq<Op>, op: Op, entries: map<Key, Entry>)
    requires Coupled(t, log) && op.Put? && op.key !in t.order
    requires var added := t.entries[op.key := Entry(op.decision, op.at)];
             entries == if |t.order| == MAX_ENTRIES then added - {t.order[0]} else added
    ensures Coupled(Tables(entries, Enqueue(t.order, op.key)), log + [op])
  {
    hide LatestPut, Arrivals, Window, Enqueue, NoDuplicates;
    LatestAfterPut(log, op, op.key);
    WindowSlides(Arrivals(log), op.key);
    EnqueueKeepsDistinct(t.order, op.key);
    EntriesStayLatest(t, log, op, entries);
  }

  lemma PutKeepsCoupled(t: Tables, log: seq<Op>, op: Op)
    requires Coupled(t, log) && op.Put?
    ensures Coupled(PutStep(t, op.key, op.decision, op.at), log + [op])
  {
    assert |t.order| <= MAX_ENTRIES && (op.key in t.entries <==> op.key in t.order);
    hide PutStep, Coupled;
    PutUnfolds(t, op.key, op.decision, op.at);
    var added := t.entries[op.key := Entry(op.decision, op.at)];
    if op.key in t.order {
      ReputKeepsCoupled(t, log, op);
    } else {
      ArrivalKeepsCoupled(t, log, op, if |t.order| == MAX_ENTRIES then added - {t.order[0]} else added);
    }
  }

  /** After any operations the two structures are exactly the FIFO window of the log. */
  lemma {:induction false} RunIsCoupled(log: seq<Op>)
    ensures Coupled(RunOps(log), log)
  {
    if log != [] {
      var init := log[..|log| - 1];
      if log[|log| - 1].Put? {
        RunIsCoupled(init);
        PutKeepsCoupled(RunOps(init), init, log[|log| - 1]);
        assert log == init + [log[|log| - 1]];
      }
    }
  }

  /** Never more than 1024 decisions, no key queued twice, queue and map agree. */
  lemma Capacity(log: seq<Op>)
    ensures var t := RunOps(log);
            |t.order| <= 1024 && NoDuplicates(t.order) && t.entries.Keys == (set k | k in t.order)
            && |t.entries| == |t.order|
  {
    RunIsCoupled(log);
    DistinctCount(RunOps(log).order);
    assert RunOps(log).entries.Keys == (set k | k in RunOps(log).order);
  }

  lemma {:induction false} DistinctCount(s: seq<Key>)
    ensures |set k | k in s| <= |s|
    ensures NoDuplicates(s) ==> |set k | k in s| == |s|
  {
    if s != [] {
      var n := |s| - 1;
      DistinctCount(s[..n]);
      assert (set k | k in s) == (set k | k in s[..n]) + {s[n]};
    }
  }

  /** Putting a live key again neither grows nor reorders the queue. */
  lemma ReputKeepsOrder(log: seq<Op>, op: Op)
    requires op.Put? && op.key in RunOps(log).entries
    ensures RunOps(log + [op]).order == RunOps(log).order
  {
    assert (log + [op])[..|log|] == log;
    Capacity(log);
  }

  /** The `i`-th operation put `e` under `key`, and nothing after it cleared or put again. */
  ghost predicate IsLastPut(log: seq<Op>, key: Key, e: Entry, i: nat) {
    && i < |log| && log[i] == Put(key, e.decision, e.storedAt)
    && forall j :: i < j < |log| ==> log[j].Put? && log[j].key != key
  }

  lemma LastPutExtends(log: seq<Op>, op: Op, key: Key, e: Entry, i: nat)
    requires i < |log|
    ensures IsLastPut(log + [op], key, e, i) <==> IsLastPut(log, key, e, i) && op.Put? && op.key != key
  {
    assert forall j :: 0 <= j < |log| ==> (log + [op])[j] == log[j];
    assert (log + [op])[|log|] == op;
  }

  /** `LatestPut`, said by position. */
  lemma {:induction false} LatestPutIsLast(log: seq<Op>, key: Key, e: Entry)
    ensures LatestPut(log, key) == Some(e) <==> exists i :: IsLastPut(log, key, e, i)
  {
    if log != [] {
      var (init, op) := (log[..|log| - 1], log[|log| - 1]);
      assert log == init + [op];
      LatestPutIsLast(init, key, e);
      forall i: nat | i < |init|
        ensures IsLastPut(log, key, e, i) <==> IsLastPut(init, key, e, i) && op.Put? && op.key != key
      {
        LastPutExtends(init, op, key, e, i);
      }
      assert IsLastPut(log, key, e, |init|) <==> op == Put(key, e.decision, e.storedAt);
    }
  }

  /** A hit is the whole decision of the latest put for that exact key since the last
      clear, younger than the clamped TTL. */
  lemma HitIsTheLatestPut(ttl: nat, log: seq<Op>, key: Key, now: nat)
    requires ttl <= MAX_TTL && GetStep(ttl, Lookup(RunOps(log), key), now).Some?
    ensures exists i, e ::
              && IsLastPut(log, key, e, i)
              && GetStep(ttl, Lookup(RunOps(log), key), now) == Some(e.decision)
              && now < e.storedAt + ttl <= e.storedAt + 5_000
  {
    RunIsCoupled(log);
    var e := RunOps(log).entries[key];
    LatestPutIsLast(log, key, e);
    var i :| IsLastPut(log, key, e, i);
  }

  lemma {:induction false} SmallArrivals(log: seq<Op>)
    requires |KeysSinceClear(log)| <= MAX_ENTRIES
    ensures NoDuplicates(Arrivals(log)) && (forall k :: k in Arrivals(log) <==> k in KeysSinceClear(log))
    ensures |Arrivals(log)| == |KeysSinceClear(log)|
  {
    if log != [] && log[|log| - 1].Put? {
      var (init, key) := (log[..|log| - 1], log[|log| - 1].key);
      Subset(KeysSinceClear(init), KeysSinceClear(log));
      SmallArrivals(init);
      assert KeysSinceClear(log) == KeysSinceClear(init) + {key};
    }
  }

  lemma Subset(a: set<Key>, b: set<Key>)
    requires a <= b
    ensures |a| <= |b|
  {
    assert b == a + (b - a);
  }

  lemma {:induction false} PutKeys(log: seq<Op>, key: Key)
    ensures LatestPut(log, key).Some? <==> key in KeysSinceClear(log)
  {
    if log != [] {
      PutKeys(log[..|log| - 1], key);
    }
  }

  /** Those keys, by position. */
  lemma {:induction false} KeysArePut(log: seq<Op>, key: Key)
    ensures key in KeysSinceClear(log)
       <==> exists i :: 0 <= i < |log| && log[i].Put? && log[i].key == key && forall j :: i < j < |log| ==> log[j].Put?
  {
    if log != [] {
      var (init, op) := (log[..|log| - 1], log[|log| - 1]);
      KeysArePut(init, key);
      assert forall i :: 0 <= i < |init| ==> log[i] == init[i];
      if i :| 0 <= i < |init| && init[i].Put? && init[i].key == key && forall j :: i < j < |init| ==> init[j].Put? {
        assert op.Put? ==> log[i].Put? && log[i].key == key && forall j :: i < j < |log| ==> log[j].Put?;
      }
      assert log[|init|] == op;
    }
  }

  /** While at most 1024 distinct keys were put since the last clear, hits and misses
      are those of the unbounded log: a hit exactly when the latest put is younger than
      the TTL, and then its decision. */
  lemma ExactWhileSmall(ttl: nat, log: seq<Op>, key: Key, now: nat)
    requires |KeysSinceClear(log)| <= 1024
    ensures GetStep(ttl, Lookup(RunOps(log), key), now) == GetStep(ttl, LatestPut(log, key), now)
    ensures forall d :: GetStep(ttl, Lookup(RunOps(log), key), now) == Some(d)
                   <==> ttl > 0 && exists i, e :: IsLastPut(log, key, e, i) && e.decision == d && now < e.storedAt + ttl
  {
    RunIsCoupled(log);
    SmallArrivals(log);
    PutKeys(log, key);
    var latest := LatestPut(log, key);
    if latest.Some? {
      LatestPutIsLast(log, key, latest.value);
    }
    forall i, e | IsLastPut(log, key, e, i)
      ensures latest == Some(e)
    {
      LatestPutIsLast(log, key, e);
    }
  }

  // --- `clear` as its two separately locked halves ---

  datatype Move = MovePut(key: Key, decision: Decision, at: nat) | FirstHalf | SecondHalf

  function AfterMove(t: Tables, m: Move): Tables {
    match m
    case MovePut(key, decision, at) => PutStep(t, key, decision, at)
    case FirstHalf => t.(entries := map[])
    case SecondHalf => t.(order := [])
  }

  /** The tables after these moves, from `t`. */
  function RunOn(t: Tables, moves: seq<Move>): Tables {
    if moves == [] then t else AfterMove(RunOn(t, moves[..|moves| - 1]), moves[|moves| - 1])
  }

  function RunMoves(moves: seq<Move>): Tables {
    RunOn(EMPTY, moves)
  }

  lemma {:induction false} EvictOnlyRemoves(t: Tables)
    ensures forall k :: k in Evict(t).entries ==> k in t.entries && Evict(t).entries[k] == t.entries[k]
    ensures |Evict(t).order| <= MAX_ENTRIES
    ensures Covered(t) ==> Covered(Evict(t))
    decreases |t.order|
  {
    if |t.order| > MAX_ENTRIES {
      assert forall k :: k in t.order && k != t.order[0] ==> k in t.order[1..];
      EvictOnlyRemoves(Tables(t.entries - {t.order[0]}, t.order[1..]));
    }
  }

  /** The `i`-th move put `e` under `key`; nothing after it put the key again or was a
      first half. */
  ghost predicate IsLastMove(moves: seq<Move>, key: Key, e: Entry, i: nat) {
    && i < |moves| && moves[i] == MovePut(key, e.decision, e.storedAt)
    && forall j :: i < j < |moves| ==> moves[j] != FirstHalf && (moves[j].MovePut? ==> moves[j].key != key)
  }

  lemma LastMoveExtends(moves: seq<Move>, m: Move, key: Key, e: Entry, i: nat)
    requires IsLastMove(moves, key, e, i) && m != FirstHalf && (m.MovePut? ==> m.key != key)
    ensures IsLastMove(moves + [m], key, e, i)
  {
    assert forall j :: 0 <= j < |moves| ==> (moves + [m])[j] == moves[j];
  }

  /** A move leaves an entry as it was, or has just put it. */
  lemma MoveKeepsEntries(t: Tables, m: Move, key: Key)
    requires key in AfterMove(t, m).entries
    ensures m != FirstHalf
    ensures if m.MovePut? && m.key == key then AfterMove(t, m).entries[key] == Entry(m.decision, m.at)
            else key in t.entries && AfterMove(t, m).entries[key] == t.entries[key]
  {
    if m.MovePut? {
      var order := if m.key in t.entries then t.order else t.order + [m.key];
      EvictOnlyRemoves(Tables(t.entries[m.key := Entry(m.decision, m.at)], order));
    }
  }

  /** However the halves interleave with puts, an entry is what the last put of its key
      stored, and that put came after the last first half. */
  lemma {:induction false} EntryProvenance(moves: seq<Move>, key: Key)
    requires key in RunMoves(moves).entries
    ensures exists i :: IsLastMove(moves, key, RunMoves(moves).entries[key], i)
  {
    var n := |moves| - 1;
    var (init, last) := (moves[..n], moves[n]);
    assert moves == init + [last];
    MoveKeepsEntries(RunMoves(init), last, key);
    if last.MovePut? && last.key == key {
      assert IsLastMove(moves, key, RunMoves(moves).entries[key], n);
    } else {
      EntryProvenance(init, key);
      var i :| IsLastMove(init, key, RunMoves(init).entries[key], i);
      LastMoveExtends(init, last, key, RunMoves(init).entries[key], i);
    }
  }

  /** No decision stored before a first half is returned after it, and every hit is
      within the TTL. */
  lemma HitSurvivesNoClear(ttl: nat, moves: seq<Move>, cut: nat, key: Key, now: nat)
    requires cut < |moves| && moves[cut] == FirstHalf
    requires GetStep(ttl, Lookup(RunMoves(moves), key), now).Some?
    ensures exists i :: cut < i < |moves| && moves[i].MovePut? && moves[i].key == key
                     && GetStep(ttl, Lookup(RunMoves(moves), key), now) == Some(moves[i].decision)
                     && now < moves[i].at + ttl
  {
    EntryProvenance(moves, key);
  }

  /** Every remembered key is queued for eviction. */
  predicate Covered(t: Tables) {
    forall k :: k in t.entries ==> k in t.order
  }

  /** One move keeps every entry evictable, unless it is a second half that finds
      decisions put since the first: that one, and only that one, uncovers them. */
  lemma MoveKeepsCoveredIff(t: Tables, m: Move)
    requires Covered(t)
    ensures Covered(AfterMove(t, m)) <==> (m == SecondHalf ==> t.entries == map[])
  {
    match m {
      case MovePut(key, decision, at) =>
        var order := if key in t.entries then t.order else t.order + [key];
        EvictOnlyRemoves(Tables(t.entries[key := Entry(decision, at)], order));
      case FirstHalf =>
      case SecondHalf =>
        if t.entries != map[] {
          var k :| k in t.entries;
        }
    }
  }

  lemma PutBoundsOrder(t: Tables, m: Move)
    requires m.MovePut? && |t.order| <= MAX_ENTRIES
    ensures |AfterMove(t, m).order| <= MAX_ENTRIES
  {
    var order := if m.key in t.entries then t.order else t.order + [m.key];
    EvictOnlyRemoves(Tables(t.entries[m.key := Entry(m.decision, m.at)], order));
  }
}
