/** When the decision memo's cap of 1024 holds although `clear` is two separately locked
    halves. A second half that finds decisions strands them: they stay remembered but
    leave the queue, and only the first half of a later clear removes them. The cap is
    safe exactly while none are stranded, and is passed by at most 1024 for each such half. */
module MemoCap {
  import opened Outcomes
  import opened Memo

  /** The `i`-th of the moves from `t` is a second half that finds decisions. */
  predicate Finds(t: Tables, moves: seq<Move>, i: nat) {
    i < |moves| && moves[i] == SecondHalf && RunOn(t, moves[..i]).entries != map[]
  }

  /** No clear has puts between its halves that are still there at the second. */
  predicate HalvesMeet(t: Tables, moves: seq<Move>) {
    forall i :: 0 <= i < |moves| ==> !Finds(t, moves, i)
  }

  /** The cap is safe in `t`: no puts, and no clears whose second half finds nothing, can
      pass it from there. */
  ghost predicate Capped(t: Tables) {
    forall moves :: HalvesMeet(t, moves) ==> |RunOn(t, moves).entries| <= MAX_ENTRIES
  }

  // --- Covered states keep the cap ---

  lemma CoveredSize(t: Tables)
    requires Covered(t)
    ensures |t.entries| <= |t.order|
  {
    DistinctCount(t.order);
    Subset(t.entries.Keys, set k | k in t.order);
  }

  lemma OrderIsBounded(t: Tables, m: Move)
    requires |t.order| <= MAX_ENTRIES
    ensures |AfterMove(t, m).order| <= MAX_ENTRIES
  {
    if m.MovePut? {
      PutBoundsOrder(t, m);
    }
  }

  lemma {:induction false} RunBoundsOrder(t: Tables, moves: seq<Move>)
    requires |t.order| <= MAX_ENTRIES
    ensures |RunOn(t, moves).order| <= MAX_ENTRIES
  {
    if moves != [] {
      RunBoundsOrder(t, moves[..|moves| - 1]);
      OrderIsBounded(RunOn(t, moves[..|moves| - 1]), moves[|moves| - 1]);
    }
  }

  lemma HalvesMetBefore(t: Tables, moves: seq<Move>, n: nat)
    requires HalvesMeet(t, moves) && n <= |moves|
    ensures HalvesMeet(t, moves[..n])
  {
    forall i | 0 <= i < n
      ensures !Finds(t, moves[..n], i)
    {
      assert moves[..n][..i] == moves[..i] && !Finds(t, moves, i);
    }
  }

  lemma {:induction false} CoveredStays(t: Tables, moves: seq<Move>)
    requires Covered(t) && HalvesMeet(t, moves)
    ensures Covered(RunOn(t, moves))
  {
    if moves != [] {
      var n := |moves| - 1;
      HalvesMetBefore(t, moves, n);
      CoveredStays(t, moves[..n]);
      MoveKeepsCoveredIff(RunOn(t, moves[..n]), moves[n]);
      assert !Finds(t, moves, n);
    }
  }

  // --- Uncovered states lose it ---

  /** The keys that are remembered but not queued. */
  function Stranded(t: Tables): set<Key> {
    set k | k in t.entries && k !in t.order
  }

  /** Longer than the action of every key in the set. */
  lemma {:induction false} LongAction(keys: set<Key>) returns (base: nat)
    ensures forall k :: k in keys ==> |k.action| < base
  {
    if keys == {} {
      base := 0;
    } else {
      var k :| k in keys;
      var rest := LongAction(keys - {k});
      base := if rest > |k.action| then rest else |k.action| + 1;
    }
  }

  /** A key of its own for every number. */
  function NthKey(n: nat): Key {
    Key(None, "resource", seq(n, _ => 'a'), None, None)
  }

  lemma NthKeysDiffer(i: nat, j: nat)
    requires i != j
    ensures NthKey(i) != NthKey(j)
  {
  }

  /** `n` keys of growing length, from `base` on. */
  function Names(base: nat, n: nat): seq<Key> {
    seq(n, i requires 0 <= i < n => NthKey(base + i))
  }

  lemma NamesDiffer(base: nat, n: nat)
    ensures NoDuplicates(Names(base, n))
    ensures forall x :: x in Names(base, n) ==> base <= |x.action| < base + n
  {
    forall x | x in Names(base, n)
      ensures base <= |x.action| < base + n
    {
      var i :| 0 <= i < n && x == Names(base, n)[i];
      assert |NthKey(base + i).action| == base + i;
    }
    forall i, j | 0 <= i < j < n
      ensures Names(base, n)[i] != Names(base, n)[j]
    {
      NthKeysDiffer(base + i, base + j);
    }
  }

  const ALLOW: Decision := Decision(true, None, None)

  function Flood(base: nat, n: nat): seq<Move> {
    seq(n, i requires 0 <= i < n => MovePut(NthKey(base + i), ALLOW, 0))
  }

  /** How many of the old queue `n` arrivals push out. */
  function Pushed(t: Tables, n: nat): nat {
    if |t.order| + n > MAX_ENTRIES then |t.order| + n - MAX_ENTRIES else 0
  }

  /** No key in `t` is as long as `base`. */
  ghost predicate Short(t: Tables, base: nat) {
    forall k :: k in t.entries || k in t.order ==> |k.action| < base
  }

  /** `n` new keys in a row all end up queued and remembered, and what was stranded stays. */
  ghost predicate Flooded(t: Tables, base: nat, n: nat, u: Tables) {
    && Pushed(t, n) <= |t.order|
    && u.order == FloodedQueue(t, base, n)
    && (forall x :: x in Stranded(t) || x in Names(base, n) ==> x in u.entries)
    && forall x :: x in u.entries ==> x in t.entries || x in Names(base, n)
  }

  /** The queue `n` new keys leave. */
  function FloodedQueue(t: Tables, base: nat, n: nat): seq<Key>
    requires Pushed(t, n) <= |t.order|
  {
    t.order[Pushed(t, n)..] + Names(base, n)
  }

  lemma QueueStep(t: Tables, base: nat, n: nat)
    requires |t.order| <= MAX_ENTRIES && n < MAX_ENTRIES
    ensures Pushed(t, n + 1) <= |t.order| && |FloodedQueue(t, base, n)| <= MAX_ENTRIES
    ensures FloodedQueue(t, base, n + 1) == Enqueue(FloodedQueue(t, base, n), NthKey(base + n))
    ensures |FloodedQueue(t, base, n)| == MAX_ENTRIES ==> FloodedQueue(t, base, n)[0] in t.order
  {
    hide NthKey;
    var (queue, names) := (t.order[Pushed(t, n)..], Names(base, n));
    assert Names(base, n + 1) == names + [NthKey(base + n)];
    if |queue + names| == MAX_ENTRIES {
      assert queue[0] in t.order && t.order[Pushed(t, n + 1)..] == queue[1..];
    }
  }

  lemma FloodKeyIsNew(t: Tables, base: nat, n: nat, u: Tables)
    requires Short(t, base) && Flooded(t, base, n, u)
    ensures NthKey(base + n) !in u.entries && NthKey(base + n) !in u.order
  {
    NamesDiffer(base, n);
    assert |NthKey(base + n).action| == base + n;
  }

  lemma FloodStep(t: Tables, base: nat, n: nat, u: Tables)
    requires Short(t, base) && |t.order| <= MAX_ENTRIES && n < MAX_ENTRIES
    requires Flooded(t, base, n, u)
    ensures Flooded(t, base, n + 1, PutStep(u, NthKey(base + n), ALLOW, 0))
  {
    var key := NthKey(base + n);
    FloodKeyIsNew(t, base, n, u);
    QueueStep(t, base, n);
    assert Names(base, n + 1) == Names(base, n) + [key];
    assert forall x :: x in Names(base, n) ==> base <= |x.action| by {
      NamesDiffer(base, n);
    }
    hide NthKey, PutStep, Names, Pushed;
    PutUnfolds(u, key, ALLOW, 0);
  }

  lemma {:induction false} FloodRuns(t: Tables, base: nat, n: nat)
    requires Short(t, base) && |t.order| <= MAX_ENTRIES && n <= MAX_ENTRIES
    ensures Flooded(t, base, n, RunOn(t, Flood(base, n)))
  {
    if n > 0 {
      FloodRuns(t, base, n - 1);
      FloodStep(t, base, n - 1, RunOn(t, Flood(base, n - 1)));
      assert Flood(base, n)[..n - 1] == Flood(base, n - 1);
    }
  }

  /** 1024 new keys leave 1024 decisions beside the stranded ones. */
  lemma FloodFills(t: Tables) returns (base: nat)
    requires |t.order| <= MAX_ENTRIES
    ensures |RunOn(t, Flood(base, MAX_ENTRIES)).entries| >= |Stranded(t)| + MAX_ENTRIES
  {
    base := LongAction(t.entries.Keys + set x | x in t.order);
    var names := Names(base, MAX_ENTRIES);
    FloodRuns(t, base, MAX_ENTRIES);
    NamesDiffer(base, MAX_ENTRIES);
    DistinctCount(names);
    var arrived := set x | x in names;
    assert Stranded(t) !! arrived;
    Subset(Stranded(t) + arrived, RunOn(t, Flood(base, MAX_ENTRIES)).entries.Keys);
  }

  /** The cap is safe exactly when every remembered key is queued. */
  lemma CappedIffCovered(t: Tables)
    requires |t.order| <= MAX_ENTRIES
    ensures Capped(t) <==> Covered(t)
  {
    if Covered(t) {
      forall moves | HalvesMeet(t, moves)
        ensures |RunOn(t, moves).entries| <= MAX_ENTRIES
      {
        CoveredStays(t, moves);
        RunBoundsOrder(t, moves);
        CoveredSize(RunOn(t, moves));
      }
    } else {
      var k :| k in t.entries && k !in t.order;
      var base := FloodFills(t);
      assert k in Stranded(t);
      assert HalvesMeet(t, Flood(base, MAX_ENTRIES));
    }
  }

  // --- Which step, and which runs ---

  /** The one step that endangers the cap is a second half that finds decisions. */
  lemma MoveKeepsCappedIff(t: Tables, m: Move)
    requires Capped(t) && |t.order| <= MAX_ENTRIES
    ensures Capped(AfterMove(t, m)) <==> (m == SecondHalf ==> t.entries == map[])
  {
    OrderIsBounded(t, m);
    CappedIffCovered(t);
    CappedIffCovered(AfterMove(t, m));
    MoveKeepsCoveredIff(t, m);
  }

  /** The second halves that found decisions, counted since the last first half. */
  function Strandings(moves: seq<Move>): nat {
    if moves == [] then 0
    else
      var init := moves[..|moves| - 1];
      match moves[|moves| - 1]
      case MovePut(_, _, _) => Strandings(init)
      case FirstHalf => 0
      case SecondHalf => Strandings(init) + if RunMoves(init).entries == map[] then 0 else 1
  }

  lemma {:induction false} EvictKeepsStranded(t: Tables)
    ensures Stranded(Evict(t)) == Stranded(t)
    decreases |t.order|
  {
    if |t.order| > MAX_ENTRIES {
      EvictKeepsStranded(Tables(t.entries - {t.order[0]}, t.order[1..]));
      assert t.order == [t.order[0]] + t.order[1..];
    }
  }

  /** Puts strand nothing and release nothing; the halves do. */
  lemma MoveStrands(t: Tables, m: Move)
    ensures Stranded(AfterMove(t, m))
         == if m.MovePut? then Stranded(t) else if m == FirstHalf then {} else t.entries.Keys
  {
    if m.MovePut? {
      var queued := if m.key in t.entries then t.order else t.order + [m.key];
      var put := Tables(t.entries[m.key := Entry(m.decision, m.at)], queued);
      EvictKeepsStranded(put);
      assert Stranded(put) == Stranded(t);
    }
  }

  lemma NoneStrandedIffCovered(t: Tables)
    ensures Stranded(t) == {} <==> Covered(t)
  {
    assert forall k :: k in Stranded(t) <==> k in t.entries && k !in t.order;
  }

  /** What is remembered is queued or stranded. */
  lemma QueuedOrStranded(t: Tables)
    ensures |t.entries| <= |t.order| + |Stranded(t)|
  {
    var queued := set k | k in t.order;
    DistinctCount(t.order);
    Subset(t.entries.Keys, queued + Stranded(t));
  }

  lemma {:induction false} RunStrands(moves: seq<Move>)
    ensures Stranded(RunMoves(moves)) == {} <==> Strandings(moves) == 0
    ensures |Stranded(RunMoves(moves))| <= MAX_ENTRIES * Strandings(moves)
  {
    if moves != [] {
      var (init, m) := (moves[..|moves| - 1], moves[|moves| - 1]);
      var t := RunMoves(init);
      RunStrands(init);
      MoveStrands(t, m);
      RunBoundsOrder(EMPTY, init);
      QueuedOrStranded(t);
    }
  }

  /** After any interleaving, the cap is safe exactly when no second half has found
      decisions since the last first half. */
  lemma CapIsSafeIff(moves: seq<Move>)
    ensures Capped(RunMoves(moves)) <==> Strandings(moves) == 0
  {
    RunBoundsOrder(EMPTY, moves);
    CappedIffCovered(RunMoves(moves));
    RunStrands(moves);
    NoneStrandedIffCovered(RunMoves(moves));
  }

  lemma FindsUncaps(moves: seq<Move>, i: nat)
    requires Finds(EMPTY, moves, i)
    ensures !Capped(RunMoves(moves[..i + 1]))
  {
    assert moves[..i + 1][..i] == moves[..i];
    CapIsSafeIff(moves[..i + 1]);
  }

  /** And it is safe throughout the interleaving exactly when every second half found an
      empty map; then, too, every remembered key is queued and the queue is in bounds. */
  lemma CapacityIffHalvesMeet(moves: seq<Move>)
    ensures (forall n :: 0 <= n <= |moves| ==> Capped(RunMoves(moves[..n]))) <==> HalvesMeet(EMPTY, moves)
    ensures HalvesMeet(EMPTY, moves) ==>
              && Covered(RunMoves(moves)) && |RunMoves(moves).order| <= MAX_ENTRIES
              && |RunMoves(moves).entries| <= MAX_ENTRIES
  {
    hide Capped, RunOn, Covered;
    if HalvesMeet(EMPTY, moves) {
      forall n | 0 <= n <= |moves|
        ensures Covered(RunMoves(moves[..n])) && Capped(RunMoves(moves[..n]))
      {
        HalvesMetBefore(EMPTY, moves, n);
        EmptyIsCovered();
        CoveredStays(EMPTY, moves[..n]);
        RunBoundsOrder(EMPTY, moves[..n]);
        CappedIffCovered(RunMoves(moves[..n]));
      }
      assert moves[..|moves|] == moves;
      RunBoundsOrder(EMPTY, moves);
      CoveredSize(RunMoves(moves));
    } else {
      var i :| 0 <= i < |moves| && Finds(EMPTY, moves, i);
      FindsUncaps(moves, i);
    }
  }

  lemma EmptyIsCovered()
    ensures Covered(EMPTY)
  {
  }

  // --- How far it is passed ---

  /** Each second half that found decisions lets at most 1024 more be held. */
  lemma OverflowIsBounded(moves: seq<Move>)
    ensures |RunMoves(moves).entries| <= MAX_ENTRIES * (1 + Strandings(moves))
  {
    RunBoundsOrder(EMPTY, moves);
    RunStrands(moves);
    QueuedOrStranded(RunMoves(moves));
  }

  lemma {:induction false} FloodAppends(moves: seq<Move>, base: nat, n: nat)
    ensures RunMoves(moves + Flood(base, n)) == RunOn(RunMoves(moves), Flood(base, n))
    ensures Strandings(moves + Flood(base, n)) == Strandings(moves)
    ensures SecondHalf !in Flood(base, n)
  {
    if n == 0 {
      assert moves + Flood(base, 0) == moves;
    } else {
      var all := moves + Flood(base, n);
      FloodAppends(moves, base, n - 1);
      assert Flood(base, n)[..n - 1] == Flood(base, n - 1);
      assert all[..|all| - 1] == moves + Flood(base, n - 1);
      assert all[|all| - 1] == Flood(base, n)[n - 1];
    }
  }

  /** The run of `n` first halves, as when `n` clears begin together on an empty memo. */
  lemma {:induction false} FirstHalvesRun(n: nat)
    ensures var begun := seq(n, _ => FirstHalf);
            RunMoves(begun) == EMPTY && Strandings(begun) == 0
  {
    if n > 0 {
      FirstHalvesRun(n - 1);
      assert seq(n, _ => FirstHalf)[..n - 1] == seq(n - 1, _ => FirstHalf);
    }
  }

  /** `clears` clears begin together; after `n` of their second halves, each preceded by
      1024 new keys, and 1024 more keys, `1024 * (1 + n)` decisions are held. */
  lemma {:induction false} OverflowIsReached(clears: nat, n: nat) returns (moves: seq<Move>)
    requires n <= clears
    ensures clears <= |moves| && forall i :: 0 <= i < clears ==> moves[i] == FirstHalf
    ensures multiset(moves)[SecondHalf] == Strandings(moves) == n
    ensures |RunMoves(moves).entries| == MAX_ENTRIES * (1 + n)
  {
    var before: seq<Move>;
    if n == 0 {
      before := seq(clears, _ => FirstHalf);
      FirstHalvesRun(clears);
    } else {
      var earlier := OverflowIsReached(clears, n - 1);
      before := earlier + [SecondHalf];
      assert before[..|before| - 1] == earlier;
      MoveStrands(RunMoves(earlier), SecondHalf);
    }
    RunBoundsOrder(EMPTY, before);
    var base := FloodFills(RunMoves(before));
    moves := before + Flood(base, MAX_ENTRIES);
    FloodAppends(before, base, MAX_ENTRIES);
    OverflowIsBounded(moves);
  }

  /** One clear with 1024 puts between its halves, then one put more. */
  function LeakyRun(): seq<Move> {
    [FirstHalf] + Flood(0, MAX_ENTRIES) + [SecondHalf] + Flood(MAX_ENTRIES, 1)
  }

  /** 1024 new keys on an empty memo are just those. */
  lemma FloodOfEmpty(base: nat)
    ensures var names := Names(base, MAX_ENTRIES);
            && RunOn(EMPTY, Flood(base, MAX_ENTRIES)).entries.Keys == (set x | x in names)
            && |set x | x in names| == MAX_ENTRIES
  {
    FloodRuns(EMPTY, base, MAX_ENTRIES);
    NamesDiffer(base, MAX_ENTRIES);
    DistinctCount(Names(base, MAX_ENTRIES));
  }

  /** The least that goes wrong: the cap does not survive one clear whose halves enclose puts. */
  lemma CapacityLeaks()
    ensures |RunMoves(LeakyRun()).entries| == 1025
  {
    var filled := [FirstHalf] + Flood(0, MAX_ENTRIES);
    var cleared := filled + [SecondHalf];
    assert RunMoves([FirstHalf]) == EMPTY;
    FloodAppends([FirstHalf], 0, MAX_ENTRIES);
    FloodOfEmpty(0);
    NamesDiffer(0, MAX_ENTRIES);
    assert cleared[..|cleared| - 1] == filled;
    var t := RunMoves(cleared);
    assert t.order == [] && t.entries == RunMoves(filled).entries;
    assert LeakyRun() == cleared + Flood(MAX_ENTRIES, 1);
    hide Names, RunOn, NthKey, Flood, LeakyRun;
    PutOneMore(cleared, MAX_ENTRIES);
  }

  lemma PutOneMore(moves: seq<Move>, base: nat)
    requires RunMoves(moves).order == [] && forall k :: k in RunMoves(moves).entries ==> |k.action| < base
    ensures |RunMoves(moves + Flood(base, 1)).entries| == |RunMoves(moves).entries| + 1
  {
    var (t, key) := (RunMoves(moves), NthKey(base));
    assert |key.action| == base;
    FloodAppends(moves, base, 1);
    assert Flood(base, 1) == [MovePut(key, ALLOW, 0)];
    assert RunOn(t, Flood(base, 1)) == AfterMove(t, MovePut(key, ALLOW, 0));
    hide NthKey, PutStep, RunMoves;
    PutUnfolds(t, key, ALLOW, 0);
    assert t.entries[key := Entry(ALLOW, 0)].Keys == t.entries.Keys + {key};
  }
}
