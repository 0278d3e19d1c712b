/** The producers as threads of their own, each going through `TryAppendLog` line by line as far as
    the failure time is concerned, which it looks at, clears and sets without or with the lock.

    Every step of a thread is a step of the ring, so what is proved of all runs of the ring holds
    here; and here it can be said which runs there are with a given number of producers. */
module RingThreads {
  import opened Options
  import opened RingModel
  import opened RingProofs
  import opened Sums

  /** The longest record. */
  const MAX_RECORD := ONE_LOG_LEN - 1

  function Longest(): (rec: string)
    ensures |rec| == MAX_RECORD
  {
    seq(MAX_RECORD, _ => 'x')
  }

  /** A producer before or after its call; past the test for a recent failure; past the reset of the
      failure time; and in the critical section, before its second look at the failure time. */
  datatype Producer = Away | Admitted(rec: string, now: nat) | Ready(rec: string, now: nat) | Inside

  datatype Threads = Threads(ring: State, producers: seq<Producer>)

  datatype Step =
    | Enter(i: nat, rec: string, now: nat)
    | Clear(i: nat)
    | Lock(i: nat, newId: int)
    | Unlock(i: nat)
    | Consume(action: Action)

  function Begin(cellLen: nat, a: int, b: int, c: int, k: nat): Threads {
    Threads(Init(cellLen, a, b, c), seq(k, _ => Away))
  }

  predicate CanStep(t: Threads, s: Step) {
    && 1 < |t.ring.cells| && t.ring.cur < |t.ring.cells|
    && match s
       case Enter(i, rec, now) =>
         && i < |t.producers| && t.producers[i].Away?
         && 0 < |rec| <= MAX_RECORD && now != 0 && !Throttled(t.ring.failTime, now)
       case Clear(i) => i < |t.producers| && t.producers[i].Admitted?
       case Lock(i, newId) =>
         && i < |t.producers| && t.producers[i].Ready?
         && Enabled(t.ring, Append(t.producers[i].rec, t.producers[i].now, newId))
       case Unlock(i) => i < |t.producers| && t.producers[i].Inside? && Enabled(t.ring, FinishStep)
       case Consume(a) => !a.Reset? && !a.Append? && !a.FinishStep? && Enabled(t.ring, a)
  }

  function Take(t: Threads, s: Step): Threads
    requires CanStep(t, s)
  {
    match s
    case Enter(i, rec, now) => t.(producers := t.producers[i := Admitted(rec, now)])
    case Clear(i) =>
      var p := t.producers[i];
      Threads(Next(t.ring, Reset), t.producers[i := Ready(p.rec, p.now)])
    case Lock(i, newId) =>
      var p := t.producers[i];
      var ring := Next(t.ring, Append(p.rec, p.now, newId));
      Threads(ring, t.producers[i := if ring.pending.Some? then Inside else Away])
    case Unlock(i) => Threads(Next(t.ring, FinishStep), t.producers[i := Away])
    case Consume(a) => t.(ring := Next(t.ring, a))
  }

  ghost predicate IsThreadRun(t: Threads, steps: seq<Step>)
    decreases |steps|, 0
  {
    steps == []
    || (IsThreadRun(t, steps[..|steps| - 1]) && CanStep(ThreadsAfter(t, steps[..|steps| - 1]), steps[|steps| - 1]))
  }

  ghost function ThreadsAfter(t: Threads, steps: seq<Step>): Threads
    requires IsThreadRun(t, steps)
    decreases |steps|, 1
  {
    if steps == [] then t else Take(ThreadsAfter(t, steps[..|steps| - 1]), steps[|steps| - 1])
  }

  lemma ThreadSnoc(t: Threads, steps: seq<Step>, s: Step)
    requires IsThreadRun(t, steps) && CanStep(ThreadsAfter(t, steps), s)
    ensures IsThreadRun(t, steps + [s]) && ThreadsAfter(t, steps + [s]) == Take(ThreadsAfter(t, steps), s)
  {
    assert (steps + [s])[..|steps|] == steps;
  }

  // ---------------------------------------------------------------- the lock

  /** A producer is inside exactly while the ring waits for the rest of its critical section, and never
      two of them. */
  ghost predicate Locked(t: Threads) {
    && (t.ring.pending.Some? <==> exists i :: 0 <= i < |t.producers| && t.producers[i].Inside?)
    && (forall i, j :: 0 <= i < j < |t.producers| ==> !(t.producers[i].Inside? && t.producers[j].Inside?))
  }

  ghost predicate ThreadInv(t: Threads) {
    Inv(t.ring) && Locked(t)
  }

  lemma StepKeepsLocked(t: Threads, s: Step)
    requires Locked(t) && CanStep(t, s)
    ensures Locked(Take(t, s))
  {
    var u := Take(t, s);
    match s
    case Lock(i, _) =>
      if u.ring.pending.Some? { assert u.producers[i].Inside?; }
    case Enter(i, _, _) => StayOutside(t, u, i);
    case Clear(i) => StayOutside(t, u, i);
    case _ =>
  }

  lemma StayOutside(t: Threads, u: Threads, i: nat)
    requires Locked(t) && i < |t.producers| == |u.producers| && !t.producers[i].Inside? && !u.producers[i].Inside?
    requires u.producers == t.producers[i := u.producers[i]] && u.ring.pending == t.ring.pending
    ensures Locked(u)
  {
    if t.ring.pending.Some? {
      var j :| 0 <= j < |t.producers| && t.producers[j].Inside?;
      assert u.producers[j].Inside?;
    }
  }

  lemma {:induction false} RunKeepsThreadInv(cellLen: nat, a: int, b: int, c: int, k: nat, steps: seq<Step>)
    requires Buildable(cellLen, a, b, c) && IsThreadRun(Begin(cellLen, a, b, c, k), steps)
    ensures var t := ThreadsAfter(Begin(cellLen, a, b, c, k), steps);
      ThreadInv(t) && |t.producers| == k && t.ring.cellLen == cellLen
    decreases |steps|
  {
    if steps == [] {
      InitInv(cellLen, a, b, c);
    } else {
      var last := |steps| - 1;
      RunKeepsThreadInv(cellLen, a, b, c, k, steps[..last]);
      StepKeepsThreadInv(ThreadsAfter(Begin(cellLen, a, b, c, k), steps[..last]), steps[last]);
    }
  }

  lemma StepKeepsThreadInv(t: Threads, s: Step)
    requires ThreadInv(t) && CanStep(t, s)
    ensures ThreadInv(Take(t, s)) && Take(t, s).ring.cellLen == t.ring.cellLen
  {
    hide Inv;
    StepKeepsLocked(t, s);
    match s
    case Enter(_, _, _) =>
    case Clear(_) => StepKeepsInv(t.ring, Reset);
    case Lock(i, newId) => StepKeepsInv(t.ring, Append(t.producers[i].rec, t.producers[i].now, newId));
    case Unlock(_) => StepKeepsInv(t.ring, FinishStep);
    case Consume(a) => StepKeepsInv(t.ring, a);
  }

  /** Every state the threads can get the ring into is a state of some run of the ring. */
  lemma {:induction false} ThreadsAreRuns(cellLen: nat, a: int, b: int, c: int, k: nat, steps: seq<Step>)
    requires Buildable(cellLen, a, b, c) && IsThreadRun(Begin(cellLen, a, b, c, k), steps)
    ensures Reachable(ThreadsAfter(Begin(cellLen, a, b, c, k), steps).ring)
    decreases |steps|
  {
    if steps == [] {
      ReachableInit(cellLen, a, b, c);
    } else {
      var last := |steps| - 1;
      ThreadsAreRuns(cellLen, a, b, c, k, steps[..last]);
      var t := ThreadsAfter(Begin(cellLen, a, b, c, k), steps[..last]);
      match steps[last]
      case Enter(_, _, _) =>
      case Clear(_) => ReachableStep(t.ring, Reset);
      case Lock(i, newId) => ReachableStep(t.ring, Append(t.producers[i].rec, t.producers[i].now, newId));
      case Unlock(_) => ReachableStep(t.ring, FinishStep);
      case Consume(action) => ReachableStep(t.ring, action);
    }
  }

  // ---------------------------------------------------------------- nobody is kept out for good

  /** At every point of every run a producer outside its call can enter it five seconds after a failure,
      and at once if there was none or it was cleared; past its reset no failure time is left. */
  lemma {:induction false} LetInAgain(
      cellLen: nat, a: int, b: int, c: int, k: nat, steps: seq<Step>, i: nat, rec: string, now: nat)
    requires Buildable(cellLen, a, b, c) && IsThreadRun(Begin(cellLen, a, b, c, k), steps)
    requires var t := ThreadsAfter(Begin(cellLen, a, b, c, k), steps);
      i < k == |t.producers| && t.producers[i] == Away && t.ring.failTime <= now < UINT64
    requires 0 < |rec| < 4096 && now != 0
    ensures var t := ThreadsAfter(Begin(cellLen, a, b, c, k), steps);
      && (CanStep(t, Enter(i, rec, now)) <==> t.ring.failTime == 0 || t.ring.failTime + 5 <= now)
      && (CanStep(t, Enter(i, rec, now)) ==>
            var u := Take(t, Enter(i, rec, now));
            && CanStep(u, Clear(i))
            && Take(u, Clear(i)) == Threads(t.ring.(failTime := 0), t.producers[i := Ready(rec, now)]))
  {
    RunKeepsThreadInv(cellLen, a, b, c, k, steps);
    ThrottledIff(ThreadsAfter(Begin(cellLen, a, b, c, k), steps).ring.failTime, now);
  }

  // ---------------------------------------------------------------- one producer loses nothing

  /** A producer that has just failed still finds its failure time set. */
  ghost predicate OwnFailureSeen(t: Threads) {
    && t.ring.cur < |t.ring.cells| && t.ring.astray == 0 && t.ring.lost == 0
    && (t.ring.pending.Some? && t.ring.failTime == 0 ==> t.ring.cells[t.ring.cur].status == FREE)
  }

  lemma AppendSeesOwnFailure(r: State, rec: string, now: nat, newId: int)
    requires Inv(r) && Enabled(r, Append(rec, now, newId))
    ensures var u := Produce(r, rec, now, newId);
      && u.cur < |u.cells| && u.astray == r.astray && u.lost == r.lost
      && (u.pending.Some? && u.failTime == 0 ==> u.cells[u.cur].status == FREE)
  {
    if r.cells[r.cur].status == FREE && !Fits(r, rec) { AdvanceKeepsInv(r, now, newId); }
  }

  lemma OneProducerStep(t: Threads, s: Step)
    requires ThreadInv(t) && OwnFailureSeen(t) && |t.producers| <= 1 && CanStep(t, s)
    ensures OwnFailureSeen(Take(t, s))
  {
    match s
    case Lock(i, newId) => AppendSeesOwnFailure(t.ring, t.producers[i].rec, t.producers[i].now, newId);
    case Clear(i) => assert t.ring.pending.None?;
    case Unlock(_) => assert !Misplaces(t.ring);
    case _ =>
  }

  lemma {:induction false} OneProducerLosesNothing(cellLen: nat, a: int, b: int, c: int, k: nat, steps: seq<Step>)
    requires Buildable(cellLen, a, b, c) && IsThreadRun(Begin(cellLen, a, b, c, k), steps) && k <= 1
    ensures OwnFailureSeen(ThreadsAfter(Begin(cellLen, a, b, c, k), steps))
    decreases |steps|
  {
    if steps != [] {
      var last := |steps| - 1;
      OneProducerLosesNothing(cellLen, a, b, c, k, steps[..last]);
      RunKeepsThreadInv(cellLen, a, b, c, k, steps[..last]);
      OneProducerStep(ThreadsAfter(Begin(cellLen, a, b, c, k), steps[..last]), steps[last]);
    }
  }

  // ---------------------------------------------------------------- few producers drop nothing beside a free cell

  function InFlight(producers: seq<Producer>): seq<nat> {
    seq(|producers|, i requires 0 <= i < |producers| => if producers[i].Ready? then 1 else 0)
  }

  lemma InFlightUpdate(producers: seq<Producer>, i: nat, p: Producer)
    requires i < |producers|
    ensures Total(InFlight(producers[i := p]))
        == Total(InFlight(producers)) - InFlight(producers)[i] + (if p.Ready? then 1 else 0)
    ensures !p.Ready? ==> Total(InFlight(producers[i := p])) <= |producers| - 1
  {
    var load := if p.Ready? then 1 else 0;
    TotalUpdate(InFlight(producers), i, load);
    assert InFlight(producers[i := p]) == InFlight(producers)[i := load];
    TotalAtMost(InFlight(producers[i := p]), i);
  }

  /** While a failure time is set, either every cell is FULL, or the current one has room for all the
      producers that were past their reset when it was set. */
  ghost predicate RoomForAll(t: Threads) {
    t.ring.failTime != 0 ==>
      && Total(InFlight(t.producers)) <= |t.producers| - 1 && t.ring.cur < |t.ring.cells|
      && (Saturated(t.ring)
          || (t.ring.pending.None?
              && |t.ring.cells[t.ring.cur].data| + MAX_RECORD * Total(InFlight(t.producers)) <= t.ring.cellLen))
  }

  /** Producers too few to fill a cell with one record each, one of them left out. */
  predicate Few(t: Threads) {
    (|t.producers| - 1) * MAX_RECORD <= t.ring.cellLen
  }

  /** A critical section either leaves the failure time alone and a record in the current cell, or
      it leaves a full ring. */
  lemma AppendTakesRoom(r: State, rec: string, now: nat, newId: int)
    requires Inv(r) && Enabled(r, Append(rec, now, newId))
    ensures var u := Produce(r, rec, now, newId);
      && u.cur < |u.cells| && u.cellLen == r.cellLen && (Saturated(r) ==> Saturated(u))
      && if Fits(r, rec) then
           u.failTime == r.failTime && u.pending.None? && |u.cells[u.cur].data| == |r.cells[r.cur].data| + |rec|
         else if r.cells[r.cur].status == FULL then Saturated(u) && u.pending.None?
         else u.pending.Some? && (u.failTime != r.failTime ==> Saturated(u))
  {
    assert r.cells[r.cur].status == FULL <==> Saturated(r);
    if r.cells[r.cur].status == FREE && !Fits(r, rec) { AdvanceKeepsInv(r, now, newId); }
  }

  lemma LockKeepsRoom(t: Threads, i: nat, newId: int)
    requires ThreadInv(t) && RoomForAll(t) && CanStep(t, Lock(i, newId))
    ensures RoomForAll(Take(t, Lock(i, newId)))
  {
    hide Inv, Saturated, Produce;
    var p, u := t.producers[i], Take(t, Lock(i, newId));
    AppendTakesRoom(t.ring, p.rec, p.now, newId);
    InFlightUpdate(t.producers, i, u.producers[i]);
  }

  lemma ConsumeKeepsRoom(t: Threads, a: Action)
    requires ThreadInv(t) && RoomForAll(t) && Few(t) && CanStep(t, Consume(a))
    ensures RoomForAll(Take(t, Consume(a)))
  {
    var r := t.ring;
    if r.failTime != 0 && !Saturated(r) {
      assert Banded(r);
      if !a.PersistStep? && !a.ReleaseStep? && r.cells[0].status == FREE && r.cells[0].data != "" {
        ConsumerAssertHolds(r);
      }
    }
  }

  lemma StepKeepsRoom(t: Threads, s: Step)
    requires ThreadInv(t) && RoomForAll(t) && Few(t) && CanStep(t, s)
    ensures RoomForAll(Take(t, s))
  {
    match s
    case Enter(i, rec, now) => InFlightUpdate(t.producers, i, Admitted(rec, now));
    case Clear(_) =>
    case Lock(i, newId) => LockKeepsRoom(t, i, newId);
    case Unlock(i) => InFlightUpdate(t.producers, i, Away);
    case Consume(a) => ConsumeKeepsRoom(t, a);
  }

  lemma {:induction false} RunKeepsRoom(cellLen: nat, a: int, b: int, c: int, k: nat, steps: seq<Step>)
    requires Buildable(cellLen, a, b, c) && IsThreadRun(Begin(cellLen, a, b, c, k), steps)
    requires (k - 1) * MAX_RECORD <= cellLen
    ensures RoomForAll(ThreadsAfter(Begin(cellLen, a, b, c, k), steps))
    decreases |steps|
  {
    if steps != [] {
      var last := |steps| - 1;
      RunKeepsRoom(cellLen, a, b, c, k, steps[..last]);
      RunKeepsThreadInv(cellLen, a, b, c, k, steps[..last]);
      StepKeepsRoom(ThreadsAfter(Begin(cellLen, a, b, c, k), steps[..last]), steps[last]);
    }
  }

  /** The step ends a producer's call without its record, and there is a cell that is not FULL. */
  ghost predicate DropsBesideRoom(t: Threads, s: Step)
    requires CanStep(t, s)
  {
    && (s.Lock? || s.Unlock?) && Take(t, s).producers[s.i].Away?
    && Take(t, s).ring.accepted == t.ring.accepted && !Saturated(Take(t, s).ring)
  }

  ghost predicate RunDrops(start: Threads, steps: seq<Step>, s: Step) {
    IsThreadRun(start, steps) && CanStep(ThreadsAfter(start, steps), s)
    && DropsBesideRoom(ThreadsAfter(start, steps), s)
  }

  lemma FewDropOnlyWhenSaturated(t: Threads, s: Step)
    requires ThreadInv(t) && RoomForAll(t) && CanStep(t, s)
    ensures !DropsBesideRoom(t, s)
  {
    match s
    case Lock(i, newId) => TurnedAwayIff(t.ring, t.producers[i].rec, t.producers[i].now, newId);
    case Unlock(_) => GivenUpIff(t.ring);
    case _ =>
  }

  // ---------------------------------------------------------------- building a full ring

  /** An id no cell has. */
  lemma FreshId(s: State) returns (id: int)
    ensures !HasId(s, id)
  {
    id := 0;
    for k := 0 to |s.cells|
      invariant forall i :: 0 <= i < k ==> s.cells[i].id < id
    {
      if s.cells[k].id >= id { id := s.cells[k].id + 1; }
    }
  }

  lemma Do(start: Threads, steps: seq<Step>, s: Step) returns (more: seq<Step>, t: Threads)
    requires IsThreadRun(start, steps) && CanStep(ThreadsAfter(start, steps), s)
    ensures IsThreadRun(start, more) && t == ThreadsAfter(start, more) == Take(ThreadsAfter(start, steps), s)
  {
    ThreadSnoc(start, steps, s);
    more := steps + [s];
    t := ThreadsAfter(start, more);
  }

  /** One whole call of producer `i` that nothing falls in between. */
  lemma {:induction false} WholeCall(start: Threads, steps: seq<Step>, i: nat, rec: string, newId: int)
    returns (more: seq<Step>)
    requires IsThreadRun(start, steps)
    requires var t := ThreadsAfter(start, steps);
      && ThreadInv(t) && i < |t.producers| && t.producers[i] == Away && t.ring.failTime == 0
      && Enabled(t.ring, Append(rec, 1, newId))
    ensures IsThreadRun(start, more)
    ensures var t, u := ThreadsAfter(start, steps), ThreadsAfter(start, more);
      u == Threads(Undisturbed(t.ring, rec, 1, newId), t.producers)
  {
    hide Identified, Shaped, Books;
    var t := ThreadsAfter(start, steps);
    var u;
    more, u := Do(start, steps, Enter(i, rec, 1));
    more, u := Do(start, more, Clear(i));
    assert t.ring.(failTime := 0) == t.ring;
    more, u := Do(start, more, Lock(i, newId));
    StepKeepsInv(t.ring, Append(rec, 1, newId));
    if u.ring.pending.Some? { more, u := Do(start, more, Unlock(i)); }
    assert u.producers == t.producers;
  }

  /** The consumer has written its cell, which holds one byte, and not cleared it yet; the producers
      fill the cells behind it. */
  ghost predicate Filling(t: Threads, producers: seq<Producer>) {
    && ThreadInv(t) && t.producers == producers && t.ring.pending.None? && t.ring.failTime == 0
    && t.ring.phase == Persisted && |t.ring.cells[0].data| == 1
    && 0 < t.ring.cur && t.ring.cells[t.ring.cur].status == FREE
    && t.ring.astray == 0 && t.ring.lost == 0
  }

  /** ... until the last one is full and no more can be added. */
  ghost predicate Full(t: Threads) {
    && t.ring.cur < |t.ring.cells| && |t.ring.cells[t.ring.cur].data| == t.ring.cellLen && NoMoreRoom(t.ring)
  }

  lemma CellCount(s: State)
    requires Sized(s)
    ensures s.cur < |s.cells| <= 400
  {
    assert s.cellLen * Count(s) >= MIN_CELL_LEN * Count(s);
  }

  /** One more byte, in the current cell ... */
  lemma {:induction false} ByteFits(s: State, newId: int)
    requires Inv(s) && Enabled(s, Append("x", 1, newId)) && Fits(s, "x")
    ensures var t := Undisturbed(s, "x", 1, newId);
      Inv(t) && t == Deposit(s, "x") && t.cells[s.cur] == s.cells[s.cur].(data := s.cells[s.cur].data + "x")
  {
    DepositKeepsInv(s, "x");
  }

  lemma {:induction false} StepsToFree(s: State, newId: int)
    requires Inv(s) && s.pending.None? && s.cells[s.cur].status == FREE && 0 < s.cur && !HasId(s, newId)
    requires s.cells[s.cur].data != "" && !NoMoreRoom(s)
    ensures var t := Advance(MarkCurFull(s), 1, newId);
      && Inv(t) && t.cur == s.cur + 1 && t.cells[0] == s.cells[0]
      && t.cells[t.cur].status == FREE && t.cells[t.cur].data == ""
      && t == s.(cells := t.cells, cur := t.cur)
  {
    hide Books, Identified;
    AdvanceKeepsInv(s, 1, newId);
    NextFullMeansAllFull(s);
  }

  /** ... or in the one behind it. */
  lemma {:induction false} ByteMovesOn(s: State, newId: int)
    requires Inv(s) && Enabled(s, Append("x", 1, newId)) && s.failTime == 0 && 0 < s.cur
    requires s.cells[s.cur].status == FREE && |s.cells[s.cur].data| == s.cellLen && !NoMoreRoom(s)
    ensures var t := Undisturbed(s, "x", 1, newId);
      && Inv(t) && t.cur == s.cur + 1 && t.cells[0] == s.cells[0] && t.cells[t.cur].status == FREE
      && t == s.(cells := t.cells, cur := t.cur, accepted := t.accepted)
  {
    hide Books, Identified, Advance;
    StepsToFree(s, newId);
    var t := Advance(MarkCurFull(s), 1, newId);
    StepKeepsInv(s, Append("x", 1, newId));
    assert Produce(s, "x", 1, newId) == t.(pending := Some("x"));
    FinishKeepsInv(t.(pending := Some("x")));
    assert Finish(t.(pending := Some("x"))) == Deposit(t, "x");
  }

  lemma {:induction false} FillOne(start: Threads, steps: seq<Step>, producers: seq<Producer>) returns (more: seq<Step>)
    requires IsThreadRun(start, steps) && 0 < |producers| && producers[0] == Away
    requires Filling(ThreadsAfter(start, steps), producers) && !Full(ThreadsAfter(start, steps))
    ensures IsThreadRun(start, more) && Filling(ThreadsAfter(start, more), producers)
    ensures var s, t := ThreadsAfter(start, steps).ring, ThreadsAfter(start, more).ring;
      && t.cellLen == s.cellLen
      && if |s.cells[s.cur].data| < s.cellLen then t.cur == s.cur && |t.cells[t.cur].data| == |s.cells[s.cur].data| + 1
         else t.cur == s.cur + 1
  {
    var t := ThreadsAfter(start, steps);
    var newId := FreshId(t.ring);
    if Fits(t.ring, "x") { ByteFits(t.ring, newId); } else { ByteMovesOn(t.ring, newId); }
    more := WholeCall(start, steps, 0, "x", newId);
  }

  /** The consumer up to its write. */
  lemma {:induction false} WriteFirst(start: Threads, steps: seq<Step>) returns (more: seq<Step>)
    requires IsThreadRun(start, steps)
    requires var r := ThreadsAfter(start, steps).ring;
      && 1 < |r.cells| && r.cur == 0 && r.phase == Idle && r.pending.None?
      && r.cells[0].status == FREE && r.cells[0].data != ""
    ensures IsThreadRun(start, more)
    ensures var t, u := ThreadsAfter(start, steps), ThreadsAfter(start, more);
      && u.producers == t.producers
      && u.ring == t.ring.(cells := t.ring.cells[0 := t.ring.cells[0].(status := FULL)], cur := 1,
                           phase := Persisted, file := t.ring.file + t.ring.cells[0].data)
  {
    var t;
    more, t := Do(start, steps, Consume(CheckStep));
    more, t := Do(start, more, Consume(WakeStep));
    more, t := Do(start, more, Consume(PersistStep(true)));
  }

  /** The first byte, and the consumer up to its write. */
  lemma {:induction false} FirstByte(cellLen: nat, a: int, b: int, c: int, k: nat) returns (steps: seq<Step>)
    requires Buildable(cellLen, a, b, c) && 0 < k
    ensures var start := Begin(cellLen, a, b, c, k);
      IsThreadRun(start, steps) && Filling(ThreadsAfter(start, steps), start.producers)
  {
    var start := Begin(cellLen, a, b, c, k);
    InitInv(cellLen, a, b, c);
    var newId := FreshId(start.ring);
    steps := WholeCall(start, [], 0, "x", newId);
    assert ThreadsAfter(start, steps).ring == Deposit(start.ring, "x");
    steps := WriteFirst(start, steps);
    RunKeepsThreadInv(cellLen, a, b, c, k, steps);
  }

  /** Producer 0 alone can fill the ring to the limit while the consumer sits on its written cell. */
  lemma {:induction false} FillUp(cellLen: nat, a: int, b: int, c: int, k: nat) returns (steps: seq<Step>)
    requires Buildable(cellLen, a, b, c) && 0 < k
    ensures var start := Begin(cellLen, a, b, c, k);
      IsThreadRun(start, steps) && Filling(ThreadsAfter(start, steps), start.producers)
      && Full(ThreadsAfter(start, steps))
  {
    var start := Begin(cellLen, a, b, c, k);
    steps := FirstByte(cellLen, a, b, c, k);
    var s := ThreadsAfter(start, steps).ring;
    while !Full(ThreadsAfter(start, steps))
      invariant IsThreadRun(start, steps) && Filling(ThreadsAfter(start, steps), start.producers)
      invariant s == ThreadsAfter(start, steps).ring
      decreases 400 - s.cur, s.cellLen - |s.cells[s.cur].data|
    {
      CellCount(s);
      steps := FillOne(start, steps, start.producers);
      s := ThreadsAfter(start, steps).ring;
      CellCount(s);
    }
  }

  // ---------------------------------------------------------------- two producers can lose a record

  /** Producer 0 at a full ring: it sets the failure time and stands at the consumer's cell. */
  lemma {:induction false} FailsAtFull(t: Threads, producers: seq<Producer>, newId: int)
    requires Filling(t, producers) && Full(t) && !HasId(t.ring, newId)
    ensures Enabled(t.ring, Append("x", 1, newId))
    ensures var r := Next(t.ring, Append("x", 1, newId));
      && r.pending == Some("x") && r.failTime == 1 && r.phase == Persisted && Saturated(r) && 1 < |r.cells|
      && r.cells[0] == t.ring.cells[0] && r.cellLen == t.ring.cellLen && r.lost == 0
      && Inv(r) && r.accepted == t.ring.accepted
  {
    AdvanceKeepsInv(t.ring, 1, newId);
    StepKeepsInv(t.ring, Append("x", 1, newId));
  }

  /** Producer 0 finds the ring full and sets the failure time; producer 1, past its own test already,
      clears it; producer 0 then copies its record into the cell the consumer has written. */
  lemma {:induction false} TwoProducersLose(cellLen: nat, a: int, b: int, c: int, k: nat) returns (steps: seq<Step>)
    requires Buildable(cellLen, a, b, c) && 2 <= k
    ensures var start := Begin(cellLen, a, b, c, k);
      && IsThreadRun(start, steps)
      && var r := ThreadsAfter(start, steps).ring; 0 < |r.cells| && r.lost == 1 && |Written(r)| < |Join(r.accepted)|
  {
    var start := Begin(cellLen, a, b, c, k);
    steps := FillUp(cellLen, a, b, c, k);
    var t := ThreadsAfter(start, steps);
    var newId := FreshId(t.ring);
    FailsAtFull(t, start.producers, newId);
    steps := LoseOne(start, steps, newId);
    RunKeepsThreadInv(cellLen, a, b, c, k, steps);
  }

  lemma {:induction false} LoseOne(start: Threads, steps: seq<Step>, newId: int) returns (more: seq<Step>)
    requires IsThreadRun(start, steps)
    requires var t := ThreadsAfter(start, steps);
      && 2 <= |t.producers| && t.producers[0] == Away && t.producers[1] == Away && t.ring.failTime == 0
      && 1 < |t.ring.cells| && t.ring.cur < |t.ring.cells| && Enabled(t.ring, Append("x", 1, newId))
      && var r := Next(t.ring, Append("x", 1, newId));
         && r.pending == Some("x") && r.phase == Persisted && Saturated(r) && 1 < |r.cells|
         && |r.cells[0].data| < r.cellLen && r.lost == 0
    ensures IsThreadRun(start, more) && ThreadsAfter(start, more).ring.lost == 1
  {
    var ring := ThreadsAfter(start, steps).ring;
    var t;
    more, t := Do(start, steps, Enter(1, "x", 1));
    more, t := Do(start, more, Enter(0, "x", 1));
    more, t := Do(start, more, Clear(0));
    assert t.ring == ring && t.producers[0] == Ready("x", 1) && t.producers[1] == Admitted("x", 1);
    more, t := Do(start, more, Lock(0, newId));
    more, t := Do(start, more, Clear(1));
    assert t.producers[0] == Inside && Misplaces(t.ring);
    more, t := Do(start, more, Unlock(0));
  }

  ghost predicate RunLoses(start: Threads, steps: seq<Step>) {
    IsThreadRun(start, steps) && ThreadsAfter(start, steps).ring.lost > 0
  }

  /** Records can get lost exactly if there is more than one producer. */
  lemma {:induction false} LossPossibleIff(cellLen: nat, a: int, b: int, c: int, k: nat)
    requires Buildable(cellLen, a, b, c)
    ensures (exists steps :: RunLoses(Begin(cellLen, a, b, c, k), steps)) <==> 2 <= k
  {
    if 2 <= k {
      var steps := TwoProducersLose(cellLen, a, b, c, k);
      assert RunLoses(Begin(cellLen, a, b, c, k), steps);
    } else {
      forall steps | IsThreadRun(Begin(cellLen, a, b, c, k), steps)
        ensures !RunLoses(Begin(cellLen, a, b, c, k), steps)
      {
        OneProducerLosesNothing(cellLen, a, b, c, k, steps);
      }
    }
  }

  // ---------------------------------------------------------------- many producers can drop beside room

  /** The producers from `i` to `n` are past their reset of the failure time, with longest records. */
  ghost predicate Queued(t: Threads, i: nat, n: nat) {
    n < |t.producers| && forall j :: i <= j <= n ==> t.producers[j] == Ready(Longest(), 1)
  }

  lemma {:induction false} QueueOne(start: Threads, steps: seq<Step>, i: nat, rec: string) returns (more: seq<Step>)
    requires IsThreadRun(start, steps) && 0 < |rec| <= MAX_RECORD
    requires var t := ThreadsAfter(start, steps);
      i < |t.producers| && t.producers[i] == Away && t.ring.failTime == 0
      && 1 < |t.ring.cells| && t.ring.cur < |t.ring.cells|
    ensures IsThreadRun(start, more)
    ensures var t := ThreadsAfter(start, steps);
      ThreadsAfter(start, more) == t.(producers := t.producers[i := Ready(rec, 1)])
  {
    var t, u := ThreadsAfter(start, steps), ThreadsAfter(start, steps);
    more, u := Do(start, steps, Enter(i, rec, 1));
    more, u := Do(start, more, Clear(i));
    assert u.ring == t.ring && u.producers == t.producers[i := Ready(rec, 1)];
  }

  lemma {:induction false} QueueUp(start: Threads, steps: seq<Step>, n: nat) returns (more: seq<Step>)
    requires IsThreadRun(start, steps)
    requires var t := ThreadsAfter(start, steps);
      && n < |t.producers| && t.ring.failTime == 0 && 1 < |t.ring.cells| && t.ring.cur < |t.ring.cells|
      && forall i :: 0 <= i < |t.producers| ==> t.producers[i] == Away
    ensures IsThreadRun(start, more)
    ensures var t := ThreadsAfter(start, more);
      t.ring == ThreadsAfter(start, steps).ring && Queued(t, 1, n) && t.producers[0] == Away
  {
    more := steps;
    var t := ThreadsAfter(start, steps);
    var ring, k := t.ring, |t.producers|;
    for i := 0 to n
      invariant IsThreadRun(start, more) && t == ThreadsAfter(start, more)
      invariant t.ring == ring && |t.producers| == k && Queued(t, 1, i)
      invariant forall j :: 0 <= j < k && (j == 0 || i < j) ==> t.producers[j] == Away
    {
      more := QueueOne(start, more, i + 1, Longest());
      t := ThreadsAfter(start, more);
    }
  }

  /** The consumer has cleared two cells of a ring that was full; the failure time is still set, and
      `d` bytes have come into the first of the two. */
  ghost predicate Emptied(r: State, d: nat) {
    && Inv(r) && r.pending.None? && r.failTime == 1 && r.cur == |r.cells| - 2
    && r.cells[r.cur].status == FREE && |r.cells[r.cur].data| == d
  }

  predicate Goes(r: State, a: Action) {
    1 < |r.cells| && r.cur < |r.cells| && Enabled(r, a)
  }

  lemma {:induction false} TwoReleases(r: State) returns (r1: State, r2: State, r3: State, r4: State)
    requires Inv(r) && r.pending.None? && r.failTime == 1 && Saturated(r) && r.phase == Persisted
    ensures Goes(r, ReleaseStep) && r1 == Next(r, ReleaseStep) && Goes(r1, CheckStep) && r2 == Next(r1, CheckStep)
    ensures Goes(r2, PersistStep(true)) && r3 == Next(r2, PersistStep(true))
    ensures Goes(r3, ReleaseStep) && r4 == Next(r3, ReleaseStep)
    ensures Emptied(r4, 0) && r4.cellLen == r.cellLen
  {
    StepKeepsInv(r, ReleaseStep);
    r1 := Release(r);
    assert r1.cells[0] == r.cells[1];
    StepKeepsInv(r1, CheckStep);
    r2 := Check(r1);
    StepKeepsInv(r2, PersistStep(true));
    r3 := Persist(r2, true);
    StepKeepsInv(r3, ReleaseStep);
    r4 := Release(r3);
  }

  /** Producer 0 is about to fail: the ring is full and cannot grow. */
  ghost predicate AboutToFail(t: Threads, newId: int) {
    && 0 < |t.producers| && t.producers[0] == Away && t.ring.failTime == 0
    && 1 < |t.ring.cells| && t.ring.cur < |t.ring.cells| && Enabled(t.ring, Append("x", 1, newId))
    && var r := Next(t.ring, Append("x", 1, newId));
       && r.pending == Some("x") && r.failTime == 1 && r.phase == Persisted && Saturated(r)
       && 1 < |r.cells| && Inv(r) && r.cellLen == t.ring.cellLen
  }

  /** Its call, ... */
  lemma {:induction false} FailWhole(start: Threads, steps: seq<Step>, newId: int) returns (more: seq<Step>)
    requires IsThreadRun(start, steps) && AboutToFail(ThreadsAfter(start, steps), newId)
    ensures IsThreadRun(start, more)
    ensures var t, u := ThreadsAfter(start, steps), ThreadsAfter(start, more);
      && u.producers == t.producers && u.ring.cellLen == t.ring.cellLen
      && Inv(u.ring) && u.ring.pending.None? && u.ring.failTime == 1 && Saturated(u.ring) && u.ring.phase == Persisted
  {
    hide Produce;
    var producers, ring := ThreadsAfter(start, steps).producers, ThreadsAfter(start, steps).ring;
    var r := Next(ring, Append("x", 1, newId));
    StepKeepsInv(r, FinishStep);
    var t;
    more, t := Do(start, steps, Enter(0, "x", 1));
    more, t := Do(start, more, Clear(0));
    assert t.ring == ring && t.producers == producers[0 := Ready("x", 1)];
    more, t := Do(start, more, Lock(0, newId));
    more, t := Do(start, more, Unlock(0));
    assert t == Threads(Finish(r), producers);
  }

  /** ... and the consumer's next two cells. */
  lemma {:induction false} EmptyTwo(start: Threads, steps: seq<Step>) returns (more: seq<Step>)
    requires IsThreadRun(start, steps)
    requires var r := ThreadsAfter(start, steps).ring;
      Inv(r) && r.pending.None? && r.failTime == 1 && Saturated(r) && r.phase == Persisted
    ensures IsThreadRun(start, more)
    ensures var t, u := ThreadsAfter(start, steps), ThreadsAfter(start, more);
      u.producers == t.producers && Emptied(u.ring, 0) && u.ring.cellLen == t.ring.cellLen
  {
    hide Inv, Release, Check, Persist;
    var r1, r2, r3, r4 := TwoReleases(ThreadsAfter(start, steps).ring);
    var t;
    more, t := Do(start, steps, Consume(ReleaseStep));
    more, t := Do(start, more, Consume(CheckStep));
    more, t := Do(start, more, Consume(PersistStep(true)));
    more, t := Do(start, more, Consume(ReleaseStep));
  }

  /** A queued producer whose record still fits. */
  lemma {:induction false} QueuedFits(r: State, d: nat, rec: string, newId: int)
    requires Emptied(r, d) && |rec| == MAX_RECORD && d + MAX_RECORD <= r.cellLen && !HasId(r, newId)
    ensures Enabled(r, Append(rec, 1, newId))
    ensures var u := Next(r, Append(rec, 1, newId)); Emptied(u, d + MAX_RECORD) && u.cellLen == r.cellLen
  {
    StepKeepsInv(r, Append(rec, 1, newId));
  }

  /** ... and the first one whose record does not: it moves on to a free cell and still gives up. */
  lemma {:induction false} QueuedGivesUp(r: State, d: nat, rec: string, newId: int)
    requires Emptied(r, d) && |rec| == MAX_RECORD && 0 < d && d + MAX_RECORD > r.cellLen && !HasId(r, newId)
    ensures Enabled(r, Append(rec, 1, newId))
    ensures var u := Next(r, Append(rec, 1, newId));
      && u.pending == Some(rec) && u.failTime == 1 && 1 < |u.cells| && u.cur < |u.cells|
      && u.cells[u.cur].status == FREE
  {
    assert Banded(r) && r.cells[Succ(r.cur, |r.cells|)].status == FREE;
    AdvanceKeepsInv(r, 1, newId);
  }

  lemma {:induction false} DepositNext(start: Threads, steps: seq<Step>, i: nat, n: nat, d: nat)
    returns (more: seq<Step>)
    requires IsThreadRun(start, steps)
    requires var t := ThreadsAfter(start, steps);
      Queued(t, i, n) && i <= n && Emptied(t.ring, d) && d + MAX_RECORD <= t.ring.cellLen
    ensures IsThreadRun(start, more)
    ensures var t, u := ThreadsAfter(start, steps), ThreadsAfter(start, more);
      Queued(u, i + 1, n) && Emptied(u.ring, d + MAX_RECORD) && u.ring.cellLen == t.ring.cellLen
  {
    hide Inv, Produce;
    var t, u := ThreadsAfter(start, steps), ThreadsAfter(start, steps);
    assert t.producers[i] == Ready(Longest(), 1);
    var newId := FreshId(t.ring);
    QueuedFits(t.ring, d, Longest(), newId);
    more, u := Do(start, steps, Lock(i, newId));
  }

  lemma {:induction false} DropNext(start: Threads, steps: seq<Step>, i: nat, n: nat, d: nat)
    returns (more: seq<Step>, s: Step)
    requires IsThreadRun(start, steps)
    requires var t := ThreadsAfter(start, steps);
      Queued(t, i, n) && i <= n && Emptied(t.ring, d) && 0 < d && d + MAX_RECORD > t.ring.cellLen
    ensures RunDrops(start, more, s)
  {
    hide Inv, Produce;
    var t, u := ThreadsAfter(start, steps), ThreadsAfter(start, steps);
    assert t.producers[i] == Ready(Longest(), 1);
    var newId := FreshId(t.ring);
    QueuedGivesUp(t.ring, d, Longest(), newId);
    more, u := Do(start, steps, Lock(i, newId));
    s := Unlock(i);
  }

  /** The queued producers come one after the other until one does not fit any more. */
  lemma {:induction false} DropOne(start: Threads, steps: seq<Step>, i: nat, n: nat, d: nat)
    returns (more: seq<Step>, s: Step)
    requires IsThreadRun(start, steps)
    requires var t := ThreadsAfter(start, steps);
      && Queued(t, i, n) && Emptied(t.ring, d) && (0 < d || MAX_RECORD <= t.ring.cellLen)
      && i <= n + 1 && d + (n + 1 - i) * MAX_RECORD > t.ring.cellLen && d <= t.ring.cellLen
    ensures RunDrops(start, more, s)
    decreases n + 1 - i
  {
    hide Emptied, RunDrops, CanStep;
    if d + MAX_RECORD > ThreadsAfter(start, steps).ring.cellLen {
      more, s := DropNext(start, steps, i, n, d);
    } else {
      more := DepositNext(start, steps, i, n, d);
      more, s := DropOne(start, more, i + 1, n, d + MAX_RECORD);
    }
  }

  /** All producers but the first get past their reset while the ring is full ... */
  lemma {:induction false} QueueAtFull(cellLen: nat, a: int, b: int, c: int, k: nat)
    returns (steps: seq<Step>, newId: int)
    requires Buildable(cellLen, a, b, c) && 0 < k
    ensures var start := Begin(cellLen, a, b, c, k);
      && IsThreadRun(start, steps)
      && var t := ThreadsAfter(start, steps);
         Queued(t, 1, k - 1) && AboutToFail(t, newId) && t.ring.cellLen == cellLen
  {
    hide Produce, Saturated, Form, Books;
    var start := Begin(cellLen, a, b, c, k);
    steps := FillUp(cellLen, a, b, c, k);
    var t := ThreadsAfter(start, steps);
    newId := FreshId(t.ring);
    FailsAtFull(t, start.producers, newId);
    RunKeepsThreadInv(cellLen, a, b, c, k, steps);
    steps := QueueUp(start, steps, k - 1);
  }

  /** ... the first one fails and sets the failure time again, and the others then use up the cells
      the consumer clears. */
  lemma {:induction false} ManyProducersDrop(cellLen: nat, a: int, b: int, c: int, k: nat)
    returns (steps: seq<Step>, s: Step)
    requires Buildable(cellLen, a, b, c) && (k - 1) * MAX_RECORD > cellLen
    ensures RunDrops(Begin(cellLen, a, b, c, k), steps, s)
  {
    hide AboutToFail, Inv, Saturated, Emptied, RunDrops, CanStep;
    var start := Begin(cellLen, a, b, c, k);
    var newId;
    steps, newId := QueueAtFull(cellLen, a, b, c, k);
    steps := FailWhole(start, steps, newId);
    steps := EmptyTwo(start, steps);
    steps, s := DropOne(start, steps, 1, k - 1, 0);
  }

  /** A record can be dropped beside a cell that is not FULL exactly if all producers but one can
      together fill a cell with one record each. */
  lemma {:induction false} DropBesideRoomPossibleIff(cellLen: nat, a: int, b: int, c: int, k: nat)
    requires Buildable(cellLen, a, b, c)
    ensures (exists steps, s :: RunDrops(Begin(cellLen, a, b, c, k), steps, s)) <==> (k - 1) * 4095 > cellLen
  {
    var start := Begin(cellLen, a, b, c, k);
    if (k - 1) * MAX_RECORD > cellLen {
      var steps, s := ManyProducersDrop(cellLen, a, b, c, k);
      assert RunDrops(start, steps, s);
    } else {
      forall steps, s | IsThreadRun(start, steps) && CanStep(ThreadsAfter(start, steps), s)
        ensures !RunDrops(start, steps, s)
      {
        RunKeepsThreadInv(cellLen, a, b, c, k, steps);
        RunKeepsRoom(cellLen, a, b, c, k, steps);
        FewDropOnlyWhenSaturated(ThreadsAfter(start, steps), s);
      }
    }
  }
}
