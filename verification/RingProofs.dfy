/** What every step of the ring log keeps, and what follows for every run. */
module RingProofs {
  import opened Options
  import opened RingModel

  // ---------------------------------------------------------------- flattening

  lemma {:induction false} FlatConcat(a: seq<Cell>, b: seq<Cell>)
    ensures Flat(a + b) == Flat(a) + Flat(b)
  {
    if a == [] {
      assert a + b == b;
    } else {
      FlatConcat(a[1..], b);
      assert (a + b)[1..] == a[1..] + b && (a + b)[0] == a[0];
      assert Flat(a + b) == a[0].data + (Flat(a[1..]) + Flat(b));
    }
  }

  lemma {:induction false} FlatEmpty(a: seq<Cell>)
    requires forall i :: 0 <= i < |a| ==> a[i].data == ""
    ensures Flat(a) == ""
  {
    if a != [] { FlatEmpty(a[1..]); }
  }

  /** Flattening looks at the bytes of the cells and nothing else. */
  lemma {:induction false} FlatSameData(a: seq<Cell>, b: seq<Cell>)
    requires |a| == |b| && forall i :: 0 <= i < |a| ==> a[i].data == b[i].data
    ensures Flat(a) == Flat(b)
  {
    if a != [] { FlatSameData(a[1..], b[1..]); }
  }

  /** Writing behind everything else in the ring appends to the flattened text. */
  lemma {:induction false} FlatDeposit(a: seq<Cell>, k: nat, rec: string)
    requires k < |a| && forall i :: k < i < |a| ==> a[i].data == ""
    ensures Flat(a[k := a[k].(data := a[k].data + rec)]) == Flat(a) + rec
  {
    var b := a[k := a[k].(data := a[k].data + rec)];
    if k == 0 {
      FlatEmpty(a[1..]);
      assert b[1..] == a[1..];
    } else {
      FlatDeposit(a[1..], k - 1, rec);
      assert b[1..] == a[1..][k - 1 := a[1..][k - 1].(data := a[1..][k - 1].data + rec)];
    }
  }

  lemma JoinSnoc(recs: seq<string>, rec: string)
    ensures Join(recs + [rec]) == Join(recs) + rec
  {
    assert (recs + [rec])[..|recs + [rec]| - 1] == recs;
  }

  // ---------------------------------------------------------------- the books

  /** A step that moves bytes about without losing any. */
  lemma BooksStay(s: State, t: State)
    requires 0 < |s.cells| && 0 < |t.cells| && Books(s) && Written(t) == Written(s)
    requires t.accepted == s.accepted && t.astray == s.astray && t.lost == s.lost
    requires t.astray == 0 && t.phase == Persisted ==> EndsWith(t.file, t.cells[0].data)
    ensures Books(t)
  {
  }

  /** A step that accepts a record behind everything else. */
  lemma BooksGrow(s: State, t: State, rec: string)
    requires 0 < |s.cells| && 0 < |t.cells| && Books(s) && Written(t) == Written(s) + rec
    requires t.accepted == s.accepted + [rec] && t.astray == s.astray && t.lost == s.lost
    requires t.astray == 0 && t.phase == Persisted ==> EndsWith(t.file, t.cells[0].data)
    ensures Books(t)
  {
    JoinSnoc(s.accepted, rec);
  }

  /** A change of statuses, or of which cell is current, moves no byte. */
  lemma BooksSameData(s: State, t: State)
    requires 0 < |s.cells| == |t.cells| && Books(s) && t.file == s.file
        && (t.phase == Persisted <==> s.phase == Persisted)
    requires forall i :: 0 <= i < |s.cells| ==> t.cells[i].data == s.cells[i].data
    requires t.accepted == s.accepted && t.astray == s.astray && t.lost == s.lost
    ensures Books(t) && Written(t) == Written(s)
  {
    FlatSameData(t.cells, s.cells);
    FlatSameData(t.cells[1..], s.cells[1..]);
  }

  // ---------------------------------------------------------------- steps

  lemma {:induction false} DepositWrites(s: State, rec: string)
    requires Form(s) && Fits(s, rec)
    ensures Written(Deposit(s, rec)) == Written(s) + rec
    ensures s.phase == Persisted ==> Deposit(s, rec).cells[0] == s.cells[0]
  {
    assert Banded(s) && s.cur < |s.cells| && (s.phase in {Claimed, Persisted} ==> 0 < s.cur);
    assert forall i :: s.cur < i < |s.cells| ==> s.cells[i].data == "";
    hide Form, Banded, Join;
    if s.phase == Persisted {
      var tail, k := s.cells[1..], s.cur - 1;
      FlatDeposit(tail, k, rec);
      assert Deposit(s, rec).cells[1..] == tail[k := tail[k].(data := tail[k].data + rec)];
    } else {
      FlatDeposit(s.cells, s.cur, rec);
    }
  }

  lemma DepositKeepsForm(s: State, rec: string)
    requires Form(s) && s.pending.None? && Fits(s, rec)
    ensures Form(Deposit(s, rec))
  {
  }

  lemma {:induction false} DepositKeepsInv(s: State, rec: string)
    requires Inv(s) && s.pending.None? && Fits(s, rec)
    ensures Inv(Deposit(s, rec))
  {
    DepositKeepsForm(s, rec);
    DepositWrites(s, rec);
    BooksGrow(s, Deposit(s, rec), rec);
  }

  /** The 32-bit product never wraps, so the growth check compares the true footprint. */
  lemma FootprintExact(s: State)
    requires Sized(s)
    ensures Footprint32(s.cellLen, Count(s) + 1) == s.cellLen * (Count(s) + 1)
  {
    assert s.cellLen * (Count(s) + 1) == s.cellLen * Count(s) + s.cellLen;
  }

  lemma GrowAtEnd(s: State, newId: int)
    requires s.cur == |s.cells| - 1
    ensures Grow(s, newId) == s.(cells := s.cells + [Cell(newId, FREE, "")], cur := |s.cells|)
  {
  }

  lemma {:induction false} GrowKeepsBooks(m: State, newId: int)
    requires 0 < |m.cells| && m.cur == |m.cells| - 1 && Books(m)
    ensures Books(Grow(m, newId))
  {
    var t, added := Grow(m, newId), [Cell(newId, FREE, "")];
    GrowAtEnd(m, newId);
    assert t.cells[1..] == m.cells[1..] + added;
    FlatEmpty(added);
    FlatConcat(m.cells, added);
    FlatConcat(m.cells[1..], added);
    BooksStay(m, t);
  }

  /** A ring whose cells are all FULL and which may grow: the new cell becomes the current one. */
  lemma {:induction false} GrowKeepsInv(m: State, newId: int)
    requires Sized(m) && Identified(m) && Books(m) && m.pending.None? && !HasId(m, newId)
    requires m.cur == |m.cells| - 1 && m.cellLen * (Count(m) + 1) <= LOG_FILE_MEM_LIMIT
    requires forall i :: 0 <= i < |m.cells| ==> m.cells[i].status == FULL && m.cells[i].data != ""
    ensures Inv(Grow(m, newId)) && Grow(m, newId).cells[m.cur + 1] == Cell(newId, FREE, "")
  {
    GrowKeepsBooks(m, newId);
    GrowAtEnd(m, newId);
    assert forall i :: 0 <= i < |m.cells| ==> Grow(m, newId).cells[i] == m.cells[i];
  }

  lemma {:induction false} MarkKeepsBooks(s: State)
    requires Sized(s) && Identified(s) && Books(s)
    ensures var m := MarkCurFull(s); Sized(m) && Identified(m) && Books(m)
  {
    BooksSameData(s, MarkCurFull(s));
  }

  /** Where the current pointer of a well-formed ring goes: with a FULL next cell every cell is FULL
      once the current one is, and the next one is the consumer's. */
  lemma NextFullMeansAllFull(s: State)
    requires Form(s) && s.cells[s.cur].status == FREE && s.cells[s.cur].data != ""
    ensures var m, next := MarkCurFull(s), Succ(s.cur, |s.cells|);
      if m.cells[next].status == FULL
      then s.cur == |s.cells| - 1
        && forall i :: 0 <= i < |m.cells| ==> m.cells[i].status == FULL && m.cells[i].data != ""
      else s.cur < |s.cells| - 1 && Banded(m.(cur := next)) && m.cells[next].data == ""
  {
    assert Banded(s);
  }

  /** The next cell is FULL, and one more cell would exceed the limit. */
  predicate NoMoreRoom(s: State)
    requires s.cur < |s.cells|
  {
    s.cells[Succ(s.cur, |s.cells|)].status == FULL && s.cellLen * (Count(s) + 1) > LOG_FILE_MEM_LIMIT
  }

  lemma {:induction false} MovesOn(s: State)
    requires Inv(s) && s.pending.None? && s.cells[s.cur].status == FREE && s.cells[s.cur].data != ""
    requires s.cells[Succ(s.cur, |s.cells|)].status == FREE
    ensures Inv(MarkCurFull(s).(cur := Succ(s.cur, |s.cells|)))
  {
    NextFullMeansAllFull(s);
    BooksSameData(s, MarkCurFull(s).(cur := Succ(s.cur, |s.cells|)));
  }

  lemma {:induction false} Fails(s: State, now: nat)
    requires Inv(s) && s.pending.None? && s.cells[s.cur].status == FREE && s.cells[s.cur].data != "" && NoMoreRoom(s)
    ensures var t := MarkCurFull(s).(cur := Succ(s.cur, |s.cells|), failTime := now);
      Inv(t) && Saturated(t) && t.cells[0] == s.cells[0]
  {
    NextFullMeansAllFull(s);
    BooksSameData(s, MarkCurFull(s).(cur := Succ(s.cur, |s.cells|), failTime := now));
  }

  /** Marking the current cell FULL and moving on keeps the invariant whichever way it goes;
      unless the ring is saturated afterwards the new current cell is FREE and empty. */
  lemma {:induction false} AdvanceKeepsInv(s: State, now: nat, newId: int)
    requires Inv(s) && s.pending.None? && s.cells[s.cur].status == FREE && s.cells[s.cur].data != "" && !HasId(s, newId)
    ensures var t := Advance(MarkCurFull(s), now, newId);
      && Inv(t) && t.accepted == s.accepted && t.pending.None?
      && if NoMoreRoom(s) then Saturated(t) && t.failTime == now && t.cells[0] == s.cells[0]
         else t.cells[t.cur] == Cell(t.cells[t.cur].id, FREE, "") && t.failTime == s.failTime
  {
    hide Books;
    var m, next := MarkCurFull(s), Succ(s.cur, |s.cells|);
    FootprintExact(s);
    assert m.cells[next] == s.cells[next];
    NextFullMeansAllFull(s);
    if s.cells[next].status == FREE {
      MovesOn(s);
    } else if NoMoreRoom(s) {
      Fails(s, now);
    } else {
      MarkKeepsBooks(s);
      assert forall i :: 0 <= i < |s.cells| ==> m.cells[i].id == s.cells[i].id;
      GrowKeepsInv(m, newId);
    }
  }

  lemma PendingKeepsInv(s: State, rec: string)
    requires Inv(s) && s.pending.None? && 0 < |rec| < ONE_LOG_LEN && (Saturated(s) || s.cells[s.cur].data == "")
    ensures Inv(s.(pending := Some(rec)))
  {
    BooksSameData(s, s.(pending := Some(rec)));
  }

  lemma {:induction false} ProduceKeepsInv(s: State, rec: string, now: nat, newId: int)
    requires Inv(s) && Enabled(s, Append(rec, now, newId))
    ensures Inv(Produce(s, rec, now, newId))
  {
    if Fits(s, rec) {
      DepositKeepsInv(s, rec);
    } else if s.cells[s.cur].status == FREE {
      AdvanceKeepsInv(s, now, newId);
      PendingKeepsInv(Advance(MarkCurFull(s), now, newId), rec);
    }
  }

  lemma {:induction false} MisplacedKeepsInv(s: State)
    requires Inv(s) && Misplaces(s)
    ensures Inv(Finish(s))
  {
    var rec := s.pending.value;
    var first := s.cells[0].(data := s.cells[0].data + rec);
    assert Saturated(s) && Finish(s).cells == s.cells[0 := first] && Finish(s).cells[1..] == s.cells[1..];
    JoinSnoc(s.accepted, rec);
  }

  lemma NothingPending(s: State)
    requires Inv(s)
    ensures Inv(s.(pending := None))
  {
    BooksSameData(s, s.(pending := None));
  }

  lemma {:induction false} FinishKeepsInv(s: State)
    requires Inv(s) && s.pending.Some?
    ensures Inv(Finish(s))
  {
    hide Books, Identified;
    if Misplaces(s) {
      MisplacedKeepsInv(s);
    } else {
      NothingPending(s);
      if s.failTime == 0 && !Saturated(s) { DepositKeepsInv(s.(pending := None), s.pending.value); }
    }
  }

  /** What a misplaced record does to the text: ahead of everything in the other cells if the
      consumer has not written its cell yet, and nowhere if it has. */
  lemma {:induction false} MisplacedText(s: State)
    requires Inv(s) && Misplaces(s)
    ensures var t, rec := Finish(s), s.pending.value;
      && t.accepted == s.accepted + [rec] && Flat(s.cells[1..]) != ""
      && Written(t) == if s.phase == Persisted then Written(s)
                       else s.file + (s.cells[0].data + rec + Flat(s.cells[1..]))
  {
    var first := s.cells[0].(data := s.cells[0].data + s.pending.value);
    assert Saturated(s) && Finish(s).cells == s.cells[0 := first] && Finish(s).cells[1..] == s.cells[1..];
    assert s.cells[1..][0] == s.cells[1];
  }

  /** The assertion in the consumer's first critical section always holds: a FREE cell with
      bytes in it can only be the producers' current cell. */
  lemma {:induction false} ConsumerAssertHolds(s: State)
    requires Form(s) && s.cells[0].status == FREE && s.cells[0].data != ""
    ensures s.cur == 0
  {
    assert Banded(s);
    assert 0 <= s.cur;
  }

  /** The consumer finds its cell empty, or FULL. */
  lemma PassKeepsInv(s: State)
    requires Inv(s) && s.pending.None? && s.phase in {Idle, Waiting}
        && (s.cells[0].data == "" || s.cells[0].status == FULL)
    ensures Inv(Claim(s)) && Written(Claim(s)) == Written(s)
  {
    BooksSameData(s, Claim(s));
  }

  /** ... or takes over the producers' current cell. */
  lemma TakeKeepsInv(s: State)
    requires Inv(s) && s.pending.None? && s.phase in {Idle, Waiting}
    requires s.cells[0].data != "" && s.cells[0].status == FREE
    ensures Inv(Claim(s)) && Written(Claim(s)) == Written(s)
  {
    ConsumerAssertHolds(s);
    BooksSameData(s, Claim(s));
  }

  lemma {:induction false} ClaimKeepsInv(s: State)
    requires Inv(s) && s.pending.None? && s.phase in {Idle, Waiting}
    ensures Inv(Claim(s)) && Written(Claim(s)) == Written(s)
    ensures Claim(s).phase == if s.cells[0].data == "" then Idle else Claimed
  {
    if s.cells[0].data != "" && s.cells[0].status == FREE { TakeKeepsInv(s); } else { PassKeepsInv(s); }
  }

  lemma {:induction false} PersistKeepsInv(s: State, isOpen: bool)
    requires Inv(s) && s.phase == Claimed
    ensures Inv(Persist(s, isOpen)) && Written(Persist(s, isOpen)) == Written(s)
  {
    var first, rest := s.cells[0].data, Flat(s.cells[1..]);
    assert s.file + (first + rest) == (s.file + first) + rest;
    BooksStay(s, Persist(s, isOpen));
  }

  lemma {:induction false} ReleaseKeepsBooks(s: State)
    requires 1 < |s.cells| && s.cur < |s.cells| && Books(s) && s.phase == Persisted
    ensures Books(Release(s)) && Written(Release(s)) == Written(s)
  {
    var last := s.cells[0].(status := FREE, data := "");
    FlatConcat(s.cells[1..], [last]);
    FlatEmpty([last]);
    BooksStay(s, Release(s));
  }

  lemma {:induction false} ReleaseKeepsInv(s: State)
    requires Inv(s) && s.pending.None? && s.phase == Persisted
    ensures Inv(Release(s)) && Written(Release(s)) == Written(s)
  {
    ReleaseKeepsBooks(s);
    var t := Release(s);
    assert forall i :: 0 <= i < |s.cells| - 1 ==> t.cells[i] == s.cells[i + 1];
    assert t.cells[|s.cells| - 1] == s.cells[0].(status := FREE, data := "");
  }

  /** Every step of every thread keeps the invariant. */
  lemma {:induction false} StepKeepsInv(s: State, a: Action)
    requires Inv(s) && Enabled(s, a)
    ensures Inv(Next(s, a))
  {
    match a
    case Reset => BooksSameData(s, Next(s, a));
    case Append(rec, now, newId) => ProduceKeepsInv(s, rec, now, newId);
    case FinishStep => FinishKeepsInv(s);
    case CheckStep =>
      if s.cells[0].status == FULL { ClaimKeepsInv(s); } else { BooksSameData(s, Next(s, a)); }
    case WakeStep => ClaimKeepsInv(s);
    case PersistStep(isOpen) => PersistKeepsInv(s, isOpen);
    case ReleaseStep => ReleaseKeepsInv(s);
  }

  lemma {:induction false} InitInv(cellLen: nat, a: int, b: int, c: int)
    requires Buildable(cellLen, a, b, c)
    ensures Inv(Init(cellLen, a, b, c))
  {
    var s := Init(cellLen, a, b, c);
    InitForm(cellLen, a, b, c);
    FlatEmpty(s.cells);
    assert Join(s.accepted) == "" && Written(s) == "";
  }

  lemma InitForm(cellLen: nat, a: int, b: int, c: int)
    requires Buildable(cellLen, a, b, c)
    ensures Form(Init(cellLen, a, b, c))
  {
    var s := Init(cellLen, a, b, c);
    assert Banded(s) && s.cellLen * Count(s) <= 3 * MAX_CELL_LEN;
  }

  // ---------------------------------------------------------------- runs

  lemma {:induction false} RunKeepsInv(s: State, steps: seq<Action>)
    requires Inv(s) && IsRun(s, steps)
    ensures Inv(After(s, steps))
    decreases |steps|
  {
    if steps != [] {
      StepKeepsInv(s, steps[0]);
      RunKeepsInv(Next(s, steps[0]), steps[1..]);
    }
  }

  /** Some producer finishes at a step where its record goes astray. */
  ghost predicate Misplacing(s: State, steps: seq<Action>)
    requires IsRun(s, steps)
    decreases |steps|
  {
    steps != [] && ((steps[0].FinishStep? && Misplaces(s)) || Misplacing(Next(s, steps[0]), steps[1..]))
  }

  /** ... and finds the cell it goes to already written. */
  ghost predicate Losing(s: State, steps: seq<Action>)
    requires IsRun(s, steps)
    decreases |steps|
  {
    steps != [] && ((steps[0].FinishStep? && Misplaces(s) && s.phase == Persisted)
                   || Losing(Next(s, steps[0]), steps[1..]))
  }

  lemma {:induction false} AstrayIff(s: State, steps: seq<Action>)
    requires Inv(s) && IsRun(s, steps)
    ensures var t := After(s, steps);
      && s.astray <= t.astray && s.lost <= t.lost
      && (t.astray == s.astray <==> !Misplacing(s, steps)) && (t.lost == s.lost <==> !Losing(s, steps))
    decreases |steps|
  {
    if steps != [] {
      StepKeepsInv(s, steps[0]);
      AstrayIff(Next(s, steps[0]), steps[1..]);
    }
  }

  /** Over every interleaving of one consumer and any number of producers in which no record goes
      astray: the file followed by one lap of the ring is exactly the accepted records in order. */
  lemma {:induction false} NothingLostOrReordered(cellLen: nat, a: int, b: int, c: int, steps: seq<Action>)
    requires Buildable(cellLen, a, b, c) && IsRun(Init(cellLen, a, b, c), steps)
    requires !Misplacing(Init(cellLen, a, b, c), steps)
    ensures var s := After(Init(cellLen, a, b, c), steps); |s.cells| > 0 && Written(s) == Join(s.accepted)
  {
    InitInv(cellLen, a, b, c);
    AstrayIff(Init(cellLen, a, b, c), steps);
    RunKeepsInv(Init(cellLen, a, b, c), steps);
  }

  /** Over every interleaving at all, no byte is missing exactly if none went into a cell that had
      been written. */
  lemma {:induction false} NothingLostIff(cellLen: nat, a: int, b: int, c: int, steps: seq<Action>)
    requires Buildable(cellLen, a, b, c) && IsRun(Init(cellLen, a, b, c), steps)
    ensures var s := After(Init(cellLen, a, b, c), steps);
      |s.cells| > 0 && (|Written(s)| == |Join(s.accepted)| <==> !Losing(Init(cellLen, a, b, c), steps))
  {
    InitInv(cellLen, a, b, c);
    AstrayIff(Init(cellLen, a, b, c), steps);
    RunKeepsInv(Init(cellLen, a, b, c), steps);
  }

  /** A log file that cannot be opened costs the consumer a turn and nothing else: it claims the same cell
      again, at once. */
  lemma FailedOpenRetries(s: State)
    requires Inv(s) && s.phase == Claimed && s.pending.None?
    ensures Enabled(s, PersistStep(false)) && Enabled(Next(s, PersistStep(false)), CheckStep)
    ensures Next(Next(s, PersistStep(false)), CheckStep) == s
  {
    assert Banded(s) || Saturated(s);
  }

  /** Over every run the memory stays within the limit, and a FULL cell right after a FREE
      current one can only be the consumer's. */
  lemma {:induction false} RingShape(cellLen: nat, a: int, b: int, c: int, steps: seq<Action>)
    requires Buildable(cellLen, a, b, c)
    requires IsRun(Init(cellLen, a, b, c), steps)
    ensures var s := After(Init(cellLen, a, b, c), steps); var n := |s.cells|;
      && 3 <= Count(s) && 2 <= n && s.cur < n && s.cellLen == cellLen && s.spare == (if b == c then 1 else 0)
      && cellLen * Count(s) <= 3221225472
      && (cellLen * (Count(s) + 1)) % 4294967296 == cellLen * (Count(s) + 1)
      && (forall i, j :: 0 <= i < j < n ==> s.cells[i].id != s.cells[j].id)
      && s.storedId == s.cells[0].id
      && (Banded(s) || Saturated(s))
      && (s.cells[s.cur].status == FREE && s.cells[Succ(s.cur, n)].status == FULL ==> Succ(s.cur, n) == 0)
  {
    hide Books;
    var s0 := Init(cellLen, a, b, c);
    InitInv(cellLen, a, b, c);
    RunKeepsInv(s0, steps);
    FootprintExact(After(s0, steps));
    SizesConstant(s0, steps);
  }

  lemma {:induction false} SizesConstant(s: State, steps: seq<Action>)
    requires IsRun(s, steps)
    ensures After(s, steps).cellLen == s.cellLen && After(s, steps).spare == s.spare
    decreases |steps|
  {
    if steps != [] { SizesConstant(Next(s, steps[0]), steps[1..]); }
  }

  /** States the log can be in: the end of some run from the state the constructor leaves. */
  ghost predicate Reachable(s: State) {
    exists cellLen, a, b, c, steps ::
      && Buildable(cellLen, a, b, c)
      && IsRun(Init(cellLen, a, b, c), steps) && After(Init(cellLen, a, b, c), steps) == s
  }

  lemma {:induction false} RunSnoc(s: State, steps: seq<Action>, a: Action)
    requires IsRun(s, steps) && Enabled(After(s, steps), a)
    requires var t := After(s, steps); 1 < |t.cells| && t.cur < |t.cells| && IsRun(Next(t, a), [])
    ensures IsRun(s, steps + [a]) && After(s, steps + [a]) == Next(After(s, steps), a)
    decreases |steps|
  {
    if steps == [] {
      assert [a][1..] == [];
    } else {
      RunSnoc(Next(s, steps[0]), steps[1..], a);
      assert (steps + [a])[1..] == steps[1..] + [a];
    }
  }

  lemma ReachableInv(s: State)
    requires Reachable(s)
    ensures Inv(s)
  {
    var cellLen, a, b, c, steps :|
      && Buildable(cellLen, a, b, c)
      && IsRun(Init(cellLen, a, b, c), steps) && After(Init(cellLen, a, b, c), steps) == s;
    InitInv(cellLen, a, b, c);
    RunKeepsInv(Init(cellLen, a, b, c), steps);
  }

  lemma ReachableStep(s: State, action: Action)
    requires Reachable(s) && Enabled(s, action)
    ensures 1 < |s.cells| && s.cur < |s.cells| && Reachable(Next(s, action))
  {
    ReachableInv(s);
    StepKeepsInv(s, action);
    var cellLen, a, b, c, steps :|
      && Buildable(cellLen, a, b, c)
      && IsRun(Init(cellLen, a, b, c), steps) && After(Init(cellLen, a, b, c), steps) == s;
    RunSnoc(Init(cellLen, a, b, c), steps, action);
  }

  lemma ReachableInit(cellLen: nat, a: int, b: int, c: int)
    requires Buildable(cellLen, a, b, c)
    ensures Reachable(Init(cellLen, a, b, c))
  {
    assert IsRun(Init(cellLen, a, b, c), []);
  }

  // ---------------------------------------------------------------- dropped records

  /** A FULL cell right after the current one is always the consumer's. */
  lemma NextFullIsConsumers(s: State)
    requires Reachable(s)
    ensures 1 < |s.cells| && s.cur < |s.cells|
    ensures s.cells[s.cur].status == FREE && s.cells[Succ(s.cur, |s.cells|)].status == FULL ==> s.cur == |s.cells| - 1
  {
    ReachableInv(s);
  }

  /** A producer's whole critical section, when nothing falls in between. */
  function Undisturbed(s: State, rec: string, now: nat, newId: int): State
    requires s.cur < |s.cells|
  {
    var t := Produce(s, rec, now, newId);
    if t.pending.Some? && t.cur < |t.cells| then Finish(t) else t
  }

  /** Exactly when a record is dropped, if nothing falls in between: the current cell is FULL; or the
      record does not fit and the next cell is FULL and one more cell would exceed the limit; or it
      does not fit while a failure time is set. */
  lemma {:induction false} DroppedIff(s: State, rec: string, now: nat, newId: int)
    requires Inv(s) && Enabled(s, Append(rec, now, newId))
    ensures Undisturbed(s, rec, now, newId).accepted == (
        if s.cells[s.cur].status == FULL || (!Fits(s, rec) && (s.failTime != 0 || NoMoreRoom(s)))
        then s.accepted else s.accepted + [rec])
  {
    if s.cells[s.cur].status == FREE && !Fits(s, rec) { AdvanceKeepsInv(s, now, newId); }
  }

  /** Up to its second look at the failure time a producer drops its record exactly if every cell is
      FULL; the ring may then not grow. */
  lemma {:induction false} TurnedAwayIff(s: State, rec: string, now: nat, newId: int)
    requires Inv(s) && Enabled(s, Append(rec, now, newId))
    ensures var t := Produce(s, rec, now, newId);
      && (t.accepted == s.accepted && t.pending.None? <==> Saturated(s))
      && (Saturated(s) ==> Saturated(t) && s.cellLen * (Count(s) + 1) > 3221225472 && t.failTime == now)
  {
    assert |s.accepted + [rec]| != |s.accepted|;
    assert s.cells[s.cur].status == FULL <==> Saturated(s);
  }

  /** A producer keeps away for five seconds, and if the clock was set back past the failure for all but
      the last readings of 64 bits, not at all. */
  lemma ThrottledIff(failTime: nat, now: nat)
    ensures failTime <= now < UINT64 ==> (Throttled(failTime, now) <==> failTime != 0 && now < failTime + 5)
    ensures now < failTime < UINT64 ==> (Throttled(failTime, now) <==> failTime - now > UINT64 - 5)
  {
    if now < failTime < UINT64 { assert (now - failTime) % UINT64 == now - failTime + UINT64; }
  }

  /** From there on it does so exactly if a failure time is set or it has no room, and with no failure
      time set only into a ring whose every cell is FULL. */
  lemma {:induction false} GivenUpIff(s: State)
    requires Inv(s) && s.pending.Some?
    ensures Finish(s).accepted == s.accepted <==>
      s.failTime != 0 || (Saturated(s) && |s.cells[0].data| + |s.pending.value| > s.cellLen)
  {
    assert |s.accepted + [s.pending.value]| != |s.accepted|;
  }

  // ---------------------------------------------------------------- the claimed cell

  predicate ByProducers(steps: seq<Action>) {
    forall i :: 0 <= i < |steps| ==> steps[i].Reset? || steps[i].Append? || steps[i].FinishStep?
  }

  /** What the consumer relies on while it is between its two critical sections. */
  predicate Untouched(s: State, t: State) {
    && 1 < |s.cells| && 1 < |t.cells| && t.cells[0] == s.cells[0] && t.cells[1].id == s.cells[1].id
    && t.phase == s.phase && t.file == s.file && t.storedId == s.storedId
  }

  lemma {:induction false} ProduceLeavesClaimedCell(s: State, rec: string, now: nat, newId: int)
    requires Inv(s) && s.phase in {Claimed, Persisted} && Enabled(s, Append(rec, now, newId))
    ensures Untouched(s, Produce(s, rec, now, newId))
  {
    if s.cells[s.cur].status == FREE && !Fits(s, rec) {
      NextFullMeansAllFull(s);
      assert 0 < s.cur;
    }
  }

  /** The rest of a producer's section touches the claimed cell exactly when its record goes astray. */
  lemma {:induction false} FinishLeavesClaimedCellIff(s: State)
    requires Inv(s) && s.phase in {Claimed, Persisted} && s.pending.Some?
    ensures var t := Finish(s);
      && (Untouched(s, t) <==> !Misplaces(s))
      && Untouched(s.(cells := s.cells[0 := t.cells[0]]), t) && s.cells[0].data <= t.cells[0].data
  {
    assert Banded(s) ==> 0 < s.cur;
    if Misplaces(s) { assert |Finish(s).cells[0].data| > |s.cells[0].data|; }
  }

  /** Between the consumer's two critical sections, producers' steps, however many and however the ring
      grows or wraps, leave the cell being written as it is exactly if no record goes astray; the
      cell linked behind it they never touch. */
  lemma {:induction false} ClaimedCellFrozenIff(s: State, steps: seq<Action>)
    requires Inv(s) && s.phase in {Claimed, Persisted} && IsRun(s, steps) && ByProducers(steps)
    ensures var t := After(s, steps);
      && 1 < |s.cells| && 0 < |t.cells| && s.cells[0].data <= t.cells[0].data
      && (Untouched(s, t) <==> !Misplacing(s, steps))
      && Untouched(s.(cells := s.cells[0 := t.cells[0]]), t)
    decreases |steps|
  {
    if steps != [] {
      var t := Next(s, steps[0]);
      assert steps[0].Reset? || steps[0].Append? || steps[0].FinishStep?;
      StepKeepsInv(s, steps[0]);
      if steps[0].Append? {
        ProduceLeavesClaimedCell(s, steps[0].rec, steps[0].now, steps[0].newId);
      } else if steps[0].FinishStep? {
        FinishLeavesClaimedCellIff(s);
      }
      ClaimedCellFrozenIff(t, steps[1..]);
    }
  }

  // ---------------------------------------------------------------- draining

  /** One turn of the consumer's loop with a file that opens and no producer in between. */
  function Round(s: State): (steps: seq<Action>)
    requires 1 < |s.cells| && s.cur < |s.cells|
  {
    (if s.cells[0].status == FREE then [CheckStep, WakeStep] else [CheckStep])
    + (if s.cells[0].data == "" then [] else [PersistStep(true), ReleaseStep])
  }

  function Busy(cells: seq<Cell>): nat {
    if cells == [] then 0 else (if cells[0].data == "" then 0 else 1) + Busy(cells[1..])
  }

  lemma {:induction false} BusyConcat(a: seq<Cell>, b: seq<Cell>)
    ensures Busy(a + b) == Busy(a) + Busy(b)
  {
    if a == [] {
      assert a + b == b;
    } else {
      BusyConcat(a[1..], b);
      assert (a + b)[1..] == a[1..] + b;
    }
  }

  lemma {:induction false} BusySameData(a: seq<Cell>, b: seq<Cell>)
    requires |a| == |b| && forall i :: 0 <= i < |a| ==> a[i].data == b[i].data
    ensures Busy(a) == Busy(b) <= |a|
  {
    if a != [] { BusySameData(a[1..], b[1..]); }
  }

  lemma {:induction false} BusyZero(a: seq<Cell>)
    ensures Busy(a) == 0 <==> forall i :: 0 <= i < |a| ==> a[i].data == ""
  {
    if a != [] {
      BusyZero(a[1..]);
      assert forall i :: 1 <= i < |a| ==> a[i] == a[1..][i - 1];
    }
  }

  /** A round on a ring with bytes in it persists exactly one non-empty cell; in particular the
      consumer is never stuck on a FULL cell with nothing in it. */
  lemma {:induction false} RoundMakesProgress(s: State)
    requires Inv(s) && s.pending.None? && s.phase == Idle && Flat(s.cells) != ""
    ensures s.cells[0].data != "" && IsRun(s, Round(s))
    ensures var t := After(s, Round(s));
      && Inv(t) && t.pending.None? && t.phase == Idle && |t.cells| == |s.cells| && Written(t) == Written(s)
      && Busy(t.cells) == Busy(s.cells) - 1
      && |Flat(t.cells)| < |Flat(s.cells)|
  {
    if s.cells[0].data == "" { FlatEmpty(s.cells); }
    var c := RoundClaims(s);
    PersistKeepsInv(c, true);
    ReleaseKeepsInv(Persist(c, true));
    PersistedCellEmpties(s.cells, c.cells);
    RoundEnds(s, c, Release(Persist(c, true)));
  }

  /** The first half of the turn. */
  lemma {:induction false} RoundClaims(s: State) returns (c: State)
    requires Inv(s) && s.pending.None? && s.phase == Idle && s.cells[0].data != ""
    ensures c == if s.cells[0].status == FREE then Claim(Check(s)) else Check(s)
    ensures Inv(c) && c.pending.None? && c.phase == Claimed && Written(c) == Written(s)
    ensures |c.cells| == |s.cells| && forall i :: 0 <= i < |s.cells| ==> c.cells[i].data == s.cells[i].data
  {
    c := if s.cells[0].status == FREE then Claim(Check(s)) else Check(s);
    if s.cells[0].status == FREE { BooksSameData(s, Check(s)); }
    ClaimKeepsInv(if s.cells[0].status == FREE then Check(s) else s);
  }

  /** Writing out the first cell, emptied and moved to the end, takes its bytes and no others away. */
  lemma PersistedCellEmpties(before: seq<Cell>, cells: seq<Cell>)
    requires |before| == |cells| > 0 && before[0].data != ""
    requires forall i :: 0 <= i < |cells| ==> cells[i].data == before[i].data
    ensures var after := cells[1..] + [cells[0].(status := FREE, data := "")];
      Busy(after) == Busy(before) - 1 && |Flat(after)| < |Flat(before)|
  {
    var last := cells[0].(status := FREE, data := "");
    BusySameData(before, cells);
    BusyConcat(cells[1..], [last]);
    assert Busy([last]) == 0;
    FlatSameData(before, cells);
    FlatConcat(cells[1..], [last]);
    FlatEmpty([last]);
  }

  lemma {:induction false} RoundEnds(s: State, c: State, t: State)
    requires Inv(s) && s.pending.None? && s.phase == Idle && s.cells[0].data != ""
    requires c == if s.cells[0].status == FREE then Claim(Check(s)) else Check(s)
    requires c.phase == Claimed && c.pending.None? && 1 < |c.cells| && c.cur < |c.cells|
    requires t == Release(Persist(c, true)) && 1 < |t.cells| && t.cur < |t.cells|
    ensures IsRun(s, Round(s)) && After(s, Round(s)) == t
  {
    var tail := [PersistStep(true), ReleaseStep];
    assert tail[1..] == [ReleaseStep] && [ReleaseStep][1..] == [];
    assert IsRun(t, []);
    assert IsRun(Persist(c, true), [ReleaseStep]) && After(Persist(c, true), [ReleaseStep]) == t;
    assert IsRun(c, tail) && After(c, tail) == t;
    if s.cells[0].status == FREE {
      assert Round(s)[1..] == [WakeStep] + tail && ([WakeStep] + tail)[1..] == tail;
      assert IsRun(Check(s), [WakeStep] + tail) && After(Check(s), [WakeStep] + tail) == t;
    } else {
      assert Round(s)[1..] == tail;
    }
  }

  /** `k` turns of the consumer's loop; it simply waits once the ring is empty. */
  ghost function Drain(s: State, k: nat): State
    requires Inv(s) && s.pending.None? && s.phase == Idle
    decreases k
  {
    if k == 0 || Flat(s.cells) == "" then s
    else RoundMakesProgress(s); Drain(After(s, Round(s)), k - 1)
  }

  /** With producers quiet and files that open, as many turns as there are cells empty the ring
      and leave everything in the file. */
  lemma {:induction false} DrainsWithinOneLap(s: State, k: nat)
    requires Inv(s) && s.pending.None? && s.phase == Idle && Busy(s.cells) <= k
    ensures var t := Drain(s, k);
      Flat(t.cells) == "" && t.file == Written(s) && (s.astray == 0 ==> t.file == Join(s.accepted))
    decreases k
  {
    if Flat(s.cells) == "" {
    } else {
      RoundMakesProgress(s);
      BusyZero(s.cells);
      BusySameData(s.cells, s.cells);
      DrainsWithinOneLap(After(s, Round(s)), k - 1);
    }
  }

  lemma {:induction false} BusyAtMostCount(s: State)
    ensures Busy(s.cells) <= |s.cells|
  {
    BusySameData(s.cells, s.cells);
  }
}
