/** Ring and log files together, over the days of a month. */
module LogSystem {
  import opened Options
  import opened RingModel
  import opened RingProofs
  import L = LogFiles

  datatype System = System(ring: State, files: L.Files)

  /** A step of the ring, and the day of the month on which it is taken. */
  datatype Move = Move(action: Action, day: nat)

  /** `PersistStep(ok)` here says whether an fopen would succeed; the consumer writes when a file
      is open in the end, be it an old one. */
  function SysNext(s: System, m: Move, year: int, mon: int): System
    requires 1 < |s.ring.cells| && s.ring.cur < |s.ring.cells| && L.Usable(s.files) && Enabled(s.ring, m.action)
  {
    if m.action.PersistStep? then
      var g := L.Put(s.files, L.DayOf(year, mon, m.day), m.action.isOpen, s.ring.cells[0].data);
      System(Persist(s.ring, g.fp.Some?), g)
    else System(Next(s.ring, m.action), s.files)
  }

  /** `day` is the day of the consumer's last write. */
  ghost predicate SysInv(s: System, year: int, mon: int, day: nat) {
    && Inv(s.ring) && L.MonthShape(s.files, year, mon, day, s.ring.cellLen)
    && L.MonthText(s.files.disk, year, mon, day) == s.ring.file
  }

  /** The days do not go backwards. */
  predicate Forward(day: nat, moves: seq<Move>) {
    && (forall i :: 0 <= i < |moves| ==> 1 <= moves[i].day && day <= moves[i].day)
    && (forall i, j :: 0 <= i < j < |moves| ==> moves[i].day <= moves[j].day)
  }

  /** The day of the last write after one more move. */
  function DayAfter(day: nat, m: Move): nat {
    if m.action.PersistStep? then m.day else day
  }

  function LastWrite(day: nat, moves: seq<Move>): nat
    decreases |moves|
  {
    if moves == [] then day else LastWrite(DayAfter(day, moves[0]), moves[1..])
  }

  ghost predicate SysRun(s: System, moves: seq<Move>, year: int, mon: int)
    decreases |moves|
  {
    && 1 < |s.ring.cells| && s.ring.cur < |s.ring.cells| && L.Usable(s.files)
    && (moves == [] ||
        (Enabled(s.ring, moves[0].action) && SysRun(SysNext(s, moves[0], year, mon), moves[1..], year, mon)))
  }

  ghost function SysAfter(s: System, moves: seq<Move>, year: int, mon: int): System
    requires SysRun(s, moves, year, mon)
    decreases |moves|
  {
    if moves == [] then s else SysAfter(SysNext(s, moves[0], year, mon), moves[1..], year, mon)
  }

  lemma {:induction false} SysStepKeepsInv(s: System, m: Move, year: int, mon: int, day: nat)
    requires SysInv(s, year, mon, day) && Enabled(s.ring, m.action) && day <= m.day && 1 <= m.day
    ensures SysInv(SysNext(s, m, year, mon), year, mon, DayAfter(day, m))
  {
    if m.action.PersistStep? {
      L.PutKeepsMonth(s.files, year, mon, day, m.day, m.action.isOpen, s.ring.cells[0].data, s.ring.cellLen);
      var g := L.Put(s.files, L.DayOf(year, mon, m.day), m.action.isOpen, s.ring.cells[0].data);
      PersistKeepsInv(s.ring, g.fp.Some?);
    } else {
      StepKeepsInv(s.ring, m.action);
      StepKeepsFile(s.ring, m.action);
    }
  }

  /** Only the consumer's unlocked write changes the file, and no step changes the cell size. */
  lemma StepKeepsFile(s: State, a: Action)
    requires 1 < |s.cells| && s.cur < |s.cells| && Enabled(s, a) && !a.PersistStep?
    ensures Next(s, a).file == s.file && Next(s, a).cellLen == s.cellLen
  {
  }

  lemma {:induction false} SysRunKeepsInv(s: System, moves: seq<Move>, year: int, mon: int, day: nat)
    requires SysInv(s, year, mon, day) && SysRun(s, moves, year, mon) && Forward(day, moves)
    ensures SysInv(SysAfter(s, moves, year, mon), year, mon, LastWrite(day, moves))
    decreases |moves|
  {
    if moves != [] {
      SysStepKeepsInv(s, moves[0], year, mon, day);
      SysRunKeepsInv(SysNext(s, moves[0], year, mon), moves[1..], year, mon, DayAfter(day, moves[0]));
    }
  }

  /** Some producer finishes at a step where its record goes astray. */
  ghost predicate SysMisplacing(s: System, moves: seq<Move>, year: int, mon: int)
    requires SysRun(s, moves, year, mon)
    decreases |moves|
  {
    moves != [] && ((moves[0].action.FinishStep? && Misplaces(s.ring))
                   || SysMisplacing(SysNext(s, moves[0], year, mon), moves[1..], year, mon))
  }

  lemma {:induction false} SysAstrayIff(s: System, moves: seq<Move>, year: int, mon: int, day: nat)
    requires SysInv(s, year, mon, day) && SysRun(s, moves, year, mon) && Forward(day, moves)
    ensures var t := SysAfter(s, moves, year, mon).ring;
      s.ring.astray <= t.astray && (t.astray == s.ring.astray <==> !SysMisplacing(s, moves, year, mon))
    decreases |moves|
  {
    hide Books, Form, L.MonthShape, L.MonthText;
    if moves != [] {
      SysStepKeepsInv(s, moves[0], year, mon, day);
      SysAstrayIff(SysNext(s, moves[0], year, mon), moves[1..], year, mon, DayAfter(day, moves[0]));
    }
  }

  function Beginning(cellLen: nat, a: int, b: int, c: int, disk: L.Disk): System {
    System(Init(cellLen, a, b, c), L.Files(disk, None, L.Date(0, 0, 0), 0))
  }

  /** From producers to disk: over every interleaving in which no record goes astray, over any number of
      days of a month, with files that fail to open and rotations whenever they happen, the files of all
      days, each day's from oldest to newest, and one lap of the ring are together exactly the accepted
      records, in order. */
  lemma {:induction false} DiskAndRingHoldEverything(
      cellLen: nat, a: int, b: int, c: int, disk: L.Disk, year: int, mon: int, moves: seq<Move>)
    requires Buildable(cellLen, a, b, c) && forall n: nat :: L.Vacant(disk, L.DayOf(year, mon, n))
    requires Forward(0, moves)
    requires SysRun(Beginning(cellLen, a, b, c, disk), moves, year, mon)
    requires !SysMisplacing(Beginning(cellLen, a, b, c, disk), moves, year, mon)
    ensures var s := SysAfter(Beginning(cellLen, a, b, c, disk), moves, year, mon);
      && SysInv(s, year, mon, LastWrite(0, moves))
      && L.MonthText(s.files.disk, year, mon, LastWrite(0, moves))
         + Flat(if s.ring.phase == Persisted then s.ring.cells[1..] else s.ring.cells)
         == Join(s.ring.accepted)
  {
    var start := Beginning(cellLen, a, b, c, disk);
    InitInv(cellLen, a, b, c);
    L.MonthBegins(start.files, year, mon, cellLen);
    SysRunKeepsInv(start, moves, year, mon, 0);
    SysAstrayIff(start, moves, year, mon, 0);
  }
}
