/** The ring log as a state machine: one step per critical section.

    Cells are listed in ring order from the cell the consumer will persist next
    (`m_pPrstBuf`), so that cell is always `cells[0]`; `cur` is the position of the cell
    the producers write to (`m_pCurBuf`).  Any number of producers take `Reset`, `Append` and
    `FinishStep` steps, one consumer takes the others, in any order that the lock and the
    consumer's own program counter allow.

    The failure time is the one variable that is written outside the lock, so a producer's
    critical section is two steps: `Append` up to the second look at the failure time, and
    `FinishStep` from there on.  A `Reset` by another producer may fall in between. */
module RingModel {
  import opened Options

  const MIB := 1024 * 1024
  const LOG_FILE_MEM_LIMIT := 3 * 1024 * MIB
  const MIN_CELL_LEN := 10 * MIB
  const MAX_CELL_LEN := 50 * MIB
  const ONE_LOG_LEN := 4 * 1024
  const UINT32 := 0x1_0000_0000
  const UINT64 := 0x1_0000_0000_0000_0000
  const RELOG_THRESHOLD := 5

  datatype Status = FREE | FULL

  datatype Cell = Cell(id: int, status: Status, data: string)

  /** Where the consumer is: before the lock, in the timed wait, between its two critical
      sections with the cell not yet written, and the same with the cell written. */
  datatype Phase = Idle | Waiting | Claimed | Persisted

  datatype State = State(
    cells: seq<Cell>,
    cur: nat,
    failTime: nat,          // m_uLastLogFailTime, 0 when there is none
    cellLen: nat,           // m_uOneBuffLen
    phase: Phase,
    storedId: int,          // the shared-memory id published for crash recovery
    file: string,           // every byte the consumer has written so far
    accepted: seq<string>,  // every record copied into a cell, in order
    spare: nat,             // cells counted in m_iBuffCnt that have no segment of their own
    pending: Option<string>, // the record of a producer that holds the lock between its two steps
    astray: nat,            // records copied into the consumer's cell instead of a free one
    lost: nat)              // bytes of those that found the cell already written

  /** The constructor asks for three segments.  When the last two requests name the same one, the
      ring has two cells and the count is three all the same. */
  function Init(cellLen: nat, a: int, b: int, c: int): State {
    if b == c
    then State([Cell(a, FREE, ""), Cell(b, FREE, "")], 0, 0, cellLen, Idle, a, "", [], 1, None, 0, 0)
    else State([Cell(a, FREE, ""), Cell(b, FREE, ""), Cell(c, FREE, "")], 0, 0, cellLen, Idle, a, "", [], 0, None, 0, 0)
  }

  /** What a ring may be built from: a cell size LOG_MEM_SET allows, and a first segment that is
      not one of the others. */
  predicate Buildable(cellLen: nat, a: int, b: int, c: int) {
    MIN_CELL_LEN <= cellLen <= MAX_CELL_LEN && a != b && a != c
  }

  /** m_iBuffCnt */
  function Count(s: State): nat {
    |s.cells| + s.spare
  }

  function Succ(i: nat, n: nat): nat
    requires i < n
  {
    if i + 1 == n then 0 else i + 1
  }

  /** The unsigned 32-bit product the growth check compares with the limit. */
  function Footprint32(cellLen: nat, count: nat): nat {
    (cellLen * count) % UINT32
  }

  // ---------------------------------------------------------------- producer

  /** The unlocked test at the start of `TryAppendLog`: a producer keeps away for a few seconds
      after a failure.  The subtraction is unsigned 64-bit. */
  predicate Throttled(failTime: nat, now: nat) {
    failTime != 0 && (now - failTime) % UINT64 < RELOG_THRESHOLD
  }

  /** `CBufferCell::Append` on the current cell: nothing happens when the record does not fit. */
  function Deposit(s: State, rec: string): State
    requires s.cur < |s.cells|
  {
    var cell := s.cells[s.cur];
    if |cell.data| + |rec| <= s.cellLen then
      s.(cells := s.cells[s.cur := cell.(data := cell.data + rec)], accepted := s.accepted + [rec])
    else s
  }

  predicate Fits(s: State, rec: string)
    requires s.cur < |s.cells|
  {
    s.cells[s.cur].status == FREE && |s.cells[s.cur].data| + |rec| <= s.cellLen
  }

  function MarkCurFull(s: State): State
    requires s.cur < |s.cells|
  {
    s.(cells := s.cells[s.cur := s.cells[s.cur].(status := FULL)])
  }

  /** Splice an empty cell in behind the current one and make it current. */
  function Grow(s: State, newId: int): State
    requires s.cur < |s.cells|
  {
    s.(cells := s.cells[..s.cur + 1] + [Cell(newId, FREE, "")] + s.cells[s.cur + 1..], cur := s.cur + 1)
  }

  /** What happens to the current pointer once the current cell has been marked FULL. */
  function Advance(s: State, now: nat, newId: int): State
    requires s.cur < |s.cells|
  {
    var next := Succ(s.cur, |s.cells|);
    if s.cells[next].status == FULL then
      if Footprint32(s.cellLen, Count(s) + 1) > LOG_FILE_MEM_LIMIT
      then s.(cur := next, failTime := now)
      else Grow(s, newId)
    else s.(cur := next)
  }

  /** The producer's critical section up to its second look at the failure time. */
  function Produce(s: State, rec: string, now: nat, newId: int): State
    requires s.cur < |s.cells|
  {
    if Fits(s, rec) then Deposit(s, rec)
    else if s.cells[s.cur].status == FREE then Advance(MarkCurFull(s), now, newId).(pending := Some(rec))
    else s.(failTime := now)
  }

  /** The failure time has been reset behind the back of a producer that had just set it, and the
      cell it stands at, the consumer's, happens to have room. */
  predicate Misplaces(s: State)
    requires s.cur < |s.cells|
  {
    && s.pending.Some? && s.failTime == 0
    && s.cells[s.cur].status == FULL && |s.cells[s.cur].data| + |s.pending.value| <= s.cellLen
  }

  /** The rest of the critical section: the record is copied if no failure time is set. */
  function Finish(s: State): State
    requires s.cur < |s.cells| && s.pending.Some?
  {
    var rec := s.pending.value;
    var t := (if s.failTime == 0 then Deposit(s, rec) else s).(pending := None);
    if Misplaces(s)
    then t.(astray := s.astray + 1, lost := s.lost + if s.phase == Persisted then |rec| else 0)
    else t
  }

  // ---------------------------------------------------------------- consumer

  /** The consumer's first critical section from the test for emptiness on. */
  function Claim(s: State): State
    requires 0 < |s.cells| && s.cur < |s.cells|
  {
    if s.cells[0].data == "" then s.(phase := Idle)
    else if s.cells[0].status == FREE then
      MarkCurFull(s).(cur := Succ(s.cur, |s.cells|), phase := Claimed)
    else s.(phase := Claimed)
  }

  /** The consumer takes the lock: it waits if the cell is FREE, else goes straight on. */
  function Check(s: State): State
    requires 0 < |s.cells| && s.cur < |s.cells|
  {
    if s.cells[0].status == FREE then s.(phase := Waiting) else Claim(s)
  }

  /** Outside the lock: write the claimed cell, unless no log file could be opened. */
  function Persist(s: State, isOpen: bool): State
    requires 0 < |s.cells|
  {
    if isOpen then s.(phase := Persisted, file := s.file + s.cells[0].data)
    else s.(phase := Idle)
  }

  /** The consumer's second critical section: empty the cell and step to the next one. */
  function Release(s: State): State
    requires 1 < |s.cells| && s.cur < |s.cells|
  {
    s.(cells := s.cells[1..] + [s.cells[0].(status := FREE, data := "")],
       cur := if s.cur == 0 then |s.cells| - 1 else s.cur - 1,
       storedId := s.cells[1].id,
       phase := Idle)
  }

  // ---------------------------------------------------------------- runs

  datatype Action =
    | Reset
    | Append(rec: string, now: nat, newId: int)
    | FinishStep
    | CheckStep
    | WakeStep
    | PersistStep(isOpen: bool)
    | ReleaseStep

  predicate HasId(s: State, id: int) {
    exists i :: 0 <= i < |s.cells| && s.cells[i].id == id
  }

  predicate Enabled(s: State, a: Action) {
    match a
    case Reset => true
    case Append(rec, now, newId) => s.pending.None? && 0 < |rec| < ONE_LOG_LEN && now != 0 && !HasId(s, newId)
    case FinishStep => s.pending.Some?
    case CheckStep => s.pending.None? && s.phase == Idle
    case WakeStep => s.pending.None? && s.phase == Waiting
    case PersistStep(_) => s.phase == Claimed
    case ReleaseStep => s.pending.None? && s.phase == Persisted
  }

  function Next(s: State, a: Action): State
    requires 1 < |s.cells| && s.cur < |s.cells| && Enabled(s, a)
  {
    match a
    case Reset => s.(failTime := 0)
    case Append(rec, now, newId) => Produce(s, rec, now, newId)
    case FinishStep => Finish(s)
    case CheckStep => Check(s)
    case WakeStep => Claim(s)
    case PersistStep(isOpen) => Persist(s, isOpen)
    case ReleaseStep => Release(s)
  }

  // ---------------------------------------------------------------- invariant

  function Flat(cells: seq<Cell>): string {
    if cells == [] then "" else cells[0].data + Flat(cells[1..])
  }

  function Join(recs: seq<string>): string {
    if recs == [] then "" else Join(recs[..|recs| - 1]) + recs[|recs| - 1]
  }

  ghost predicate Sized(s: State) {
    && MIN_CELL_LEN <= s.cellLen <= MAX_CELL_LEN
    && 2 <= |s.cells| && 3 <= Count(s) && s.spare <= 1
    && s.cur < |s.cells|
    && s.cellLen * Count(s) <= LOG_FILE_MEM_LIMIT
    && (forall i :: 0 <= i < |s.cells| ==> |s.cells[i].data| <= s.cellLen)
  }

  ghost predicate Identified(s: State) {
    && (forall i, j :: 0 <= i < j < |s.cells| ==> s.cells[i].id != s.cells[j].id)
    && 0 < |s.cells|
    && s.storedId == s.cells[0].id
  }

  /** Every cell is FULL; producers have nowhere to go. */
  ghost predicate Saturated(s: State) {
    s.cur == 0 && forall i :: 0 <= i < |s.cells| ==> s.cells[i].status == FULL && s.cells[i].data != ""
  }

  /** FULL, non-empty cells up to the current one; FREE from there on, empty after it. */
  ghost predicate Banded(s: State) {
    && (forall i :: 0 <= i < s.cur && i < |s.cells| ==> s.cells[i].status == FULL && s.cells[i].data != "")
    && (forall i :: s.cur <= i < |s.cells| ==> s.cells[i].status == FREE)
    && (forall i :: s.cur < i < |s.cells| ==> s.cells[i].data == "")
  }

  ghost predicate Shaped(s: State) {
    && (Banded(s) || (Saturated(s) && s.cellLen * (Count(s) + 1) > LOG_FILE_MEM_LIMIT))
    && (s.phase in {Claimed, Persisted} ==> 0 < |s.cells| && s.cells[0].status == FULL)
    && (s.pending.Some? ==>
          0 < |s.pending.value| < ONE_LOG_LEN && s.cur < |s.cells| && (Saturated(s) || s.cells[s.cur].data == ""))
  }

  /** What is in the file and, from `cells[0]` on, in the ring; the cell between its write and its
      clearing counts once. */
  function Written(s: State): string
    requires 0 < |s.cells|
  {
    s.file + Flat(if s.phase == Persisted then s.cells[1..] else s.cells)
  }

  /** Every accepted byte is where it belongs. */
  ghost predicate Ledger(s: State)
    requires 0 < |s.cells|
  {
    Written(s) == Join(s.accepted) && (s.phase == Persisted ==> EndsWith(s.file, s.cells[0].data))
  }

  /** As long as no record has gone astray every byte is where it belongs; and the bytes that are
      nowhere are those counted as lost. */
  ghost predicate Books(s: State)
    requires 0 < |s.cells|
  {
    (s.astray == 0 ==> Ledger(s)) && |Written(s)| + s.lost == |Join(s.accepted)|
  }

  predicate EndsWith(text: string, tail: string) {
    |tail| <= |text| && text[|text| - |tail|..] == tail
  }

  /** The invariant of the ring's shape ... */
  ghost predicate Form(s: State) {
    Sized(s) && Identified(s) && Shaped(s)
  }

  /** ... and with it that of its contents. */
  ghost predicate Inv(s: State) {
    Form(s) && Books(s)
  }

  /** `steps` is a sequence of steps that can be taken one after the other from `s`. */
  ghost predicate IsRun(s: State, steps: seq<Action>)
    decreases |steps|
  {
    && 1 < |s.cells| && s.cur < |s.cells|
    && (steps == [] || (Enabled(s, steps[0]) && IsRun(Next(s, steps[0]), steps[1..])))
  }

  ghost function After(s: State, steps: seq<Action>): State
    requires IsRun(s, steps)
    decreases |steps|
  {
    if steps == [] then s else After(Next(s, steps[0]), steps[1..])
  }
}
