/** The ring log itself: buffer cells linked in a circle, and the two pointers into it.

    Each method is one atomic step, a critical section or the consumer's unlocked write; its
    contract ties the object to the state machine of `RingModel`.  The real fields carry the
    program's names without their prefixes. */
module RingLog {
  import opened Options
  import opened RingModel
  import opened RingProofs
  import LogFiles

  /** One shared-memory segment: the header fields and, right behind them, the byte buffer. */
  class BufferCell {
    const shmId: int
    const totalLength: nat
    var data: string              // always totalLength bytes, the first curLength of them used
    var curLength: nat
    var status: Status
    var pre: BufferCell?
    var next: BufferCell?
    var preShmId: int
    var nextShmId: int
    ghost var pos: nat            // the cell's place in the ring, counted from the consumer's

    ghost predicate Valid()
      reads this`curLength, this`data
    {
      curLength <= totalLength == |data|
    }

    function Contents(): string
      reads this`curLength, this`data
      requires Valid()
    {
      data[..curLength]
    }

    constructor (shmId: int, len: nat)
      ensures Valid() && totalLength == len && this.shmId == shmId
      ensures Contents() == "" && status == FREE && forall k :: 0 <= k < len ==> data[k] == '\0'
      ensures pre == null && next == null && preShmId == nextShmId == -1
    {
      this.shmId := shmId;
      totalLength := len;
      data := seq(len, _ => '\0');
      curLength := 0;
      status := FREE;
      pre, next := null, null;
      preShmId, nextShmId := -1, -1;
    }

    /** Constructing anew in a segment that has a cell already: the header is overwritten. */
    method Reinit()
      requires Valid()
      modifies this`curLength, this`status, this`pre, this`next, this`preShmId, this`nextShmId
      ensures Valid() && Contents() == "" && status == FREE
      ensures pre == null && next == null && preShmId == nextShmId == -1
    {
      curLength := 0;
      status := FREE;
      pre, next := null, null;
      preShmId, nextShmId := -1, -1;
    }

    function GetFreeLen(): nat
      reads this`curLength, this`data
      requires Valid()
    {
      totalLength - curLength
    }

    predicate IsEmpty()
      reads this`curLength
    {
      curLength == 0
    }

    method Append(rec: string)
      requires Valid()
      modifies this`curLength, this`data
      ensures Valid()
      ensures Contents() == if |rec| <= old(GetFreeLen()) then old(Contents()) + rec else old(Contents())
      ensures |rec| <= old(GetFreeLen()) ==> data[curLength..] == old(data)[curLength..]
    {
      if GetFreeLen() < |rec| { return; }
      data := data[..curLength] + rec + data[curLength + |rec|..];
      curLength := curLength + |rec|;
    }

    method ClearBuffer()
      requires Valid()
      modifies this`curLength, this`status, this`data
      ensures Valid() && Contents() == "" && status == FREE
      ensures forall k :: 0 <= k < totalLength ==> data[k] == '\0'
    {
      curLength := 0;
      data := seq(totalLength, _ => '\0');
      status := FREE;
    }
  }

  // ---------------------------------------------------------------- the circle of cells

  /** A cell holds exactly what the model says it holds. */
  ghost predicate Mirrors(c: BufferCell, v: Cell, cellLen: nat)
    reads c
  {
    && c.totalLength == cellLen && c.Valid()
    && c.Contents() == v.data && c.status == v.status && c.shmId == v.id
  }

  /** `first` comes after `last`, and with `whole` points back to it as well. */
  ghost predicate Joined(last: BufferCell, first: BufferCell, whole: bool)
    reads last, first
  {
    && last.next == first && last.nextShmId == first.shmId
    && (whole ==> first.pre == last && first.preShmId == last.shmId)
  }

  /** A chain: each cell points to the one after it, with `whole` also back, and the ids mirror the
      pointers. */
  ghost predicate Chained(cells: seq<BufferCell>, whole: bool)
    reads cells
  {
    && (forall k {:trigger cells[k].next} {:trigger cells[k].nextShmId} :: 0 <= k < |cells| - 1 ==>
          cells[k].next == cells[k + 1] && cells[k].nextShmId == cells[k + 1].shmId)
    && (whole ==> forall k {:trigger cells[k].pre} {:trigger cells[k].preShmId} :: 1 <= k < |cells| ==>
          cells[k].pre == cells[k - 1] && cells[k].preShmId == cells[k - 1].shmId)
  }

  /** One cycle: a chain whose ends are joined. */
  ghost predicate Linked(ring: seq<BufferCell>, whole: bool)
    reads ring
  {
    0 < |ring| && Chained(ring, whole) && Joined(ring[|ring| - 1], ring[0], whole)
  }

  lemma CellAt(ring: seq<BufferCell>, cells: seq<Cell>, cellLen: nat, whole: bool, k: nat)
    requires Ringed(ring, cells, cellLen, whole) && k < |ring|
    ensures Mirrors(ring[k], cells[k], cellLen)
    ensures var next := Succ(k, |ring|);
      ring[k].next == ring[next] && ring[k].nextShmId == ring[next].shmId && Mirrors(ring[next], cells[next], cellLen)
  {
  }

  /** Every cell knows its place, so no cell occurs twice. */
  ghost predicate Placed(ring: seq<BufferCell>)
    reads ring
  {
    forall i :: 0 <= i < |ring| ==> ring[i].pos == i
  }

  ghost predicate Mirrored(ring: seq<BufferCell>, cells: seq<Cell>, cellLen: nat)
    reads ring
  {
    |ring| == |cells| && forall i :: 0 <= i < |ring| ==> Mirrors(ring[i], cells[i], cellLen)
  }

  /** The objects in `ring` form one cycle, no cell twice, and hold `cells`. */
  ghost predicate Ringed(ring: seq<BufferCell>, cells: seq<Cell>, cellLen: nat, whole: bool)
    reads ring
  {
    Linked(ring, whole) && Placed(ring) && Mirrored(ring, cells, cellLen)
  }

  /** Linking a cell in behind another one. */
  method LinkBehind(prev: BufferCell, current: BufferCell)
    modifies prev`next, prev`nextShmId, current`pre, current`preShmId
    ensures Joined(prev, current, true)
  {
    current.pre := prev;
    current.preShmId := prev.shmId;
    prev.next := current;
    prev.nextShmId := current.shmId;
  }

  /** One more request: asking for the last segment again gives no new one. */
  ghost function Request(segments: seq<int>, id: int): seq<int> {
    if segments != [] && segments[|segments| - 1] == id then segments else segments + [id]
  }

  /** The segments that the first `n` requests yield. */
  ghost function Requests(ids: seq<int>, n: nat): seq<int>
    requires n <= |ids|
  {
    if n == 0 then [] else Request(Requests(ids, n - 1), ids[n - 1])
  }

  ghost predicate NewCells(ring: seq<BufferCell>, ids: seq<int>, cellLen: nat)
    reads ring
  {
    |ring| == |ids| && forall k :: 0 <= k < |ring| ==> Mirrors(ring[k], Cell(ids[k], FREE, ""), cellLen)
  }

  method LinkLast(prev: BufferCell, current: BufferCell, ghost ring: seq<BufferCell>, ghost whole: bool)
    requires 0 < |ring| && prev == ring[|ring| - 1] && current !in ring && Placed(ring) && Chained(ring, whole)
    modifies prev`next, prev`nextShmId, current`pre, current`preShmId, current`pos
    ensures Placed(ring + [current]) && Chained(ring + [current], whole)
  {
    current.pos := |ring|;
    LinkBehind(prev, current);
    forall k | 0 <= k < |ring| - 1 ensures ring[k].next == ring[k + 1] {
      assert ring[k] != prev;
      assert old(ring[k].next) == ring[k + 1];
    }
  }

  /** One turn of the constructor's loop with a segment of its own. */
  method Extend(prev: BufferCell, current: BufferCell, ghost ring: seq<BufferCell>, ghost ids: seq<int>,
                ghost cellLen: nat, ghost whole: bool)
    requires 0 < |ring| && prev == ring[|ring| - 1] && current !in ring
    requires Placed(ring) && Chained(ring, whole) && NewCells(ring, ids, cellLen)
    requires Mirrors(current, Cell(current.shmId, FREE, ""), cellLen)
    modifies prev`next, prev`nextShmId, current`pre, current`preShmId, current`pos
    ensures Placed(ring + [current]) && Chained(ring + [current], whole)
    ensures NewCells(ring + [current], ids + [current.shmId], cellLen)
  {
    hide Placed, Chained;
    LinkLast(prev, current, ring, whole);
    assert forall k :: 0 <= k < |ring| ==> Mirrors(ring[k], Cell(ids[k], FREE, ""), cellLen);
  }

  /** ... and with the last segment once more: the cell is wiped and linked behind itself. */
  method Repeat(prev: BufferCell, ghost ring: seq<BufferCell>, ghost ids: seq<int>, ghost cellLen: nat,
                ghost whole: bool)
    requires 0 < |ring| && prev == ring[|ring| - 1]
    requires Placed(ring) && Chained(ring, whole) && NewCells(ring, ids, cellLen)
    modifies prev`curLength, prev`status, prev`pre, prev`next, prev`preShmId, prev`nextShmId
    ensures Placed(ring) && Chained(ring, false) && NewCells(ring, ids, cellLen)
    ensures prev.pre == prev
  {
    assert Mirrors(prev, Cell(ids[|ring| - 1], FREE, ""), cellLen);
    prev.Reinit();
    LinkBehind(prev, prev);
    forall k | 0 <= k < |ring| - 1 ensures ring[k].next == ring[k + 1] {
      assert ring[k] != prev;
      assert old(ring[k].next) == ring[k + 1];
    }
    assert forall k :: 0 <= k < |ring| - 1 ==> ring[k] != prev && Mirrors(ring[k], Cell(ids[k], FREE, ""), cellLen);
  }

  /** One turn of the constructor's loop. */
  method AddCell(prev: BufferCell, id: int, cellLen: nat, ghost ring: seq<BufferCell>, ghost ids: seq<int>,
                 ghost whole: bool)
    returns (current: BufferCell, ghost longer: seq<BufferCell>, ghost still: bool)
    requires 0 < |ring| && prev == ring[|ring| - 1]
    requires Placed(ring) && Chained(ring, whole) && NewCells(ring, ids, cellLen)
    modifies prev
    ensures current == prev || fresh(current)
    ensures |longer| == if id == prev.shmId then |ring| else |ring| + 1
    ensures longer[0] == ring[0] && current == longer[|longer| - 1]
    ensures forall c :: c in longer ==> c in ring || fresh(c)
    ensures still == (whole && id != prev.shmId)
    ensures Placed(longer) && Chained(longer, still) && NewCells(longer, Request(ids, id), cellLen)
    ensures current.shmId == id && (id == prev.shmId ==> current.pre == current)
  {
    assert Mirrors(prev, Cell(ids[|ids| - 1], FREE, ""), cellLen);
    if id == prev.shmId {
      Repeat(prev, ring, ids, cellLen, whole);
      current, longer, still := prev, ring, false;
    } else {
      current := new BufferCell(id, cellLen);
      Extend(prev, current, ring, ids, cellLen, whole);
      longer, still := ring + [current], whole;
    }
  }

  method FirstCell(id: int, cellLen: nat) returns (head: BufferCell)
    ensures fresh(head) && head.shmId == id
    ensures Placed([head]) && Chained([head], true) && NewCells([head], [id], cellLen)
  {
    head := new BufferCell(id, cellLen);
    head.pos := 0;
  }

  /** The constructor's loop. */
  method BuildChain(ids: seq<int>, cellLen: nat)
    returns (head: BufferCell, prev: BufferCell, ghost ring: seq<BufferCell>, ghost whole: bool)
    requires 0 < |ids|
    ensures 0 < |ring| && head == ring[0] && prev == ring[|ring| - 1]
    ensures fresh(head) && fresh(prev) && forall c :: c in ring ==> fresh(c)
    ensures Placed(ring) && Chained(ring, whole) && NewCells(ring, Requests(ids, |ids|), cellLen)
    ensures |ring| <= |ids| && (whole <==> |ring| == |ids|)
    ensures 1 < |ids| && ids[|ids| - 1] == ids[|ids| - 2] ==> prev.pre == prev
  {
    hide Placed, Chained, NewCells;
    head := FirstCell(ids[0], cellLen);
    ring := [head];
    prev := head;
    whole := true;
    ghost var before := ids[0];
    ghost var got := [ids[0]];
    assert got == Requests(ids, 1);
    var i := 1;
    while i < |ids|
      invariant 1 <= i <= |ids| && 0 < |ring| <= i && ring[0] == head && prev == ring[|ring| - 1]
      invariant fresh(head) && fresh(prev) && forall c :: c in ring ==> fresh(c)
      invariant Placed(ring) && Chained(ring, whole) && NewCells(ring, got, cellLen) && got == Requests(ids, i)
      invariant prev.shmId == ids[i - 1] && (whole <==> |ring| == i)
      invariant before == (if i == 1 then ids[0] else ids[i - 2])
      invariant 1 < i && prev.shmId == before ==> prev.pre == prev
    {
      ghost var last := i - 1;
      before := ids[last];
      prev, ring, whole := AddCell(prev, ids[i], cellLen, ring, got, whole);
      got := Request(got, ids[i]);
      i := i + 1;
      assert i - 2 == last;
    }
  }

  method CloseChain(prev: BufferCell, head: BufferCell, ghost ring: seq<BufferCell>, ghost cells: seq<Cell>,
                    ghost cellLen: nat, ghost whole: bool)
    requires 0 < |ring| && head == ring[0] && prev == ring[|ring| - 1]
    requires Placed(ring) && Chained(ring, whole) && Mirrored(ring, cells, cellLen)
    modifies prev`next, prev`nextShmId, head`pre, head`preShmId
    ensures Ringed(ring, cells, cellLen, whole)
  {
    LinkBehind(prev, head);
    assert forall i :: 0 <= i < |ring| ==> Mirrors(ring[i], cells[i], cellLen);
  }

  /** The chain closed into a circle, which can be walked backwards exactly when the last request
      was for a segment of its own. */
  method BuildRing(a: int, b: int, c: int, cellLen: nat)
    returns (head: BufferCell, ghost ring: seq<BufferCell>, ghost whole: bool)
    requires a != b && a != c
    ensures 1 < |ring| && head == ring[0] && forall c :: c in ring ==> fresh(c)
    ensures Ringed(ring, Init(cellLen, a, b, c).cells, cellLen, whole) && whole == (b != c)
    ensures b == c ==> ring[1].pre == ring[1]
  {
    var prev;
    head, prev, ring, whole := BuildChain([a, b, c], cellLen);
    ghost var cells := Init(cellLen, a, b, c).cells;
    assert Requests([a, b, c], 1) == [a] && Requests([a, b, c], 2) == [a, b];
    assert forall k :: 0 <= k < |ring| ==> cells[k] == Cell(Requests([a, b, c], 3)[k], FREE, "");
    CloseChain(prev, head, ring, cells, cellLen, whole);
  }

  /** `CBufferCell::Append` on one cell of the circle. */
  method AppendAt(c: BufferCell, rec: string, ghost ring: seq<BufferCell>, ghost cells: seq<Cell>,
                  cellLen: nat, ghost k: nat, ghost whole: bool)
    requires Ringed(ring, cells, cellLen, whole) && k < |ring| && c == ring[k]
    modifies c`curLength, c`data
    ensures var room := |cells[k].data| + |rec| <= cellLen;
      Ringed(ring, if room then cells[k := cells[k].(data := cells[k].data + rec)] else cells, cellLen, whole)
  {
    c.Append(rec);
    assert forall i :: 0 <= i < |ring| && i != k ==> ring[i] != c && Mirrors(ring[i], cells[i], cellLen);
  }

  method MarkFullAt(c: BufferCell, ghost ring: seq<BufferCell>, ghost cells: seq<Cell>,
                    ghost cellLen: nat, ghost k: nat, ghost whole: bool)
    requires Ringed(ring, cells, cellLen, whole) && k < |ring| && c == ring[k]
    modifies c`status
    ensures Ringed(ring, cells[k := cells[k].(status := FULL)], cellLen, whole)
  {
    c.status := FULL;
    assert forall i :: 0 <= i < |ring| && i != k ==> ring[i] != c && Mirrors(ring[i], cells[i], cellLen);
  }

  method SpliceLinks(cur: BufferCell, added: BufferCell, nextBuf: BufferCell, ghost ring: seq<BufferCell>,
                     ghost whole: bool)
    requires Linked(ring, whole) && Placed(ring) && cur == ring[|ring| - 1] && nextBuf == ring[0] && added !in ring
    modifies added`pre, added`preShmId, added`next, added`nextShmId
    modifies cur`next, cur`nextShmId, nextBuf`pre, nextBuf`preShmId
    ensures Linked(ring + [added], whole)
  {
    added.pre := cur;
    added.preShmId := cur.shmId;
    cur.next := added;
    cur.nextShmId := added.shmId;
    added.next := nextBuf;
    added.nextShmId := nextBuf.shmId;
    nextBuf.pre := added;
    nextBuf.preShmId := added.shmId;
    forall k | 0 <= k < |ring| - 1 ensures ring[k].next == ring[k + 1] {
      assert ring[k] != cur;
      assert old(ring[k].next) == ring[k + 1];
    }
  }

  /** Splicing a cell in between the current one and the one after it, which is the consumer's
      whenever the ring grows. */
  method Splice(cur: BufferCell, added: BufferCell, nextBuf: BufferCell,
                ghost ring: seq<BufferCell>, ghost cells: seq<Cell>,
                ghost cellLen: nat, ghost newId: int, ghost whole: bool)
    requires Ringed(ring, cells, cellLen, whole) && cur == ring[|ring| - 1] && nextBuf == ring[0]
    requires added !in ring && Mirrors(added, Cell(newId, FREE, ""), cellLen)
    modifies added`pre, added`preShmId, added`next, added`nextShmId, added`pos
    modifies cur`next, cur`nextShmId, nextBuf`pre, nextBuf`preShmId
    ensures Ringed(ring + [added], cells + [Cell(newId, FREE, "")], cellLen, whole)
  {
    SpliceLinks(cur, added, nextBuf, ring, whole);
    assert Placed(ring) && Mirrored(ring, cells, cellLen);
    GivePlace(added, ring, cells, cellLen, newId, whole);
  }

  method GivePlace(added: BufferCell, ghost ring: seq<BufferCell>, ghost cells: seq<Cell>,
                   ghost cellLen: nat, ghost newId: int, ghost whole: bool)
    requires Placed(ring) && Mirrored(ring, cells, cellLen) && Linked(ring + [added], whole)
    requires added !in ring && Mirrors(added, Cell(newId, FREE, ""), cellLen)
    modifies added`pos
    ensures Ringed(ring + [added], cells + [Cell(newId, FREE, "")], cellLen, whole)
  {
    added.pos := |ring|;
    assert forall i :: 0 <= i < |ring| ==> Mirrors(ring[i], cells[i], cellLen);
  }

  /** The circle can be read off from its second cell on just as well. */
  lemma RotateCircle(ring: seq<BufferCell>, cells: seq<Cell>, cellLen: nat, whole: bool)
    requires Linked(ring, whole) && Mirrored(ring, cells, cellLen) && 1 < |ring|
    ensures Linked(ring[1..] + [ring[0]], whole) && Mirrored(ring[1..] + [ring[0]], cells[1..] + [cells[0]], cellLen)
    ensures ring[0].next == ring[1]
  {
    var r := ring[1..] + [ring[0]];
    assert forall k :: 0 <= k < |ring| - 1 ==> r[k] == ring[k + 1];
    assert r[|ring| - 1] == ring[0];
    assert Joined(ring[|ring| - 1], ring[0], whole);
  }

  lemma RotatedAt(ring: seq<BufferCell>, k: nat)
    requires k < |ring| && 1 < |ring|
    ensures var r := ring[1..] + [ring[0]]; r[0] == ring[1] && r[if k == 0 then |ring| - 1 else k - 1] == ring[k]
  {
  }

  /** Counting places from the second cell on. */
  ghost method Recount(ring: seq<BufferCell>)
    requires Placed(ring) && 1 < |ring|
    modifies ring`pos
    ensures Placed(ring[1..] + [ring[0]])
  {
    forall c | c in ring { c.pos := if c == ring[0] then |ring| - 1 else c.pos - 1; }
  }

  method ClearAt(c: BufferCell, ghost ring: seq<BufferCell>, ghost cells: seq<Cell>,
                 ghost cellLen: nat, ghost k: nat, ghost whole: bool)
    requires Ringed(ring, cells, cellLen, whole) && k < |ring| && c == ring[k]
    modifies c`curLength, c`status, c`data
    ensures Ringed(ring, cells[k := cells[k].(status := FREE, data := "")], cellLen, whole)
  {
    c.ClearBuffer();
    assert forall i :: 0 <= i < |ring| && i != k ==> ring[i] != c && Mirrors(ring[i], cells[i], cellLen);
  }

  /** The release: the consumer's cell is emptied and becomes the last one of the lap. */
  method ClearFirst(first: BufferCell, ghost ring: seq<BufferCell>, ghost cells: seq<Cell>, ghost cellLen: nat,
                    ghost whole: bool)
    requires Ringed(ring, cells, cellLen, whole) && 1 < |ring| && first == ring[0]
    modifies first`curLength, first`status, first`data, ring`pos
    ensures Ringed(ring[1..] + [first], cells[1..] + [cells[0].(status := FREE, data := "")], cellLen, whole)
  {
    ClearAt(first, ring, cells, cellLen, 0, whole);
    ghost var cleared := cells[0].(status := FREE, data := "");
    Recount(ring);
    assert Mirrored(ring, cells[0 := cleared], cellLen);
    RotateCircle(ring, cells[0 := cleared], cellLen, whole);
    assert cells[0 := cleared][1..] == cells[1..];
  }

  /** Opening or rotating the log file and writing one cell to it. */
  method WriteCell(c: BufferCell, files: LogFiles.FileSet, today: LogFiles.Date, ok: bool) returns (isOpen: bool)
    requires c.Valid() && files.Valid()
    modifies files
    ensures files.Valid() && files.View() == LogFiles.Put(old(files.View()), today, ok, c.Contents())
    ensures isOpen == files.fp.Some?
  {
    isOpen := files.DecisFile(today, ok);
    if isOpen { files.FWrite(c.Contents()); }
  }

  // ---------------------------------------------------------------- the log

  class RingLog {
    var buffCnt: nat
    var curBuf: BufferCell
    var prstBuf: BufferCell
    var lastLogFailTime: nat
    var oneBuffLen: nat
    var prstShmId: int            // the word in shared memory the recovery tool starts from
    const files: LogFiles.FileSet

    ghost var ring: seq<BufferCell>
    ghost var model: State
    ghost const whole: bool       // the ring can be walked backwards too

    /** The fields say what the model says. */
    ghost predicate Fielded()
      reads this
    {
      && whole == (model.spare == 0) && 1 < |ring| == |model.cells| && model.cur < |ring|
      && buffCnt == Count(model) && curBuf == ring[model.cur] && prstBuf == ring[0]
      && lastLogFailTime == model.failTime && oneBuffLen == model.cellLen && prstShmId == model.storedId
    }

    /** ... and so do the cells. */
    ghost predicate Tied()
      reads this, ring
    {
      Fielded() && Ringed(ring, model.cells, model.cellLen, whole)
    }

    /** ... and the model is a state of some run. */
    ghost predicate Valid()
      reads this, ring, files
    {
      Tied() && Reachable(model) && files.Valid()
    }

    constructor (cellLen: nat, a: int, b: int, c: int, files: LogFiles.FileSet)
      requires Buildable(cellLen, a, b, c) && files.Valid()
      ensures Valid() && (forall c :: c in ring ==> fresh(c)) && this.files == files
      ensures model == Init(cellLen, a, b, c) && buffCnt == 3
      ensures Linked(ring, true) <==> b != c
    {
      var head, cells, both := BuildRing(a, b, c, cellLen);
      buffCnt := 3;
      oneBuffLen := cellLen;
      lastLogFailTime := 0;
      curBuf := head;
      prstBuf := head;
      prstShmId := head.shmId;
      this.files := files;
      ring := cells;
      whole := both;
      model := Init(cellLen, a, b, c);
      new;
      ReachableInit(cellLen, a, b, c);
    }

    /** The unlocked test at the start of `TryAppendLog`. */
    method IsThrottled(now: nat) returns (refused: bool)
      requires Valid()
      ensures refused == Throttled(model.failTime, now)
      ensures lastLogFailTime <= now < 0x1_0000_0000_0000_0000 ==>
        (refused <==> lastLogFailTime != 0 && now < lastLogFailTime + 5)
      ensures now < lastLogFailTime < 0x1_0000_0000_0000_0000 ==>
        (refused <==> lastLogFailTime - now > 0x1_0000_0000_0000_0000 - 5)
    {
      ThrottledIff(model.failTime, now);
      refused := lastLogFailTime != 0 && (now - lastLogFailTime) % UINT64 < RELOG_THRESHOLD;
    }

    /** The unlocked reset before the producer's critical section. */
    method ResetFailTime()
      requires Valid()
      modifies this`lastLogFailTime, this`model
      ensures Valid() && model == Next(old(model), Reset)
    {
      ReachableStep(model, Reset);
      lastLogFailTime := 0;
      model := Next(model, Reset);
    }

    method DepositCurrent(rec: string)
      requires Tied()
      modifies this`model, curBuf`curLength, curBuf`data
      ensures Tied() && model == Deposit(old(model), rec)
    {
      ghost var cells := model.cells;
      model := Deposit(model, rec);
      AppendAt(curBuf, rec, ring, cells, oneBuffLen, model.cur, whole);
    }

    method CreateCell(newId: int) returns (c: BufferCell)
      requires Tied()
      ensures Tied() && fresh(c) && c !in ring && Mirrors(c, Cell(newId, FREE, ""), oneBuffLen)
    {
      c := new BufferCell(newId, oneBuffLen);
    }

    /** Growing the ring behind the current cell. */
    method GrowWith(newBuffer: BufferCell, nextBuf: BufferCell)
      requires Tied() && model.cur == |ring| - 1 && nextBuf == ring[0]
      requires newBuffer !in ring && Mirrors(newBuffer, Cell(newBuffer.shmId, FREE, ""), oneBuffLen)
      modifies this, curBuf`next, curBuf`nextShmId, nextBuf`pre, nextBuf`preShmId
      modifies newBuffer`pre, newBuffer`preShmId, newBuffer`next, newBuffer`nextShmId, newBuffer`pos
      ensures Tied() && model == Grow(old(model), newBuffer.shmId)
      ensures ring == old(ring) + [newBuffer]
    {
      hide Linked, Placed;
      ghost var before, cells := ring, model.cells;
      var cur := curBuf;
      GrowAtEnd(model, newBuffer.shmId);
      model := Grow(model, newBuffer.shmId);
      buffCnt := buffCnt + 1;
      ring := ring + [newBuffer];
      curBuf := newBuffer;
      Splice(cur, newBuffer, nextBuf, before, cells, oneBuffLen, newBuffer.shmId, whole);
    }

    method MarkCurrentFull()
      requires Tied()
      modifies this`model, curBuf`status
      ensures Tied() && model == MarkCurFull(old(model))
    {
      ghost var cells := model.cells;
      model := MarkCurFull(model);
      MarkFullAt(curBuf, ring, cells, oneBuffLen, model.cur, whole);
    }

    /** The next cell is FULL, so it is the consumer's: one more cell, or a failure. */
    method GrowOrFail(nextBuf: BufferCell, now: nat, newId: int)
      requires Tied() && model.cur == |ring| - 1 && nextBuf == ring[0] && model.cells[0].status == FULL
      modifies this, ring
      ensures Tied() && model == Advance(old(model), now, newId)
      ensures old(ring) <= ring && forall i :: |old(ring)| <= i < |ring| ==> fresh(ring[i])
    {
      hide Linked, Placed;
      if Footprint32(oneBuffLen, buffCnt + 1) > LOG_FILE_MEM_LIMIT {
        model := Advance(model, now, newId);
        curBuf := nextBuf;
        lastLogFailTime := now;
      } else {
        var newBuffer := CreateCell(newId);
        GrowWith(newBuffer, nextBuf);
      }
    }

    /** Stepping the current pointer on, the ring being grown or a failure noted if the next cell
        is FULL. */
    method StepOn(now: nat, newId: int)
      requires Tied()
      requires model.cells[Succ(model.cur, |ring|)].status == FULL ==> model.cur == |ring| - 1
      modifies this, ring
      ensures Tied() && model == Advance(old(model), now, newId)
      ensures old(ring) <= ring && forall i :: |old(ring)| <= i < |ring| ==> fresh(ring[i])
    {
      var nextBuf := curBuf.next;
      CellAt(ring, model.cells, model.cellLen, whole, model.cur);
      if nextBuf.status == FULL {
        GrowOrFail(nextBuf, now, newId);
      } else {
        model := Advance(model, now, newId);
        curBuf := nextBuf;
      }
    }

    /** The current cell is FREE but has no room: the producers go on to another one. */
    method MoveOn(ghost rec: string, now: nat, newId: int)
      requires Tied() && model.cells[model.cur].status == FREE && !Fits(model, rec)
      requires model.cells[Succ(model.cur, |ring|)].status == FULL ==> model.cur == |ring| - 1
      modifies this, ring
      ensures Tied() && model == Produce(old(model), rec, now, newId)
      ensures old(ring) <= ring && forall i :: |old(ring)| <= i < |ring| ==> fresh(ring[i])
    {
      hide Linked, Placed, Mirrors, Advance;
      MarkCurrentFull();
      StepOn(now, newId);
      model := model.(pending := Some(rec));
    }

    /** The current cell is FULL: there is nowhere to go. */
    method NoteFailure(ghost rec: string, now: nat, ghost newId: int)
      requires Tied() && model.cells[model.cur].status == FULL
      modifies this`model, this`lastLogFailTime
      ensures Tied() && model == Produce(old(model), rec, now, newId)
    {
      model := Produce(model, rec, now, newId);
      lastLogFailTime := now;
    }

    /** The producer's critical section up to its second look at the failure time.  It is over
        unless the current cell had to be left, and then the consumer is to be woken at its end. */
    method AppendLocked(rec: string, now: nat, newId: int) returns (signal: bool)
      requires Valid() && Enabled(model, Append(rec, now, newId))
      modifies this, ring
      ensures Valid() && model == Produce(old(model), rec, now, newId)
      ensures old(ring) <= ring && forall i :: |old(ring)| <= i < |ring| ==> fresh(ring[i])
      ensures signal == (old(curBuf.status) == FREE && !old(Fits(model, rec))) == (model.pending == Some(rec))
    {
      hide Linked, Placed;
      ReachableStep(model, Append(rec, now, newId));
      NextFullIsConsumers(model);
      assert Mirrors(curBuf, model.cells[model.cur], model.cellLen);
      signal := false;
      if curBuf.status == FREE && curBuf.GetFreeLen() >= |rec| {
        DepositCurrent(rec);
      } else if curBuf.status == FREE {
        MoveOn(rec, now, newId);
        signal := true;
      } else {
        NoteFailure(rec, now, newId);
      }
    }

    /** The second look at the failure time. */
    method DepositUnlessFailed(rec: string)
      requires Tied() && model.pending == Some(rec)
      modifies this`model, curBuf`curLength, curBuf`data
      ensures Tied() && model == if old(model).failTime == 0 then Deposit(old(model), rec) else old(model)
    {
      if lastLogFailTime == 0 { DepositCurrent(rec); }
    }

    ghost method NoteFinish(before: State)
      requires Tied() && before.pending.Some? && before.cur < |before.cells|
      requires model == if before.failTime == 0 then Deposit(before, before.pending.value) else before
      modifies this`model
      ensures Tied() && model == Finish(before)
    {
      model := Finish(before);
    }

    /** The rest of it: the record goes into the cell that is current now, if no failure time is set. */
    method FinishLocked(rec: string)
      requires Valid() && model.pending == Some(rec)
      modifies this, ring
      ensures Valid() && ring == old(ring) && model == Finish(old(model))
    {
      ReachableStep(model, FinishStep);
      ghost var before := model;
      DepositUnlessFailed(rec);
      NoteFinish(before);
    }

    /** The consumer's test before the timed wait; FULL means it goes straight on. */
    method CheckLocked() returns (wait: bool)
      requires Valid() && model.pending.None? && model.phase == Idle
      modifies this, ring
      ensures Valid() && ring == old(ring) && model == Check(old(model))
      ensures wait == (old(prstBuf.status) == FREE)
    {
      assert Mirrors(prstBuf, model.cells[0], model.cellLen);
      if prstBuf.status == FREE {
        ReachableStep(model, CheckStep);
        model := Check(model);
        wait := true;
      } else {
        ClaimLocked();
        wait := false;
      }
    }

    /** The producers' pointer steps on from the consumer's cell. */
    method MovePast()
      requires Fielded() && model.cur == 0 && model.cells[0].status == FREE
      requires model.cells[0].data != "" && curBuf.next == ring[1]
      modifies this
      ensures Fielded() && ring == old(ring) && model == Claim(old(model))
    {
      model := Claim(model);
      curBuf := curBuf.next;
    }

    /** Taking over the producers' current cell, FREE but not empty: it is the consumer's own. */
    method TakeCurrent()
      requires Tied() && Inv(model) && model.cells[0].status == FREE && model.cells[0].data != ""
      modifies this, ring
      ensures Tied() && ring == old(ring) && model == Claim(old(model))
    {
      ConsumerAssertHolds(model);
      assert curBuf == prstBuf;
      CellAt(ring, model.cells, model.cellLen, whole, 0);
      ghost var cells := model.cells;
      var full := curBuf;
      MovePast();
      MarkFullAt(full, ring, cells, oneBuffLen, 0, whole);
    }

    /** Nothing to take over: the cell is empty, or FULL already. */
    method PassCurrent()
      requires Tied() && (model.cells[0].data == "" || model.cells[0].status == FULL)
      modifies this`model
      ensures Tied() && model == Claim(old(model))
    {
      model := Claim(model);
    }

    method TakeOrPass()
      requires Tied() && Inv(model)
      modifies this, ring
      ensures Tied() && ring == old(ring) && model == Claim(old(model))
    {
      assert Mirrors(prstBuf, model.cells[0], model.cellLen);
      if prstBuf.IsEmpty() {
        PassCurrent();
      } else if prstBuf.status == FREE {
        TakeCurrent();
      } else {
        PassCurrent();
      }
    }

    /** The consumer's first critical section from the test for emptiness on; it returns with the
        cell claimed, or without one when there is nothing to write. */
    method ClaimLocked()
      requires Valid() && model.pending.None?
          && (model.phase == Waiting || (model.phase == Idle && model.cells[0].status == FULL))
      modifies this, ring
      ensures Valid() && ring == old(ring) && model == Claim(old(model))
    {
      ReachableInv(model);
      ReachableStep(model, if model.phase == Waiting then WakeStep else CheckStep);
      TakeOrPass();
    }

    /** Outside the lock: open or rotate the log file and write the claimed cell to it. */
    method PersistClaimed(today: LogFiles.Date, ok: bool) returns (isOpen: bool)
      requires Valid() && model.phase == Claimed
      modifies this`model, files
      ensures Valid() && model == Persist(old(model), isOpen) && isOpen == files.fp.Some?
      ensures files.View() == LogFiles.Put(old(files.View()), today, ok, old(prstBuf.Contents()))
    {
      hide Linked, Placed;
      assert Mirrors(prstBuf, model.cells[0], model.cellLen);
      isOpen := WriteCell(prstBuf, files, today, ok);
      ReachableStep(model, PersistStep(isOpen));
      model := Persist(model, isOpen);
    }

    /** The consumer's pointer and the published id step on. */
    method PointOn()
      requires Fielded() && prstBuf.next == ring[1] && ring[1].shmId == model.cells[1].id
      modifies this
      ensures Fielded() && ring == old(ring)[1..] + [old(prstBuf)] && model == Release(old(model))
    {
      RotatedAt(ring, model.cur);
      ghost var first := prstBuf;
      prstBuf := prstBuf.next;
      prstShmId := prstBuf.shmId;
      ring := ring[1..] + [first];
      model := Release(model);
    }

    /** Emptying the consumer's cell and stepping to the next one. */
    method StepFirst()
      requires Tied()
      modifies this, ring
      ensures Tied() && ring == old(ring)[1..] + [old(prstBuf)] && model == Release(old(model))
    {
      hide Linked, Placed, Mirrors, Mirrored;
      CellAt(ring, model.cells, model.cellLen, whole, 0);
      ghost var before, cells := ring, model.cells;
      var first := prstBuf;
      PointOn();
      ClearFirst(first, before, cells, oneBuffLen, whole);
    }

    /** The consumer's second critical section. */
    method ReleaseLocked()
      requires Valid() && model.pending.None? && model.phase == Persisted
      modifies this, ring
      ensures Valid() && ring == old(ring)[1..] + [old(prstBuf)] && model == Release(old(model))
    {
      ReachableStep(model, ReleaseStep);
      StepFirst();
    }
  }
}
