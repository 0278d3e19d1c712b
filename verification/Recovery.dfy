/** The recovery tool: after a crash it walks the ring by shared-memory ids alone. */
module Recovery {
  import opened RingModel
  import opened RingProofs
  import R = RingLog

  /** The ids of the cells in ring order from the published one. */
  ghost function Ids(cells: seq<Cell>): set<int> {
    set i | 0 <= i < |cells| :: cells[i].id
  }

  /** What the tool finds at an id: the cell of the ring that has it. */
  ghost predicate Attached(segments: map<int, R.BufferCell>, ring: seq<R.BufferCell>) {
    forall i :: 0 <= i < |ring| ==> ring[i].shmId in segments && segments[ring[i].shmId] == ring[i]
  }

  lemma IdsSnoc(cells: seq<Cell>, k: nat)
    requires k < |cells| && forall i, j :: 0 <= i < j < |cells| ==> cells[i].id != cells[j].id
    ensures Ids(cells[..k + 1]) == Ids(cells[..k]) + {cells[k].id} && cells[k].id !in Ids(cells[..k])
  {
    assert forall i :: 0 <= i < k ==> cells[..k + 1][i] == cells[..k][i];
    assert cells[..k + 1][k] == cells[k];
  }

  lemma SegmentAt(segments: map<int, R.BufferCell>, ring: seq<R.BufferCell>, cells: seq<Cell>, cellLen: nat,
                  whole: bool, k: nat)
    requires R.Ringed(ring, cells, cellLen, whole) && Attached(segments, ring) && k < |ring|
    ensures cells[k].id in segments && segments[cells[k].id] == ring[k]
    ensures ring[k].Valid() && ring[k].Contents() == cells[k].data && ring[k].nextShmId == cells[Succ(k, |ring|)].id
  {
    R.CellAt(ring, cells, cellLen, whole, k);
  }

  /** The tool's do/while loop over a ring in shared memory.  `segments` is what shmat finds; with
      `isDel` the segments are removed on the way. */
  method Walk(headId: int, segments: map<int, R.BufferCell>, isDel: bool,
              ghost ring: seq<R.BufferCell>, ghost cells: seq<Cell>, ghost cellLen: nat, ghost whole: bool)
    returns (haveData: bool, leaveLog: string, left: map<int, R.BufferCell>, ghost visited: seq<int>)
    requires R.Ringed(ring, cells, cellLen, whole) && Attached(segments, ring)
    requires forall i, j :: 0 <= i < j < |cells| ==> cells[i].id != cells[j].id
    requires headId == cells[0].id
    ensures leaveLog == Flat(cells) && haveData == (leaveLog != "")
    ensures |visited| == |cells| && forall i :: 0 <= i < |visited| ==> visited[i] == cells[i].id
    ensures left == if isDel then segments - Ids(cells) else segments
  {
    assert 0 < |ring|;
    hide R.Linked, R.Placed, R.Mirrors, Attached;
    var curr := headId;
    haveData, leaveLog, left, visited := false, "", segments, [];
    ghost var k := 0;
    while true
      invariant 0 <= k < |ring| && curr == cells[k].id
      invariant leaveLog == Flat(cells[..k]) && haveData == (leaveLog != "")
      invariant |visited| == k && forall i :: 0 <= i < k ==> visited[i] == cells[i].id
      invariant left == if isDel then segments - Ids(cells[..k]) else segments
      decreases |ring| - k
    {
      SegmentAt(segments, ring, cells, cellLen, whole, k);
      IdsSnoc(cells, k);
      FlatSnoc(cells, k);
      var cf := left[curr];
      assert cf == ring[k];
      if !cf.IsEmpty() {
        haveData := true;
        leaveLog := leaveLog + cf.Contents();
      }
      var nextId := cf.nextShmId;
      if isDel { left := left - {curr}; }
      visited := visited + [curr];
      curr := nextId;
      k := k + 1;
      if curr == headId { break; }
    }
    assert cells[..k] == cells;
  }

  /** The tool run on whatever the log left in shared memory, at any point between two steps. */
  method Flush(headId: int, segments: map<int, R.BufferCell>, isDel: bool, ghost log: R.RingLog)
    returns (haveData: bool, leaveLog: string, left: map<int, R.BufferCell>, ghost visited: seq<int>)
    requires log.Valid() && headId == log.prstShmId && Attached(segments, log.ring)
    ensures leaveLog == Flat(log.model.cells) && haveData == (leaveLog != "")
    ensures |visited| == |log.model.cells| && forall i :: 0 <= i < |visited| ==> visited[i] == log.model.cells[i].id
    ensures left == if isDel then segments - Ids(log.model.cells) else segments
  {
    ReachableInv(log.model);
    haveData, leaveLog, left, visited := Walk(headId, segments, isDel,
      log.ring, log.model.cells, log.model.cellLen, log.whole);
  }

  lemma FlatSnoc(cells: seq<Cell>, k: nat)
    requires k < |cells|
    ensures Flat(cells[..k + 1]) == Flat(cells[..k]) + cells[k].data
  {
    assert cells[..k + 1] == cells[..k] + [cells[k]];
    FlatConcat(cells[..k], [cells[k]]);
    assert Flat([cells[k]]) == cells[k].data + Flat([]);
  }

  /** Crash recovery is complete at every point of every run in which no record goes astray: the dump
      appended to the file gives all accepted records in order, except that the cell just written
      but not yet cleared is at the end of the file as well. */
  lemma {:induction false} RecoveryComplete(cellLen: nat, a: int, b: int, c: int, steps: seq<Action>)
    requires Buildable(cellLen, a, b, c) && IsRun(Init(cellLen, a, b, c), steps)
    requires !Misplacing(Init(cellLen, a, b, c), steps)
    ensures var s := After(Init(cellLen, a, b, c), steps);
      && 0 < |s.cells|
      && var twice := if s.phase == Persisted then s.cells[0].data else "";
         EndsWith(s.file, twice) && s.file[..|s.file| - |twice|] + Flat(s.cells) == Join(s.accepted)
  {
    InitInv(cellLen, a, b, c);
    RunKeepsInv(Init(cellLen, a, b, c), steps);
    AstrayIff(Init(cellLen, a, b, c), steps);
    var s := After(Init(cellLen, a, b, c), steps);
    var twice := if s.phase == Persisted then s.cells[0].data else "";
    var kept := s.file[..|s.file| - |twice|];
    assert s.file == kept + twice;
    if s.phase == Persisted {
      assert kept + (s.cells[0].data + Flat(s.cells[1..])) == s.file + Flat(s.cells[1..]);
    }
  }
}
