/** The timer heap: an array min-heap by deadline whose entries know their place.

    Deleting a timer only clears its callback; the entry stays until its deadline has passed. */
module TimerHeap {

  class HeapTimer {
    var hasCallback: bool
    var expireTime: int
    var pos: nat

    constructor (expireTime: int)
      ensures this.expireTime == expireTime && pos == 0 && !hasCallback
    {
      this.expireTime := expireTime;
      pos := 0;
      hasCallback := false;
    }
  }

  /** An entry of the heap as its clients see it. */
  datatype Entry = Entry(deadline: int, live: bool)

  /** What the heap stands for: the deadlines of its entries, and which still have a callback. */
  type Book = map<HeapTimer, Entry>

  /** The entries to be called back at `now`. */
  ghost function Due(m: Book, now: int): set<HeapTimer> {
    set t | t in m && m[t].live && m[t].deadline <= now
  }

  ghost function Later(m: Book, now: int): Book {
    map t | t in m && m[t].deadline > now :: m[t]
  }

  /** `fired` is `due`, each entry once, in order of deadlines. */
  ghost predicate InOrder(m: Book, due: set<HeapTimer>, fired: seq<HeapTimer>) {
    && (forall t :: t in due ==> t in fired) && (forall t :: t in fired ==> t in due)
    && (forall i, j :: 0 <= i < j < |fired| ==> fired[i] != fired[j])
    && (forall i :: 0 <= i < |fired| ==> fired[i] in m)
    && (forall i, j :: 0 <= i < j < |fired| ==> m[fired[i]].deadline <= m[fired[j]].deadline)
  }

  ghost function Only(m: Book, left: set<HeapTimer>): Book
    requires left <= m.Keys
  {
    map t | t in left :: m[t]
  }

  ghost predicate LeastOf(m: Book, left: set<HeapTimer>, top: HeapTimer) {
    top in left && left <= m.Keys && forall t :: t in left ==> m[top].deadline <= m[t].deadline
  }

  /** A tick under way: the entries in `left` are still there, the others were due and not later. */
  ghost predicate PartTicked(m: Book, left: set<HeapTimer>, now: int, fired: seq<HeapTimer>) {
    && left <= m.Keys
    && (forall t :: t in m && t !in left ==> m[t].deadline <= now)
    && (forall t, u :: t in m && t !in left && u in left ==> m[t].deadline <= m[u].deadline)
    && InOrder(m, (set t | t in m && t !in left && m[t].live), fired)
  }

  lemma TickOne(m: Book, left: set<HeapTimer>, now: int, fired: seq<HeapTimer>, top: HeapTimer)
    requires PartTicked(m, left, now, fired) && LeastOf(m, left, top) && m[top].deadline <= now
    ensures PartTicked(m, left - {top}, now, if m[top].live then fired + [top] else fired)
  {
    var rest := left - {top};
    var gone := set t | t in m && t !in left && m[t].live;
    if m[top].live {
      var next := fired + [top];
      assert (set t | t in m && t !in rest && m[t].live) == gone + {top};
      assert forall i :: 0 <= i < |fired| ==> next[i] == fired[i] && fired[i] in gone;
      assert forall t :: t in fired ==> t in next;
      assert next[|fired|] == top;
    } else {
      assert (set t | t in m && t !in rest && m[t].live) == gone;
    }
  }

  lemma TickEnd(m: Book, left: set<HeapTimer>, now: int, fired: seq<HeapTimer>)
    requires PartTicked(m, left, now, fired) && forall t :: t in left ==> m[t].deadline > now
    ensures Only(m, left) == Later(m, now) && InOrder(m, Due(m, now), fired)
  {
    assert Due(m, now) == set t | t in m && t !in left && m[t].live;
  }

  ghost function Itself(t: HeapTimer?): set<HeapTimer> {
    if t == null then {} else {t}
  }

  function Parent(i: nat): nat
    requires 0 < i
  {
    (i - 1) / 2
  }

  function Pow2(k: nat): nat {
    if k == 0 then 1 else 2 * Pow2(k - 1)
  }

  /** The leftmost slot `k` levels below `node`. */
  function Leftmost(node: nat, k: nat): nat {
    if k == 0 then node else 2 * Leftmost(node, k - 1) + 1
  }

  lemma {:induction false} LeftmostIs(node: nat, k: nat)
    ensures Leftmost(node, k) + 1 == (node + 1) * Pow2(k)
  {
    if k != 0 { LeftmostIs(node, k - 1); }
  }

  // ---------------------------------------------------------------- predicates on the array

  /** The first `n` slots but `hole` hold the members but `tmp`, each once and each at its `pos`. */
  ghost predicate PlacedBut(a: array<HeapTimer?>, n: nat, members: set<HeapTimer>, hole: nat, tmp: HeapTimer)
    requires n <= a.Length
    reads a, members
  {
    && tmp in members && hole < n
    && (forall i {:trigger a[i]} :: 0 <= i < n && i != hole ==>
          a[i] != null && a[i] in members && a[i] != tmp && a[i].pos == i)
    && (forall t {:trigger t.pos} :: t in members && t != tmp ==> t.pos < n && t.pos != hole && a[t.pos] == t)
  }

  ghost predicate Placed(a: array<HeapTimer?>, n: nat, members: set<HeapTimer>)
    requires n <= a.Length
    reads a, members
  {
    && (forall i {:trigger a[i]} :: 0 <= i < n ==> a[i] != null && a[i] in members && a[i].pos == i)
    && (forall t {:trigger t.pos} :: t in members ==> t.pos < n && a[t.pos] == t)
  }

  /** Heap order, except between `hole` and its neighbours. */
  ghost predicate OrderedBut(a: array<HeapTimer?>, n: nat, members: set<HeapTimer>, hole: nat, tmp: HeapTimer)
    requires n <= a.Length && PlacedBut(a, n, members, hole, tmp)
    reads a, members
  {
    forall i {:trigger Parent(i)} :: 0 < i < n && i != hole && Parent(i) != hole ==>
      a[Parent(i)].expireTime <= a[i].expireTime
  }

  ghost predicate Ordered(a: array<HeapTimer?>, n: nat, members: set<HeapTimer>)
    requires n <= a.Length && Placed(a, n, members)
    reads a, members
  {
    forall i {:trigger Parent(i)} :: 0 < i < n ==> a[Parent(i)].expireTime <= a[i].expireTime
  }

  /** No entry has a deadline before the root's. */
  lemma {:induction false} RootIsLeast(a: array<HeapTimer?>, n: nat, members: set<HeapTimer>, i: nat)
    requires i < n <= a.Length && Placed(a, n, members) && Ordered(a, n, members)
    ensures a[0].expireTime <= a[i].expireTime
    decreases i
  {
    if i != 0 { RootIsLeast(a, n, members, Parent(i)); }
  }

  /** The hole is a gap in heap order only: what is above it is not later than what is below. */
  ghost predicate Bridged(a: array<HeapTimer?>, n: nat, members: set<HeapTimer>, hole: nat, tmp: HeapTimer)
    requires n <= a.Length && PlacedBut(a, n, members, hole, tmp)
    reads a, members
  {
    0 < hole ==>
      forall i {:trigger Parent(i)} :: 0 < i < n && Parent(i) == hole ==> a[Parent(hole)].expireTime <= a[i].expireTime
  }

  /** Moving the entry at `from` into the hole at `to`, and the hole to `from`. */
  method Lift(a: array<HeapTimer?>, ghost n: nat, ghost members: set<HeapTimer>, from: nat, to: nat,
              ghost tmp: HeapTimer)
    requires n <= a.Length && PlacedBut(a, n, members, to, tmp) && from < n && from != to
    modifies a, members`pos
    ensures PlacedBut(a, n, members, from, tmp)
    ensures a[to] == old(a[from]) && forall i :: 0 <= i < a.Length && i != to ==> a[i] == old(a[i])
  {
    a[to] := a[from];
    a[to].pos := to;
  }

  /** Filling the hole. */
  method Fill(a: array<HeapTimer?>, ghost n: nat, ghost members: set<HeapTimer>, hole: nat, tmp: HeapTimer)
    requires n <= a.Length && PlacedBut(a, n, members, hole, tmp)
    modifies a, tmp`pos
    ensures Placed(a, n, members)
    ensures a[hole] == tmp && forall i :: 0 <= i < a.Length && i != hole ==> a[i] == old(a[i])
  {
    a[hole] := tmp;
    a[hole].pos := hole;
  }

  /** Everything but the entry that belongs into the hole is in order. */
  ghost predicate Sifting(a: array<HeapTimer?>, n: nat, members: set<HeapTimer>, hole: nat, tmp: HeapTimer)
    requires n <= a.Length
    reads a, members
  {
    && PlacedBut(a, n, members, hole, tmp)
    && OrderedBut(a, n, members, hole, tmp) && Bridged(a, n, members, hole, tmp)
  }

  /** The entry is not earlier than what is above the hole. */
  ghost predicate NotEarly(a: array<HeapTimer?>, n: nat, members: set<HeapTimer>, hole: nat, tmp: HeapTimer)
    requires n <= a.Length && PlacedBut(a, n, members, hole, tmp)
    reads a, members
  {
    0 < hole ==> a[Parent(hole)].expireTime <= tmp.expireTime
  }

  /** An entry on its way down. */
  ghost predicate Sinking(a: array<HeapTimer?>, n: nat, members: set<HeapTimer>, hole: nat, tmp: HeapTimer)
    requires n <= a.Length
    reads a, members
  {
    Sifting(a, n, members, hole, tmp) && NotEarly(a, n, members, hole, tmp)
  }

  /** ... and nothing below the hole is earlier. */
  ghost predicate Settled(a: array<HeapTimer?>, n: nat, members: set<HeapTimer>, hole: nat, tmp: HeapTimer)
    requires n <= a.Length && PlacedBut(a, n, members, hole, tmp)
    reads a, members
  {
    forall i {:trigger Parent(i)} :: 0 < i < n && i != hole && Parent(i) == hole ==> tmp.expireTime <= a[i].expireTime
  }

  /** The smaller child moves up. */
  method Sink(a: array<HeapTimer?>, ghost n: nat, ghost members: set<HeapTimer>, hole: nat, child: nat,
              ghost tmp: HeapTimer)
    requires n <= a.Length && Sinking(a, n, members, hole, tmp)
    requires hole < child < n && Parent(child) == hole && a[child].expireTime <= tmp.expireTime
    requires forall i {:trigger Parent(i)} ::
      0 < i < n && i != hole && Parent(i) == hole ==> a[child].expireTime <= a[i].expireTime
    modifies a, members`pos
    ensures Sinking(a, n, members, child, tmp)
    ensures forall i :: n <= i < a.Length ==> a[i] == old(a[i])
  {
    Lift(a, n, members, child, hole, tmp);
    forall i | 0 < i < n && i != child && Parent(i) != child ensures a[Parent(i)].expireTime <= a[i].expireTime {
      assert i != hole ==> a[i] == old(a[i]);
      assert Parent(i) != hole ==> a[Parent(i)] == old(a[Parent(i)]);
    }
    forall i | 0 < i < n && Parent(i) == child ensures a[hole].expireTime <= a[i].expireTime {
      assert a[i] == old(a[i]) && i != hole;
    }
  }

  /** One turn of the loop. */
  method SinkStep(a: array<HeapTimer?>, n: nat, ghost members: set<HeapTimer>, hole: nat, tmp: HeapTimer)
    returns (child: nat, moved: bool)
    requires n <= a.Length && Sifting(a, n, members, hole, tmp) && hole * 2 + 1 < n
    modifies a, members`pos
    ensures hole < child < n && hole * 2 + 1 <= child
    ensures forall i :: n <= i < a.Length ==> a[i] == old(a[i])
    ensures moved ==> Sinking(a, n, members, child, tmp) && old(NotEarly(a, n, members, hole, tmp))
    ensures !moved ==> Sifting(a, n, members, hole, tmp) && Settled(a, n, members, hole, tmp)
    ensures !moved ==> NotEarly(a, n, members, hole, tmp) == old(NotEarly(a, n, members, hole, tmp))
  {
    child := hole * 2 + 1;
    if child + 1 < n && a[child + 1].expireTime < a[child].expireTime { child := child + 1; }
    assert forall i {:trigger Parent(i)} ::
        0 < i < n && i != hole && Parent(i) == hole ==> a[child].expireTime <= a[i].expireTime by {
      forall i | 0 < i < n && Parent(i) == hole ensures i == hole * 2 + 1 || i == hole * 2 + 2 {}
    }
    moved := tmp.expireTime > a[child].expireTime;
    if moved {
      assert Parent(child) == hole;
      Sink(a, n, members, hole, child, tmp);
    }
  }

  /** The loop: how far the hole sinks is bounded by the levels there are. */
  method SinkAll(a: array<HeapTimer?>, n: nat, ghost members: set<HeapTimer>, node: nat, tmp: HeapTimer)
    returns (hole: nat, ghost steps: nat)
    requires n <= a.Length && Sifting(a, n, members, node, tmp)
    modifies a, members`pos
    ensures hole < n && Sifting(a, n, members, hole, tmp) && Settled(a, n, members, hole, tmp)
    ensures NotEarly(a, n, members, hole, tmp) == old(NotEarly(a, n, members, node, tmp))
    ensures forall i :: n <= i < a.Length ==> a[i] == old(a[i])
    ensures Leftmost(node, steps) <= hole
  {
    hole := node;
    steps := 0;
    while hole * 2 + 1 < n
      invariant hole < n && Sifting(a, n, members, hole, tmp)
      invariant NotEarly(a, n, members, hole, tmp) == old(NotEarly(a, n, members, node, tmp))
      invariant forall i :: n <= i < a.Length ==> a[i] == old(a[i])
      invariant Leftmost(node, steps) <= hole
    {
      var child, moved := SinkStep(a, n, members, hole, tmp);
      if !moved { return; }
      hole := child;
      steps := steps + 1;
    }
  }

  /** The end of the loop. */
  method Settle(a: array<HeapTimer?>, ghost n: nat, ghost members: set<HeapTimer>, hole: nat, tmp: HeapTimer)
    requires n <= a.Length && Sifting(a, n, members, hole, tmp) && Settled(a, n, members, hole, tmp)
    modifies a, tmp`pos
    ensures Placed(a, n, members) && (Ordered(a, n, members) <==> old(NotEarly(a, n, members, hole, tmp)))
    ensures forall i :: n <= i < a.Length ==> a[i] == old(a[i])
  {
    Fill(a, n, members, hole, tmp);
    assert 0 < hole ==> a[Parent(hole)] == old(a[Parent(hole)]);
  }

  lemma {:induction false} LeftmostUp(i: nat, k: nat)
    requires 0 < i
    ensures Leftmost(Parent(i), k + 1) <= Leftmost(i, k)
  {
    if k != 0 { LeftmostUp(i, k - 1); }
  }

  /** A new entry on its way up: what is below the hole is not earlier. */
  ghost predicate Rising(a: array<HeapTimer?>, n: nat, members: set<HeapTimer>, hole: nat, tmp: HeapTimer)
    requires n <= a.Length
    reads a, members
  {
    && PlacedBut(a, n, members, hole, tmp) && OrderedBut(a, n, members, hole, tmp)
    && Bridged(a, n, members, hole, tmp) && Settled(a, n, members, hole, tmp)
  }

  /** The parent, which is later, moves down. */
  method Rise(a: array<HeapTimer?>, ghost n: nat, ghost members: set<HeapTimer>, hole: nat, parent: nat,
              ghost tmp: HeapTimer)
    requires n <= a.Length && Rising(a, n, members, hole, tmp)
    requires 0 < hole && parent == Parent(hole) && tmp.expireTime <= a[parent].expireTime
    modifies a, members`pos
    ensures Rising(a, n, members, parent, tmp)
    ensures forall i :: n <= i < a.Length ==> a[i] == old(a[i])
  {
    Lift(a, n, members, parent, hole, tmp);
    forall i | 0 < i < n && i != parent && Parent(i) != parent ensures a[Parent(i)].expireTime <= a[i].expireTime {
      assert i != hole ==> a[i] == old(a[i]);
      assert Parent(i) != hole ==> a[Parent(i)] == old(a[Parent(i)]);
    }
    forall i | 0 < i < n && i != parent && Parent(i) == parent
      ensures old(a[parent]).expireTime <= a[i].expireTime
    {
      if i != hole { assert a[i] == old(a[i]); }
    }
    if 0 < parent { assert a[Parent(parent)] == old(a[Parent(parent)]); }
  }

  /** The loop of an insertion. */
  method RiseAll(a: array<HeapTimer?>, ghost n: nat, ghost members: set<HeapTimer>, last: nat, tmp: HeapTimer)
    returns (hole: nat, ghost steps: nat)
    requires n <= a.Length && Rising(a, n, members, last, tmp)
    modifies a, members`pos
    ensures hole < n && Sinking(a, n, members, hole, tmp) && Settled(a, n, members, hole, tmp)
    ensures forall i :: n <= i < a.Length ==> a[i] == old(a[i])
    ensures Leftmost(hole, steps) <= last
  {
    hole := last;
    steps := 0;
    while hole > 0
      invariant Rising(a, n, members, hole, tmp)
      invariant forall i :: n <= i < a.Length ==> a[i] == old(a[i])
      invariant Leftmost(hole, steps) <= last
    {
      var parent := (hole - 1) / 2;
      assert parent == Parent(hole) && a[parent] != null;
      if a[parent].expireTime > tmp.expireTime {
        Rise(a, n, members, hole, parent, tmp);
      } else {
        break;
      }
      LeftmostUp(hole, steps);
      hole := parent;
      steps := steps + 1;
    }
  }

  // ---------------------------------------------------------------- the two ends

  /** An entry in its place, as an entry about to sink. */
  lemma AtHole(a: array<HeapTimer?>, n: nat, members: set<HeapTimer>, tmp: HeapTimer)
    requires n <= a.Length && Placed(a, n, members) && tmp in members
    ensures PlacedBut(a, n, members, tmp.pos, tmp)
  {
  }

  /** A new last slot, as a hole to rise from. */
  lemma AtEnd(a: array<HeapTimer?>, n: nat, members: set<HeapTimer>, tmp: HeapTimer)
    requires n < a.Length && Placed(a, n, members) && Ordered(a, n, members) && tmp !in members
    ensures Rising(a, n + 1, members + {tmp}, n, tmp)
  {
  }

  /** The last entry put in the place of the root. */
  method LastToRoot(a: array<HeapTimer?>, n: nat, ghost members: set<HeapTimer>, ghost root: HeapTimer)
    requires 0 < n <= a.Length && Placed(a, n, members) && Ordered(a, n, members) && root == a[0]
    modifies a
    ensures a[0] == old(a[n - 1]) && a[0] != null && a[0] in members
    ensures if n == 1 then members - {root} == {} else Sinking(a, n - 1, members - {root}, 0, a[0])
  {
    if n == 1 {
      forall t | t in members ensures t == root { assert t.pos == 0; }
    }
    a[0] := a[n - 1];
  }

  lemma LevelsBound(node: nat, steps: nat, n: nat)
    requires (node + 1) * Pow2(steps) <= n
    ensures Pow2(steps) <= n
  {
    assert node * Pow2(steps) >= 0;
    assert (node + 1) * Pow2(steps) == node * Pow2(steps) + Pow2(steps);
  }

  /** An insertion from the hole in the last slot on. */
  method RiseToPlace(a: array<HeapTimer?>, ghost n: nat, ghost members: set<HeapTimer>, last: nat, tmp: HeapTimer)
    returns (ghost steps: nat)
    requires n <= a.Length && last < n && Rising(a, n, members, last, tmp)
    modifies a, members`pos
    ensures Placed(a, n, members) && Ordered(a, n, members) && Pow2(steps) <= n
  {
    assert tmp in members;
    hide Sinking, Rising, Settled, Placed, Ordered;
    var hole;
    hole, steps := RiseAll(a, n, members, last, tmp);
    Settle(a, n, members, hole, tmp);
    LeftmostIs(hole, steps);
    LevelsBound(hole, steps, n);
  }

  // ---------------------------------------------------------------- the heap

  class TimerHeap {
    var capacity: nat
    var curNum: nat
    var timers: array<HeapTimer?>
    ghost var members: set<HeapTimer>

    ghost predicate Shaped()
      reads this
    {
      curNum <= capacity == timers.Length && 1 <= capacity
    }

    ghost predicate Valid()
      reads this, timers, members
    {
      Shaped() && Placed(timers, curNum, members) && Ordered(timers, curNum, members)
    }

    /** The entries: what the heap stands for. */
    ghost function Entries(): Book
      reads this, members
    {
      map t | t in members :: Entry(t.expireTime, t.hasCallback)
    }

    constructor (capacity: nat)
      requires 1 <= capacity
      ensures Valid() && curNum == 0 && members == {} && Entries() == map[] && fresh(timers)
    {
      this.capacity := capacity;
      curNum := 0;
      timers := new HeapTimer?[capacity](_ => null);
      members := {};
    }

    /** Sifting the entry at `node` down.  Its deadline and `pos` may be anything; everything else is
        in order.  This restores the heap exactly if the entry is not earlier than its parent.  The
        number of levels it sinks is at most the base-2 logarithm of the number of entries.  On an
        empty heap it only writes the slot back. */
    method HeapDown(node: nat, ghost entry: HeapTimer) returns (ghost steps: nat)
      requires Shaped() && node < timers.Length && timers[node] == entry
      requires if curNum == 0 then members == {} else Sifting(timers, curNum, members, node, entry)
      modifies timers, members`pos, entry`pos
      ensures Shaped() && Placed(timers, curNum, members)
      ensures Valid() <==> curNum == 0 || old(NotEarly(timers, curNum, members, node, entry))
      ensures forall i :: curNum <= i < timers.Length ==> timers[i] == old(timers[i])
      ensures 0 < curNum ==> (node + 1) * Pow2(steps) <= curNum
    {
      var tmp := timers[node];
      var hole := node;
      steps := 0;
      if curNum == 0 {
        timers[hole] := tmp;
        timers[hole].pos := hole;
      } else {
        hole, steps := SinkAll(timers, curNum, members, node, tmp);
        Settle(timers, curNum, members, hole, tmp);
        LeftmostIs(node, steps);
      }
    }

    /** Doubling the array. */
    method Resize()
      requires Valid()
      modifies this
      ensures Valid() && fresh(timers) && capacity == 2 * old(capacity)
      ensures curNum == old(curNum) && members == old(members)
    {
      var tmp := new HeapTimer?[capacity * 2](_ => null);
      forall i | 0 <= i < curNum { tmp[i] := timers[i]; }
      assert forall i :: 0 <= i < curNum ==> tmp[i] == timers[i];
      capacity := capacity * 2;
      timers := tmp;
    }

    /** Putting an entry into the first free slot and letting it rise. */
    method Insert(t: HeapTimer) returns (ghost steps: nat)
      requires Valid() && t !in members && curNum < capacity
      modifies this, timers, members`pos, t`pos
      ensures Valid() && timers == old(timers) && members == old(members) + {t}
      ensures Pow2(steps) <= curNum == old(curNum) + 1
    {
      var last := curNum;
      ghost var before := members;
      curNum := curNum + 1;
      members := members + {t};
      AtEnd(timers, last, before, t);
      hide Rising, Placed, Ordered;
      steps := RiseToPlace(timers, curNum, members, last, t);
    }

    /** Adding an entry; it rises over at most as many levels as there are. */
    method AddTimer(t: HeapTimer?) returns (ghost steps: nat)
      requires Valid() && (t != null ==> t !in members)
      modifies this, timers, members`pos, Itself(t)`pos
      ensures Valid() && (timers == old(timers) || fresh(timers))
      ensures members == if t == null then old(members) else old(members) + {t}
      ensures t != null ==> Pow2(steps) <= curNum == old(curNum) + 1
    {
      steps := 0;
      if t == null { return; }
      if curNum >= capacity { Resize(); }
      steps := Insert(t);
    }

    /** After its deadline has been changed, an entry sinks to its place.  It never rises, so this
        restores the heap exactly if the new deadline is not before the parent's. */
    method Adjust(t: HeapTimer) returns (ghost steps: nat)
      requires Shaped() && Placed(timers, curNum, members) && t in members
      requires Sifting(timers, curNum, members, t.pos, t)
      modifies timers, members`pos
      ensures Shaped() && Placed(timers, curNum, members) && Pow2(steps) <= curNum
      ensures Valid() <==> old(NotEarly(timers, curNum, members, t.pos, t))
    {
      ghost var node := t.pos;
      steps := HeapDown(t.pos, t);
      LevelsBound(node, steps, curNum);
    }

    /** Lazy deletion: the entry stays in the array. */
    method DelTimer(t: HeapTimer?)
      requires Valid()
      modifies Itself(t)`hasCallback
      ensures Valid() && (t != null ==> !t.hasCallback)
    {
      if t == null { return; }
      t.hasCallback := false;
    }

    method RemoveRoot(ghost root: HeapTimer) returns (ghost steps: nat)
      requires Valid() && 0 < curNum && root == timers[0] && root in members
      modifies this, timers, members`pos
      ensures Valid() && timers == old(timers) && curNum == old(curNum) - 1 && members == old(members) - {root}
      ensures 0 < curNum ==> Pow2(steps) <= curNum
    {
      hide Placed, Ordered, PlacedBut, OrderedBut, Bridged;
      ghost var before := members;
      curNum := curNum - 1;
      members := members - {root};
      LastToRoot(timers, curNum + 1, before, root);
      steps := HeapDown(0, timers[0]);
      if 0 < curNum { LevelsBound(0, steps, curNum); }
    }

    /** Removing the root, which has the least deadline of all. */
    method PopTimer() returns (ghost steps: nat)
      requires Valid()
      modifies this, timers, members`pos
      ensures Valid() && timers == old(timers)
      ensures old(curNum) == 0 ==> curNum == 0 && members == old(members)
      ensures 0 < old(curNum) ==> curNum == old(curNum) - 1
      ensures 0 < old(curNum) ==> old(timers[0]) in old(members) && members == old(members) - {old(timers[0])}
      ensures 0 < curNum ==> Pow2(steps) <= curNum
    {
      steps := 0;
      if curNum == 0 { return; }
      steps := RemoveRoot(timers[0]);
    }

    /** The root is an entry, and none is due before it. */
    lemma RootFirst()
      requires Valid() && 0 < curNum
      ensures timers[0] in members && forall t :: t in members ==> timers[0].expireTime <= t.expireTime
    {
      forall t | t in members ensures timers[0].expireTime <= t.expireTime {
        RootIsLeast(timers, curNum, members, t.pos);
      }
    }

    lemma RootIsLeastOf(book: Book)
      requires Valid() && 0 < curNum && members <= book.Keys && Entries() == Only(book, members)
      ensures LeastOf(book, members, timers[0])
      ensures book[timers[0]] == Entry(timers[0].expireTime, timers[0].hasCallback)
    {
      RootFirst();
      assert forall t :: t in members ==> Entries()[t] == book[t];
    }

    lemma SecondIsBehind(first: HeapTimer, second: HeapTimer)
      requires Valid() && members == {first, second} && first.expireTime < second.expireTime && curNum == 2
      ensures second.pos == 1 && timers[0] == first
    {
      RootFirst();
    }

    lemma EmptyHeap()
      requires Valid() && curNum == 0
      ensures members == {}
    {
      assert forall t :: t in members ==> t.pos < curNum;
    }

    /** Calling back exactly the live entries that are due, once each and in order of deadlines;
        only entries with later deadlines stay. */
    method Tick(now: int) returns (fired: seq<HeapTimer>)
      requires Valid()
      modifies this, timers, members`pos
      ensures Valid() && timers == old(timers)
      ensures Entries() == Later(old(Entries()), now)
      ensures InOrder(old(Entries()), Due(old(Entries()), now), fired)
    {
      hide Placed, Ordered;
      fired := [];
      ghost var book := Entries();
      while curNum > 0
        invariant Valid() && timers == old(timers) && members <= old(members)
        invariant Entries() == Only(book, members) && PartTicked(book, members, now, fired)
        decreases curNum
      {
        var top := timers[0];
        RootIsLeastOf(book);
        if top.expireTime > now { break; }
        TickOne(book, members, now, fired, top);
        if top.hasCallback { fired := fired + [top]; }
        ghost var steps := PopTimer();
      }
      if curNum == 0 { EmptyHeap(); } else { RootIsLeastOf(book); }
      TickEnd(book, members, now, fired);
    }

    /** The new deadline alone leaves the entry to be sifted. */
    method SetDeadline(t: HeapTimer, deadline: int)
      requires Valid() && t in members
      modifies t`expireTime
      ensures t.expireTime == deadline && Shaped() && Placed(timers, curNum, members)
      ensures Sifting(timers, curNum, members, t.pos, t)
      ensures NotEarly(timers, curNum, members, t.pos, t) <==>
        t.pos == 0 || old(timers[Parent(t.pos)].expireTime) <= deadline
    {
      AtHole(timers, curNum, members, t);
      t.expireTime := deadline;
    }

    /** What the event loop does on activity: a new deadline, then the sift.  The other deadlines
        stay, and the heap is well formed exactly if the new one is not before the parent's. */
    method Reschedule(t: HeapTimer, deadline: int)
      requires Valid() && t in members
      modifies this, timers, members`pos, t`expireTime
      ensures timers == old(timers) && curNum == old(curNum) && capacity == old(capacity)
      ensures Entries() == old(Entries())[t := Entry(deadline, t.hasCallback)]
      ensures Valid() <==> old(t.pos) == 0 || old(timers[Parent(t.pos)].expireTime) <= deadline
    {
      SetDeadline(t, deadline);
      hide Placed, Ordered, OrderedBut, Bridged;
      ghost var steps := Adjust(t);
    }

    /** A later deadline never is. */
    method Postpone(t: HeapTimer, deadline: int)
      requires Valid() && t in members && t.expireTime <= deadline
      modifies this, timers, members`pos, t`expireTime
      ensures Valid() && timers == old(timers)
      ensures Entries() == old(Entries())[t := Entry(deadline, t.hasCallback)]
    {
      assert 0 < t.pos ==> timers[Parent(t.pos)].expireTime <= timers[t.pos].expireTime;
      Reschedule(t, deadline);
    }
  }

  /** With two timers, moving the later one ahead of the other, as after a clock that was set back, leaves
      the heap out of order. */
  method EarlierDeadline(first: HeapTimer, second: HeapTimer) returns (heap: TimerHeap)
    requires first != second && first.expireTime == 1 && second.expireTime == 2
    modifies first, second
    ensures fresh(heap) && !heap.Valid()
    ensures heap.Entries() == map[first := Entry(1, first.hasCallback), second := Entry(0, second.hasCallback)]
  {
    hide Placed, Ordered;
    heap := new TimerHeap(2);
    ghost var steps := heap.AddTimer(first);
    steps := heap.AddTimer(second);
    heap.SecondIsBehind(first, second);
    heap.Reschedule(second, 0);
  }

  // ---------------------------------------------------------------- runs

  datatype Op =
    | Add(t: HeapTimer, deadline: int)
    | Delay(t: HeapTimer, deadline: int)
    | Delete(t: HeapTimer)
    | TickAt(now: int)

  /** What the callers of the heap keep to: a timer is added only when it is not in the heap, and
      delayed only while it is and only to a later time. */
  ghost predicate OpOk(m: Book, op: Op) {
    match op
    case Add(t, _) => t !in m
    case Delay(t, deadline) => t in m && m[t].deadline <= deadline
    case Delete(_) => true
    case TickAt(_) => true
  }

  ghost function After(m: Book, op: Op): Book {
    match op
    case Add(t, deadline) => m[t := Entry(deadline, true)]
    case Delay(t, deadline) => if t in m then m[t := Entry(deadline, m[t].live)] else m
    case Delete(t) => if t in m then m[t := m[t].(live := false)] else m
    case TickAt(now) => Later(m, now)
  }

  ghost function AfterAll(m: Book, ops: seq<Op>): Book
    decreases |ops|
  {
    if ops == [] then m else After(AfterAll(m, ops[..|ops| - 1]), ops[|ops| - 1])
  }

  ghost predicate RunOk(m: Book, ops: seq<Op>) {
    forall k :: 0 <= k < |ops| ==> OpOk(AfterAll(m, ops[..k]), ops[k])
  }

  function TimerOf(op: Op): set<HeapTimer> {
    match op
    case TickAt(_) => {}
    case _ => {op.t}
  }

  /** What one operation calls back: a tick the live timers that are due, the others nothing. */
  ghost predicate Called(m: Book, op: Op, fired: seq<HeapTimer>) {
    if op.TickAt? then InOrder(m, Due(m, op.now), fired) else fired == []
  }

  /** None of the operations from `from` up to `upTo` is on `t`. */
  ghost predicate Untouched(ops: seq<Op>, from: nat, upTo: nat, t: HeapTimer)
    requires upTo <= |ops|
  {
    forall k :: from <= k < upTo ==> t !in TimerOf(ops[k])
  }

  /** No tick from `from` up to `upTo` comes at or after `deadline`. */
  ghost predicate NoTickReaches(ops: seq<Op>, from: nat, upTo: nat, deadline: int)
    requires upTo <= |ops|
  {
    forall k :: from <= k < upTo && ops[k].TickAt? ==> ops[k].now < deadline
  }

  lemma AfterSnoc(m: Book, ops: seq<Op>, k: nat)
    requires k < |ops|
    ensures AfterAll(m, ops[..k + 1]) == After(AfterAll(m, ops[..k]), ops[k])
  {
    assert ops[..k + 1][..k] == ops[..k];
  }

  /** A timer nobody touches stays as it is up to the first tick that reaches its deadline. */
  lemma {:induction false} StaysUntilReached(m: Book, ops: seq<Op>, from: nat, upTo: nat, t: HeapTimer)
    requires from <= upTo <= |ops| && t in AfterAll(m, ops[..from]) && Untouched(ops, from, upTo, t)
    ensures var entry, now := AfterAll(m, ops[..from])[t], AfterAll(m, ops[..upTo]);
            (t in now <==> NoTickReaches(ops, from, upTo, entry.deadline)) && (t in now ==> now[t] == entry)
    decreases upTo
  {
    if from < upTo {
      StaysUntilReached(m, ops, from, upTo - 1, t);
      AfterSnoc(m, ops, upTo - 1);
      assert t !in TimerOf(ops[upTo - 1]);
    }
  }

  /** A timer set to a deadline and then left alone is called back by the first tick that reaches the
      deadline and by no other, and a deleted one by none. */
  lemma CalledBackOnce(m: Book, ops: seq<Op>, from: nat, k: nat, t: HeapTimer, fired: seq<HeapTimer>)
    requires from <= k < |ops| && t in AfterAll(m, ops[..from]) && Untouched(ops, from, k, t) && ops[k].TickAt?
    requires Called(AfterAll(m, ops[..k]), ops[k], fired)
    ensures var entry := AfterAll(m, ops[..from])[t];
            t in fired <==> entry.live && entry.deadline <= ops[k].now && NoTickReaches(ops, from, k, entry.deadline)
  {
    StaysUntilReached(m, ops, from, k, t);
    var before := AfterAll(m, ops[..k]);
    assert t in fired <==> t in Due(before, ops[k].now);
  }

  /** ... and one that is not in the heap stays out of it. */
  lemma {:induction false} StaysOut(m: Book, ops: seq<Op>, from: nat, upTo: nat, t: HeapTimer)
    requires from <= upTo <= |ops| && t !in AfterAll(m, ops[..from]) && Untouched(ops, from, upTo, t)
    ensures t !in AfterAll(m, ops[..upTo])
    decreases upTo
  {
    if from < upTo {
      StaysOut(m, ops, from, upTo - 1, t);
      AfterSnoc(m, ops, upTo - 1);
      assert t !in TimerOf(ops[upTo - 1]);
    }
  }

  /** A timer that was added and then left alone is called back by the first tick that reaches the deadline
      it was added with and by no other; one that was delayed likewise, if it was live; one that was
      deleted by none. */
  lemma {:induction false} CalledBackAsSet(m: Book, ops: seq<Op>, j: nat, k: nat, fired: seq<HeapTimer>)
    requires j < k < |ops| && !ops[j].TickAt? && OpOk(AfterAll(m, ops[..j]), ops[j])
    requires Untouched(ops, j + 1, k, ops[j].t) && ops[k].TickAt? && Called(AfterAll(m, ops[..k]), ops[k], fired)
    ensures ops[j].t in fired <==>
      && !ops[j].Delete? && (ops[j].Delay? ==> AfterAll(m, ops[..j])[ops[j].t].live)
      && ops[j].deadline <= ops[k].now && NoTickReaches(ops, j + 1, k, ops[j].deadline)
  {
    var t := ops[j].t;
    AfterSnoc(m, ops, j);
    if t in AfterAll(m, ops[..j + 1]) {
      CalledBackOnce(m, ops, j + 1, k, t, fired);
    } else {
      StaysOut(m, ops, j + 1, k, t);
      assert t !in Due(AfterAll(m, ops[..k]), ops[k].now);
    }
  }

  /** One operation as the event loop performs it. */
  method Perform(heap: TimerHeap, op: Op) returns (fired: seq<HeapTimer>)
    requires heap.Valid() && OpOk(heap.Entries(), op)
    modifies heap, heap.timers, heap.members, TimerOf(op)
    ensures heap.Valid() && heap.Entries() == After(old(heap.Entries()), op)
    ensures heap.timers == old(heap.timers) || fresh(heap.timers)
    ensures heap.members <= old(heap.members) + TimerOf(op)
    ensures Called(old(heap.Entries()), op, fired)
  {
    fired := [];
    match op
    case Add(t, deadline) =>
      assert t !in heap.members;
      t.expireTime := deadline;
      t.hasCallback := true;
      ghost var steps := heap.AddTimer(t);
    case Delay(t, deadline) =>
      heap.Postpone(t, deadline);
      assert heap.members == heap.Entries().Keys && old(heap.members) == old(heap.Entries()).Keys;
    case Delete(t) =>
      heap.DelTimer(t);
    case TickAt(now) =>
      fired := heap.Tick(now);
      assert heap.members == heap.Entries().Keys && old(heap.members) == old(heap.Entries()).Keys;
  }

  ghost function TimersOf(ops: seq<Op>): set<HeapTimer> {
    set k, t | 0 <= k < |ops| && t in TimerOf(ops[k]) :: t
  }

  /** A run of the heap calls back what the plain map of deadlines says, tick by tick. */
  method PerformAll(heap: TimerHeap, ops: seq<Op>) returns (log: seq<seq<HeapTimer>>)
    requires heap.Valid() && RunOk(heap.Entries(), ops)
    modifies heap, heap.timers, heap.members, TimersOf(ops)
    ensures heap.Valid() && heap.Entries() == AfterAll(old(heap.Entries()), ops)
    ensures |log| == |ops|
    ensures forall k :: 0 <= k < |ops| ==> Called(AfterAll(old(heap.Entries()), ops[..k]), ops[k], log[k])
  {
    ghost var start := heap.Entries();
    log := [];
    for k := 0 to |ops|
      invariant heap.Valid() && heap.Entries() == AfterAll(start, ops[..k]) && |log| == k
      invariant heap.timers == old(heap.timers) || fresh(heap.timers)
      invariant heap.members <= old(heap.members) + TimersOf(ops)
      invariant forall i :: 0 <= i < k ==> Called(AfterAll(start, ops[..i]), ops[i], log[i])
    {
      AfterSnoc(start, ops, k);
      assert TimerOf(ops[k]) <= TimersOf(ops);
      var fired := Perform(heap, ops[k]);
      log := log + [fired];
    }
    assert ops[..|ops|] == ops;
  }
}
