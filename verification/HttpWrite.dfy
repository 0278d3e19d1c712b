/** A connection: what it makes of the request it has read, and sending a response: a header in the
    write buffer and a mapped file, through two iovecs that are moved along after every partial `writev`. */
module HttpWrite {
  import opened HttpModel
  import opened HttpRequest
  import opened HttpVerdict

  /** A byte by where it is read from.  Offsets are relative to the write buffer and to the start of
      the mapped file; a wrong pointer may well be negative. */
  datatype Addr = HeaderAt(offset: int) | FileAt(offset: int)

  datatype Vec = Vec(base: int, len: nat)

  /** `sent` lists the bytes handed to the socket so far. */
  datatype Progress = Progress(dataLen: int, sendLen: nat, head: Vec, body: Vec, sent: seq<Addr>)

  function HeaderBytes(from: int, len: nat): seq<Addr> {
    seq(len, i => HeaderAt(from + i))
  }

  function FileBytes(from: int, len: nat): seq<Addr> {
    seq(len, i => FileAt(from + i))
  }

  /** The response: `header` bytes and then `file` bytes. */
  function Whole(header: nat, file: nat): seq<Addr> {
    HeaderBytes(0, header) + FileBytes(0, file)
  }

  /** What the two iovecs denote. */
  function Denoted(c: Progress): seq<Addr> {
    HeaderBytes(c.head.base, c.head.len) + FileBytes(c.body.base, c.body.len)
  }

  /** What is still to come; nothing once the code takes itself for finished. */
  function Rest(c: Progress): seq<Addr> {
    if c.dataLen <= 0 then [] else Denoted(c)
  }

  function Start(header: nat, file: nat): Progress {
    Progress(header + file, 0, Vec(0, header), Vec(0, file), [])
  }

  /** One successful `writev` on a socket with room for `room` bytes, and the bookkeeping after it. */
  function Advance(header: nat, c: Progress, room: nat): Progress
    requires c.dataLen > 0
  {
    var taken := if room < c.head.len + c.body.len then room else c.head.len + c.body.len;
    var sent := c.sent + Denoted(c)[..taken];
    var sendLen := c.sendLen + taken;
    var dataLen := c.dataLen - taken;
    if dataLen <= 0 then
      Progress(dataLen, sendLen, c.head, c.body, sent)
    else if sendLen >= c.head.len then
      Progress(dataLen, sendLen, c.head.(len := 0), Vec(sendLen - header, dataLen), sent)
    else
      Progress(dataLen, sendLen, Vec(sendLen, c.head.len - sendLen), c.body, sent)
  }

  /** A whole transmission, over any number of calls: one entry for each successful `writev`. */
  function AdvanceAll(header: nat, c: Progress, rooms: seq<nat>): Progress
    decreases |rooms|
  {
    if rooms == [] then c
    else
      var before := AdvanceAll(header, c, rooms[..|rooms| - 1]);
      if before.dataLen <= 0 then before else Advance(header, before, rooms[|rooms| - 1])
  }

  function Sum(rooms: seq<nat>): nat
    decreases |rooms|
  {
    if rooms == [] then 0 else Sum(rooms[..|rooms| - 1]) + rooms[|rooms| - 1]
  }

  /** How many results end strictly inside the header. */
  function StopsInHeader(header: nat, rooms: seq<nat>): nat
    decreases |rooms|
  {
    if rooms == [] then 0
    else StopsInHeader(header, rooms[..|rooms| - 1]) + if 0 < Sum(rooms) < header then 1 else 0
  }

  // ---------------------------------------------------------------- while the iovecs are right

  /** After `done` bytes, with at most one stop inside the header: the iovecs denote the rest. */
  ghost predicate OnTrack(header: nat, file: nat, done: nat, c: Progress) {
    && c.sendLen == |c.sent| == (if done < header + file then done else header + file)
    && c.dataLen == header + file - c.sendLen
    && c.sent == Whole(header, file)[..c.sendLen]
    && (c.dataLen > 0 ==>
          if done < header
          then c.head == Vec(done, header - done) && c.body == Vec(0, file)
          else c.head.len == 0 && c.body == Vec(done - header, header + file - done))
  }

  lemma OnTrackIsRight(header: nat, file: nat, done: nat, c: Progress)
    requires OnTrack(header, file, done, c)
    ensures c.sent + Rest(c) == Whole(header, file)
  {
    if c.dataLen > 0 { assert Denoted(c) == Whole(header, file)[c.sendLen..]; }
  }

  lemma StaysOnTrack(header: nat, file: nat, done: nat, c: Progress, room: nat)
    requires OnTrack(header, file, done, c) && c.dataLen > 0
    requires done == 0 || room + done >= header
    ensures OnTrack(header, file, done + room, Advance(header, c, room))
  {
    OnTrackIsRight(header, file, done, c);
    var taken := if room < c.head.len + c.body.len then room else c.head.len + c.body.len;
    assert Denoted(c) == Whole(header, file)[c.sendLen..];
    assert c.sent + Denoted(c)[..taken] == Whole(header, file)[..c.sendLen + taken];
  }

  // ---------------------------------------------------------------- after a second stop

  /** The header has lost its tail, or a byte of the file already stands where the header should. */
  ghost predicate OffTrack(header: nat, file: nat, c: Progress) {
    && c.sendLen == |c.sent| && c.dataLen == header + file - c.sendLen
    && (|| CutShort(header, file, c)
        || (exists p :: 0 <= p < header && p < |c.sent| && c.sent[p].FileAt?)
        || (c.dataLen > 0 && c.sendLen < header && c.head.len == 0 && c.body == Vec(c.sendLen - header, c.dataLen)))
  }

  /** The first iovec is in the right place and too short. */
  ghost predicate CutShort(header: nat, file: nat, c: Progress) {
    && 0 < c.head.len && c.sendLen == c.head.base && c.head.base + c.head.len < header
    && c.body == Vec(0, file) && c.sent == HeaderBytes(0, c.sendLen)
  }

  lemma OffTrackIsWrong(header: nat, file: nat, c: Progress)
    requires OffTrack(header, file, c)
    ensures c.sent + Rest(c) != Whole(header, file)
  {
    var all := c.sent + Rest(c);
    if CutShort(header, file, c) {
      assert |all| < |Whole(header, file)|;
    } else if p :| 0 <= p < header && p < |c.sent| && c.sent[p].FileAt? {
      assert all[p] != Whole(header, file)[p];
    } else {
      assert all[c.sendLen] == FileAt(c.sendLen - header);
      assert all[c.sendLen] != Whole(header, file)[c.sendLen];
    }
  }

  lemma LeavesTrack(header: nat, file: nat, done: nat, c: Progress, room: nat)
    requires OnTrack(header, file, done, c) && c.dataLen > 0 && 0 < done && done + room < header
    ensures OffTrack(header, file, Advance(header, c, room))
  {
    var next := Advance(header, c, room);
    assert c.sent + Denoted(c)[..room] == HeaderBytes(0, done + room);
    assert next.sendLen == done + room;
    if next.head.len > 0 { assert CutShort(header, file, next); }
  }

  lemma CutShortStaysOff(header: nat, file: nat, c: Progress, room: nat)
    requires OffTrack(header, file, c) && c.dataLen > 0 && CutShort(header, file, c)
    ensures OffTrack(header, file, Advance(header, c, room))
  {
    var next := Advance(header, c, room);
    if next.sendLen <= c.head.base + c.head.len {
      assert next.sent == HeaderBytes(0, next.sendLen);
      if next.head.len > 0 { assert CutShort(header, file, next); }
    } else {
      assert next.sent[c.head.base + c.head.len] == FileAt(0);
    }
  }

  lemma StaysOffTrack(header: nat, file: nat, c: Progress, room: nat)
    requires OffTrack(header, file, c) && c.dataLen > 0
    ensures OffTrack(header, file, Advance(header, c, room))
  {
    var next := Advance(header, c, room);
    if CutShort(header, file, c) {
      CutShortStaysOff(header, file, c, room);
    } else if p :| 0 <= p < header && p < |c.sent| && c.sent[p].FileAt? {
      assert next.sent[p] == c.sent[p];
    } else if next.sendLen > c.sendLen {
      assert next.sent[c.sendLen] == FileAt(c.sendLen - header);
    }
  }

  // ---------------------------------------------------------------- the exact condition

  lemma {:induction false} TrackOf(header: nat, file: nat, rooms: seq<nat>)
    ensures var c := AdvanceAll(header, Start(header, file), rooms);
            if StopsInHeader(header, rooms) <= 1 then OnTrack(header, file, Sum(rooms), c)
            else OffTrack(header, file, c)
    ensures 0 < Sum(rooms) < header ==> StopsInHeader(header, rooms) >= 1
    ensures StopsInHeader(header, rooms) >= 1 ==> 0 < Sum(rooms)
    decreases |rooms|
  {
    if rooms == [] {
      assert OnTrack(header, file, 0, Start(header, file));
    } else {
      var last := |rooms| - 1;
      TrackOf(header, file, rooms[..last]);
      var c, done, room := AdvanceAll(header, Start(header, file), rooms[..last]), Sum(rooms[..last]), rooms[last];
      if c.dataLen > 0 {
        if StopsInHeader(header, rooms[..last]) > 1 {
          StaysOffTrack(header, file, c, room);
        } else if StopsInHeader(header, rooms) <= 1 {
          StaysOnTrack(header, file, done, c, room);
        } else {
          LeavesTrack(header, file, done, c, room);
        }
      }
    }
  }

  /** At every point of a transmission: what was sent and what the iovecs denote make up the response,
      no byte lost or sent twice, if and only if at most one result has ended inside the header. */
  lemma ResponseIntactIff(header: nat, file: nat, rooms: seq<nat>)
    ensures var c := AdvanceAll(header, Start(header, file), rooms);
            c.sent + Rest(c) == Whole(header, file) <==> StopsInHeader(header, rooms) <= 1
  {
    TrackOf(header, file, rooms);
    var c := AdvanceAll(header, Start(header, file), rooms);
    if StopsInHeader(header, rooms) <= 1 {
      OnTrackIsRight(header, file, Sum(rooms), c);
    } else {
      OffTrackIsWrong(header, file, c);
    }
  }

  /** Two short results in a row inside a header of ten bytes: three of its bytes are skipped. */
  lemma TwoStopsLoseBytes()
    ensures var c := AdvanceAll(10, Start(10, 5), [3, 1]);
            c.sent + Rest(c) == HeaderBytes(0, 7) + FileBytes(0, 5) != Whole(10, 5)
  {
    var first := Advance(10, Start(10, 5), 3);
    assert [3, 1][..1] == [3] && [3][..0] == [];
    assert AdvanceAll(10, Start(10, 5), [3]) == first;
    var c := Advance(10, first, 1);
    assert AdvanceAll(10, Start(10, 5), [3, 1]) == c;
    assert c.head == Vec(4, 3) && c.sent == HeaderBytes(0, 4);
    assert c.sent + Rest(c) == HeaderBytes(0, 7) + FileBytes(0, 5);
    assert |Whole(10, 5)| == 15;
  }

  // ---------------------------------------------------------------- the call

  /** What `writev` meets: a socket with room for so many bytes, EAGAIN, or another error. */
  datatype Answer = Room(bytes: nat) | Again | Failed

  datatype Outcome = Later | Finished | Broken

  /** One call of `Write` with data to send.  Past the last answer the socket is taken to be full. */
  function Play(header: nat, c: Progress, answers: seq<Answer>): (Progress, Outcome)
    requires c.dataLen > 0
    decreases |answers|
  {
    if answers == [] || answers[0] == Again then (c, Later)
    else if answers[0] == Failed then (c, Broken)
    else
      var next := Advance(header, c, answers[0].bytes);
      if next.dataLen <= 0 then (next, Finished) else Play(header, next, answers[1..])
  }

  /** The results of the successful `writev`s of one call. */
  function Rooms(answers: seq<Answer>): (rooms: seq<nat>)
    ensures |rooms| <= |answers|
  {
    if answers == [] || !answers[0].Room? then [] else [answers[0].bytes] + Rooms(answers[1..])
  }

  /** A call takes the transmission on from where the last one left it. */
  lemma {:induction false} PlayContinues(header: nat, file: nat, rooms: seq<nat>, answers: seq<Answer>)
    requires AdvanceAll(header, Start(header, file), rooms).dataLen > 0
    ensures Play(header, AdvanceAll(header, Start(header, file), rooms), answers).0
         == AdvanceAll(header, Start(header, file), rooms + Rooms(answers))
    decreases |answers|
  {
    if answers == [] || !answers[0].Room? {
      assert rooms + Rooms(answers) == rooms;
    } else {
      var longer := rooms + [answers[0].bytes];
      assert longer[..|rooms|] == rooms;
      assert longer + Rooms(answers[1..]) == rooms + Rooms(answers);
      if AdvanceAll(header, Start(header, file), longer).dataLen > 0 {
        PlayContinues(header, file, longer, answers[1..]);
      } else {
        NothingAfterTheEnd(header, Start(header, file), longer, Rooms(answers[1..]));
      }
    }
  }

  /** Which answer ends a call: the one behind the successful ones, unless all is sent before. */
  lemma {:induction false} PlayStops(header: nat, c: Progress, answers: seq<Answer>)
    requires c.dataLen > 0
    ensures var k, (after, outcome) := |Rooms(answers)|, Play(header, c, answers);
      outcome == if after.dataLen <= 0 then Finished
                 else if k < |answers| && answers[k] == Failed then Broken else Later
    decreases |answers|
  {
    if answers != [] && answers[0].Room? {
      var next := Advance(header, c, answers[0].bytes);
      if next.dataLen > 0 { PlayStops(header, next, answers[1..]); }
    }
  }

  /** One turn of a call. */
  lemma PlayOne(header: nat, c: Progress, answers: seq<Answer>, i: nat)
    requires c.dataLen > 0 && i <= |answers|
    ensures var end := Play(header, c, answers[i..]);
      if i == |answers| || answers[i] == Again then end == (c, Later)
      else if answers[i] == Failed then end == (c, Broken)
      else
        var next := Advance(header, c, answers[i].bytes);
        end == if next.dataLen <= 0 then (next, Finished) else Play(header, next, answers[i + 1..])
  {
    if i < |answers| { assert answers[i..][1..] == answers[i + 1..]; }
  }

  lemma {:induction false} RoomsLead(answers: seq<Answer>)
    ensures var k := |Rooms(answers)|;
      && k <= |answers| && (forall i :: 0 <= i < k ==> answers[i].Room?) && (k < |answers| ==> !answers[k].Room?)
    decreases |answers|
  {
    if answers != [] && answers[0].Room? { RoomsLead(answers[1..]); }
  }

  /** When a call finishes the transmission, the response went out intact exactly if at most one
      result of the whole transmission ended inside the header. */
  lemma FinishedIntactIff(header: nat, file: nat, rooms: seq<nat>, answers: seq<Answer>)
    requires var c := AdvanceAll(header, Start(header, file), rooms);
      c.dataLen > 0 && Play(header, c, answers).1 == Finished
    ensures Play(header, AdvanceAll(header, Start(header, file), rooms), answers).0.sent == Whole(header, file)
            <==> StopsInHeader(header, rooms + Rooms(answers)) <= 1
  {
    var c := AdvanceAll(header, Start(header, file), rooms);
    PlayContinues(header, file, rooms, answers);
    PlayStops(header, c, answers);
    ResponseIntactIff(header, file, rooms + Rooms(answers));
  }

  lemma {:induction false} NothingAfterTheEnd(header: nat, c: Progress, rooms: seq<nat>, more: seq<nat>)
    requires AdvanceAll(header, c, rooms).dataLen <= 0
    ensures AdvanceAll(header, c, rooms + more) == AdvanceAll(header, c, rooms)
    decreases |more|
  {
    if more == [] {
      assert rooms + more == rooms;
    } else {
      NothingAfterTheEnd(header, c, rooms, more[..|more| - 1]);
      assert (rooms + more)[..|rooms + more| - 1] == rooms + more[..|more| - 1];
    }
  }

  /** The part of the connection that sends. */
  class Connection {
    var readIdx: nat
    var writeIdx: nat
    var dataLen: int
    var sendLen: nat
    var head: Vec
    var body: Vec
    var mapped: bool
    var linger: bool
    const parser: SHttpRequest
    ghost var sent: seq<Addr>
    ghost var file: nat
    ghost var rooms: seq<nat>

    ghost function View(): Progress
      reads this
    {
      Progress(dataLen, sendLen, head, body, sent)
    }

    /** A response is under way, as far as `rooms` says. */
    ghost predicate Sending()
      reads this
    {
      dataLen > 0 && mapped && View() == AdvanceAll(writeIdx, Start(writeIdx, file), rooms)
    }

    ghost predicate Clean()
      reads this, parser
    {
      readIdx == writeIdx == sendLen == dataLen == 0 && parser.View() == FRESH
    }

    constructor (linger: bool)
      ensures Clean() && !mapped && fresh(parser)
    {
      readIdx, writeIdx, dataLen, sendLen := 0, 0, 0, 0;
      head, body, mapped := Vec(0, 0), Vec(0, 0), false;
      this.linger := linger;
      parser := new SHttpRequest();
      sent, file, rooms := [], 0, [];
    }

    /** Parses what has been read so far. */
    method ParseRead(readData: array<char>) returns (reply: Reply, fault: bool)
      requires readIdx <= readData.Length
      modifies parser
      ensures var r := Call(readData[..readIdx], old(parser.View()));
        parser.View() == r.req && fault == r.fault && reply == ReplyOf(r.req, readIdx)
      ensures old(parser.View()) == FRESH ==>
        !fault && forall r :: Replies(r, readData[..readIdx]) <==> r == reply
    {
      fault := parser.ParseInternal(readData, readIdx);
      var status := parser.state;
      reply := Status(status);
      if parser.nextPos == readIdx {
        if status == BODY && parser.verb == "GET" {
          reply := Status(COMPLETE);
        } else if status !in {INVALID_VERSION, INVALID, INVALID_HEADER, INVALID_METHOD, INVALID_URI} {
          reply := Open;
        }
      }
      forall r | old(parser.View()) == FRESH ensures Replies(r, readData[..readIdx]) <==> r == reply {
        RepliesIff(readData[..readIdx], r);
      }
    }

    /** A file response is ready: `header` bytes were put in the write buffer, `size` bytes mapped. */
    method Prepare(header: nat, size: nat)
      requires sendLen == 0 && 0 < header
      modifies this
      ensures Sending() && writeIdx == header && file == size && rooms == []
      ensures View() == Start(header, size) && linger == old(linger)
    {
      writeIdx := header;
      head := Vec(0, header);
      body := Vec(0, size);
      mapped := true;
      dataLen := writeIdx + size;
      sent, file, rooms := [], size, [];
    }

    method Reset()
      modifies this, parser
      ensures Clean() && unchanged(this`linger, this`mapped, this`sent, this`file, this`rooms)
    {
      readIdx, writeIdx, dataLen, sendLen := 0, 0, 0, 0;
      parser.Init();
    }

    /** One `writev` that takes what there is room for, and the bookkeeping after it. */
    method WriteOne(room: nat)
      requires dataLen > 0
      modifies this
      ensures View() == Advance(writeIdx, old(View()), room)
      ensures unchanged(this`writeIdx, this`readIdx, this`linger, this`mapped, this`file, this`rooms)
    {
      var taken := if room < head.len + body.len then room else head.len + body.len;
      sent := sent + Denoted(View())[..taken];
      sendLen := sendLen + taken;
      dataLen := dataLen - taken;
      if dataLen > 0 {
        if sendLen >= head.len {
          head := head.(len := 0);
          body := Vec(sendLen - writeIdx, dataLen);
        } else {
          head := Vec(sendLen, head.len - sendLen);
        }
      }
    }

    /** Writes until all is sent, the socket is full, or an error: the answer behind the successful
        ones decides.  False when the connection is to be closed. */
    method Write(answers: seq<Answer>) returns (keep: bool)
      requires dataLen == 0 || Sending()
      modifies this, parser
      ensures linger == old(linger)
      ensures old(dataLen) == 0 ==> keep && Clean() && sent == old(sent)
      ensures old(dataLen) > 0 ==>
        var c, k := AdvanceAll(old(writeIdx), Start(old(writeIdx), old(file)), rooms), |Rooms(answers)|;
        && rooms == old(rooms) + Rooms(answers) && sent == c.sent && file == old(file)
        && if c.dataLen <= 0 then keep == linger && !mapped && (linger ==> Clean())
           else if k == |answers| || answers[k] == Again then keep && Sending() && writeIdx == old(writeIdx)
           else answers[k] == Failed && !keep && !mapped && View() == c
    {
      if dataLen == 0 {
        Reset();
        return true;
      }
      PlayContinues(writeIdx, file, rooms, answers);
      PlayStops(writeIdx, View(), answers);
      RoomsLead(answers);
      ghost var end := Play(writeIdx, View(), answers);
      hide Play, Rooms, AdvanceAll, Advance, Start;
      rooms := rooms + Rooms(answers);
      assert answers[0..] == answers;
      var i := 0;
      while true
        invariant i <= |answers| && dataLen > 0 && mapped && linger == old(linger)
        invariant writeIdx == old(writeIdx) && file == old(file) && rooms == old(rooms) + Rooms(answers)
        invariant Play(writeIdx, View(), answers[i..]) == end
        decreases |answers| - i
      {
        PlayOne(writeIdx, View(), answers, i);
        if i == |answers| || answers[i].Again? {
          return true;
        }
        if answers[i].Failed? {
          mapped := false;
          return false;
        }
        WriteOne(answers[i].bytes);
        if dataLen <= 0 {
          mapped := false;
          if linger { Reset(); }
          return linger;
        }
        i := i + 1;
      }
    }
  }
}
