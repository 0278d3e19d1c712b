/** The consumer's log files: opening, switching at a new day, rotation at 1 GiB.

    `Disk` maps the paths of one process to their bytes.  Index 0 is the file being written
    ("<prog>.<yyyymmdd>.<pid>.log"), index i > 0 the one renamed to "... .log.i". */
module LogFiles {
  import opened Options

  const ONE_LOG_FILE_LIMIT := 1024 * 1024 * 1024

  datatype Date = Date(year: int, mon: int, day: int)

  datatype Path = Path(date: Date, index: nat)

  type Disk = map<Path, string>

  datatype Files = Files(disk: Disk, fp: Option<Path>, date: Date, logCnt: nat)

  ghost predicate Usable(f: Files) {
    f.fp.Some? ==> f.fp.value in f.disk
  }

  /** rename(2): nothing happens when the source is missing, else the target is replaced. */
  function Rename(disk: Disk, from: Path, to: Path): Disk {
    if from in disk then (disk - {from})[to := disk[from]] else disk
  }

  /** The descending loop of the rotation: i becomes i + 1, for i from `i` down to 1. */
  function RenameChain(disk: Disk, date: Date, i: nat): Disk
    decreases i
  {
    if i == 0 then disk
    else RenameChain(Rename(disk, Path(date, i), Path(date, i + 1)), date, i - 1)
  }

  /** fopen(path, "w"): truncates or creates the file when it succeeds. */
  function Open(f: Files, path: Path, ok: bool): Files {
    if ok then f.(disk := f.disk[path := ""], fp := Some(path)) else f.(fp := None)
  }

  /** `DecisFile`, given the date and whether an fopen would succeed. */
  function Decide(f: Files, today: Date, ok: bool): Files
    requires Usable(f)
  {
    if f.fp.None? then
      var g := Open(f.(date := today), Path(today, 0), ok);
      if ok then g.(logCnt := f.logCnt + 1) else g
    else if f.date.day != today.day then
      // only the day is updated, so the new path keeps the old year and month
      var date := f.date.(day := today.day);
      var g := Open(f.(date := date), Path(date, 0), ok);
      if ok then g.(logCnt := 1) else g
    else if |f.disk[f.fp.value]| >= ONE_LOG_FILE_LIMIT then
      var shifted := RenameChain(f.disk, today, if f.logCnt == 0 then 0 else f.logCnt - 1);
      var moved := Rename(shifted, Path(today, 0), Path(today, 1));
      var g := Open(f.(disk := moved), Path(today, 0), ok);
      if ok then g.(logCnt := f.logCnt + 1) else g
    else f
  }

  /** Appending to the open file. */
  function Write(f: Files, data: string): Files
    requires f.fp.Some? && f.fp.value in f.disk
  {
    f.(disk := f.disk[f.fp.value := f.disk[f.fp.value] + data])
  }

  /** One persist step of the consumer: nothing is written when no file is open. */
  function Put(f: Files, today: Date, ok: bool, data: string): (g: Files)
    requires Usable(f)
    ensures Usable(g)
  {
    var g := Decide(f, today, ok);
    if g.fp.Some? then Write(g, data) else g
  }

  /** The object the consumer thread works on. */
  class FileSet {
    var disk: Disk
    var fp: Option<Path>
    var date: Date
    var logCnt: nat

    function View(): Files
      reads this
    {
      Files(disk, fp, date, logCnt)
    }

    ghost predicate Valid()
      reads this
    {
      Usable(View())
    }

    constructor (disk: Disk)
      ensures Valid() && View() == Files(disk, None, Date(0, 0, 0), 0)
    {
      this.disk := disk;
      fp := None;
      date := Date(0, 0, 0);
      logCnt := 0;
    }

    method DecisFile(today: Date, ok: bool) returns (isOpen: bool)
      requires Valid()
      modifies this
      ensures Valid() && View() == Decide(old(View()), today, ok)
      ensures isOpen == fp.Some?
    {
      if fp.None? {
        date := today;
        FOpen(Path(date, 0), ok);
        if ok { logCnt := logCnt + 1; }
      } else if date.day != today.day {
        date := date.(day := today.day);
        FOpen(Path(date, 0), ok);
        if ok { logCnt := 1; }
      } else if |disk[fp.value]| >= ONE_LOG_FILE_LIMIT {
        var i := logCnt - 1;
        while i > 0
          invariant i <= logCnt - 1 && (0 <= i || logCnt == 0)
          invariant fp == old(fp) && date == old(date) && logCnt == old(logCnt)
          invariant RenameChain(disk, today, if i < 0 then 0 else i)
                 == RenameChain(old(disk), today, if logCnt == 0 then 0 else logCnt - 1)
        {
          disk := Rename(disk, Path(today, i), Path(today, i + 1));
          i := i - 1;
        }
        disk := Rename(disk, Path(today, 0), Path(today, 1));
        FOpen(Path(today, 0), ok);
        if ok { logCnt := logCnt + 1; }
      }
      isOpen := fp.Some?;
    }

    method FOpen(path: Path, ok: bool)
      modifies this
      ensures View() == Open(old(View()), path, ok)
    {
      if ok {
        disk := disk[path := ""];
        fp := Some(path);
      } else {
        fp := None;
      }
    }

    method FWrite(data: string)
      requires Valid() && fp.Some?
      modifies this
      ensures Valid() && View() == Write(old(View()), data)
    {
      disk := disk[fp.value := disk[fp.value] + data];
    }
  }

  // ---------------------------------------------------------------- the files of a date

  /** How many rotated files the count stands for; there may be fewer. */
  function RotatedCount(f: Files): nat {
    if f.fp.Some? && 0 < f.logCnt then f.logCnt - 1 else f.logCnt
  }

  function Bytes(disk: Disk, path: Path): string {
    if path in disk then disk[path] else ""
  }

  /** The numbered files from the oldest, `k`, to the newest, 1. */
  ghost function Numbered(disk: Disk, date: Date, k: nat): string {
    if k == 0 then "" else Bytes(disk, Path(date, k)) + Numbered(disk, date, k - 1)
  }

  /** All bytes on disk for `date`, oldest first. */
  ghost function DayText(disk: Disk, date: Date): string {
    Numbered(disk, date, |disk|) + Bytes(disk, Path(date, 0))
  }

  /** The rotated files of `date` are numbered from 1 to `k` without a gap. */
  ghost predicate Counted(disk: Disk, date: Date, k: nat) {
    forall i :: 1 <= i ==> (Path(date, i) in disk <==> i <= k)
  }

  ghost predicate Gapless(disk: Disk, date: Date) {
    exists k :: Counted(disk, date, k)
  }

  lemma {:induction false} CountedAtMost(disk: Disk, date: Date, k: nat)
    requires forall i :: 1 <= i <= k ==> Path(date, i) in disk
    ensures k <= |disk|
    decreases k
  {
    if k != 0 {
      var less := disk - {Path(date, k)};
      CountedAtMost(less, date, k - 1);
      assert less.Keys == disk.Keys - {Path(date, k)};
      assert |less| == |less.Keys| && |disk| == |disk.Keys|;
    }
  }

  lemma {:induction false} NumberedBeyond(disk: Disk, date: Date, k: nat, n: nat)
    requires Counted(disk, date, k) && k <= n
    ensures Numbered(disk, date, n) == Numbered(disk, date, k)
    decreases n
  {
    if k < n { NumberedBeyond(disk, date, k, n - 1); }
  }

  lemma DayTextIs(disk: Disk, date: Date, k: nat)
    requires Counted(disk, date, k)
    ensures DayText(disk, date) == Numbered(disk, date, k) + Bytes(disk, Path(date, 0))
  {
    CountedAtMost(disk, date, k);
    NumberedBeyond(disk, date, k, |disk|);
  }

  lemma {:induction false} NumberedSame(d: Disk, disk: Disk, date: Date, k: nat)
    requires forall i :: 1 <= i <= k ==> Bytes(d, Path(date, i)) == Bytes(disk, Path(date, i))
    ensures Numbered(d, date, k) == Numbered(disk, date, k)
    decreases k
  {
    if k != 0 { NumberedSame(d, disk, date, k - 1); }
  }

  /** Files of `date` that stay as they are keep its text. */
  ghost predicate SameFiles(d: Disk, disk: Disk, date: Date) {
    forall i {:trigger Path(date, i)} :: 0 <= i ==>
      (Path(date, i) in d <==> Path(date, i) in disk) && Bytes(d, Path(date, i)) == Bytes(disk, Path(date, i))
  }

  lemma SameFilesSameText(d: Disk, disk: Disk, date: Date, k: nat)
    requires SameFiles(d, disk, date) && Counted(disk, date, k)
    ensures Counted(d, date, k) && DayText(d, date) == DayText(disk, date)
  {
    DayTextIs(d, date, k);
    DayTextIs(disk, date, k);
    NumberedSame(d, disk, date, k);
  }

  // ---------------------------------------------------------------- within one day

  /** The rotated files of `date` are `k`, numbered without a gap, no more than the count says, and
      between 1 GiB and 1 GiB plus a cell; the current path exists exactly when it is open. */
  ghost predicate DayShape(f: Files, date: Date, cellLen: nat, k: nat) {
    && Counted(f.disk, date, k) && k <= RotatedCount(f)
    && (f.fp.Some? ==> f.fp.value == Path(date, 0) && f.date == date && 0 < f.logCnt)
    && (f.fp.Some? <==> Path(date, 0) in f.disk)
    && (f.fp.Some? ==> |f.disk[Path(date, 0)]| < ONE_LOG_FILE_LIMIT + cellLen)
    && (forall i :: 1 <= i <= k ==> ONE_LOG_FILE_LIMIT <= |f.disk[Path(date, i)]| < ONE_LOG_FILE_LIMIT + cellLen)
  }

  /** Each rename of the descending loop goes to a name that nothing has. */
  ghost predicate TargetsVacant(disk: Disk, date: Date, i: nat)
    decreases i
  {
    i == 0 || (Path(date, i + 1) !in disk
               && TargetsVacant(Rename(disk, Path(date, i), Path(date, i + 1)), date, i - 1))
  }

  /** With no gap below and nothing above, the loop moves every file up by one and overwrites none; it
      may start above the last file. */
  lemma {:induction false} ChainShifts(disk: Disk, date: Date, k: nat, n: nat)
    requires k <= n && forall i :: 1 <= i <= n + 1 ==> (Path(date, i) in disk <==> i <= k)
    ensures TargetsVacant(disk, date, n)
    ensures var d := RenameChain(disk, date, n);
      && Path(date, 1) !in d
      && (forall i :: 2 <= i <= k + 1 ==> Path(date, i) in d && d[Path(date, i)] == disk[Path(date, i - 1)])
      && (forall p: Path :: p.date != date || p.index == 0 || p.index > k + 1 ==>
            (p in d <==> p in disk) && (p in d ==> d[p] == disk[p]))
    decreases n
  {
    if n != 0 {
      var next := Rename(disk, Path(date, n), Path(date, n + 1));
      ChainShifts(next, date, if k < n then k else n - 1, n - 1);
    }
  }

  lemma {:induction false} NumberedShift(d: Disk, disk: Disk, date: Date, k: nat)
    requires forall i :: 2 <= i <= k + 1 ==> Bytes(d, Path(date, i)) == Bytes(disk, Path(date, i - 1))
    ensures Numbered(d, date, k + 1) == Numbered(disk, date, k) + Bytes(d, Path(date, 1))
    decreases k
  {
    if k != 0 {
      NumberedShift(d, disk, date, k - 1);
      assert Bytes(d, Path(date, k + 1)) == Bytes(disk, Path(date, k + 1 - 1));
      assert Numbered(d, date, k + 1)
          == Bytes(disk, Path(date, k)) + (Numbered(disk, date, k - 1) + Bytes(d, Path(date, 1)));
    } else {
      assert Numbered(d, date, 0) == "" && Numbered(disk, date, 0) == "";
    }
  }

  /** What the two renames of a rotation leave behind. */
  lemma {:induction false} RotationMoves(f: Files, date: Date, cellLen: nat, k: nat)
    requires Usable(f) && DayShape(f, date, cellLen, k) && f.fp.Some?
    ensures TargetsVacant(f.disk, date, RotatedCount(f))
    ensures var moved := Rename(RenameChain(f.disk, date, RotatedCount(f)), Path(date, 0), Path(date, 1));
      && Counted(moved, date, k + 1) && Path(date, 0) !in moved
      && moved[Path(date, 1)] == f.disk[Path(date, 0)]
      && (forall i :: 2 <= i <= k + 1 ==> moved[Path(date, i)] == f.disk[Path(date, i - 1)])
  {
    ChainShifts(f.disk, date, k, RotatedCount(f));
  }

  /** Rotation of a full file, whether or not the new one can be opened. */
  lemma {:induction false} RotationKeepsText(f: Files, date: Date, ok: bool, cellLen: nat, k: nat)
    requires Usable(f) && DayShape(f, date, cellLen, k) && f.fp.Some? && |f.disk[Path(date, 0)]| >= ONE_LOG_FILE_LIMIT
    ensures var g := Decide(f, date, ok);
      && Usable(g) && DayShape(g, date, cellLen, k + 1) && DayText(g.disk, date) == DayText(f.disk, date)
      && (g.fp.Some? ==> g.disk[g.fp.value] == "")
  {
    var moved := Rename(RenameChain(f.disk, date, RotatedCount(f)), Path(date, 0), Path(date, 1));
    RotationMoves(f, date, cellLen, k);
    NumberedShift(moved, f.disk, date, k);
    var g := Decide(f, date, ok);
    forall i | 1 <= i
      ensures Path(date, i) in g.disk <==> i <= k + 1
      ensures i <= k + 1 ==> g.disk[Path(date, i)] == moved[Path(date, i)]
      ensures i <= k + 1 ==> ONE_LOG_FILE_LIMIT <= |g.disk[Path(date, i)]| < ONE_LOG_FILE_LIMIT + cellLen
    {
      if 2 <= i <= k + 1 { assert Path(date, i - 1) in f.disk; }
    }
    NumberedSame(g.disk, moved, date, k + 1);
    DayTextIs(g.disk, date, k + 1);
    DayTextIs(f.disk, date, k);
  }

  /** Whatever `DecisFile` does within a day, no byte on disk is lost or moved out of order, and
      the file it leaves open has room below the limit. */
  lemma {:induction false} DecideKeepsText(f: Files, date: Date, ok: bool, cellLen: nat, k: nat) returns (m: nat)
    requires Usable(f) && DayShape(f, date, cellLen, k)
    ensures var g := Decide(f, date, ok);
      && Usable(g) && DayShape(g, date, cellLen, m) && DayText(g.disk, date) == DayText(f.disk, date)
      && (g.fp.Some? ==> |g.disk[g.fp.value]| < 1073741824)
      && m == (if f.fp.Some? && |f.disk[Path(date, 0)]| >= 1073741824 then k + 1 else k)
      && RotatedCount(g) - m == RotatedCount(f) - k
  {
    var g := Decide(f, date, ok);
    m := k;
    if f.fp.None? {
      NumberedSame(g.disk, f.disk, date, k);
      DayTextIs(g.disk, date, k);
      DayTextIs(f.disk, date, k);
    } else if |f.disk[Path(date, 0)]| >= ONE_LOG_FILE_LIMIT {
      RotationKeepsText(f, date, ok, cellLen, k);
      m := k + 1;
    }
  }

  lemma {:induction false} WriteAppends(g: Files, date: Date, data: string, cellLen: nat, k: nat)
    requires Usable(g) && DayShape(g, date, cellLen, k) && g.fp.Some?
    requires |data| <= cellLen && |g.disk[g.fp.value]| < ONE_LOG_FILE_LIMIT
    ensures var h := Write(g, data);
      DayShape(h, date, cellLen, k) && DayText(h.disk, date) == DayText(g.disk, date) + data
  {
    var h := Write(g, data);
    NumberedSame(h.disk, g.disk, date, k);
    DayTextIs(h.disk, date, k);
    DayTextIs(g.disk, date, k);
  }

  lemma {:induction false} PutAppends(f: Files, date: Date, ok: bool, data: string, cellLen: nat, k: nat)
    returns (m: nat)
    requires Usable(f) && DayShape(f, date, cellLen, k) && |data| <= cellLen
    ensures var g := Put(f, date, ok, data);
      && DayShape(g, date, cellLen, m)
      && DayText(g.disk, date) == DayText(f.disk, date) + if g.fp.Some? then data else ""
  {
    m := DecideKeepsText(f, date, ok, cellLen, k);
    var g := Decide(f, date, ok);
    if g.fp.Some? { WriteAppends(g, date, data, cellLen, m); }
  }

  /** Files of other dates are never touched. */
  lemma {:induction false} OtherDatesUntouched(f: Files, date: Date, ok: bool, data: string, cellLen: nat,
                                               k: nat, p: Path)
    requires Usable(f) && DayShape(f, date, cellLen, k) && p.date != date
    ensures var g := Put(f, date, ok, data); (p in g.disk <==> p in f.disk) && (p in f.disk ==> g.disk[p] == f.disk[p])
  {
    if f.fp.Some? && |f.disk[Path(date, 0)]| >= ONE_LOG_FILE_LIMIT {
      ChainShifts(f.disk, date, k, RotatedCount(f));
    }
  }

  // ---------------------------------------------------------------- from one day to the next

  /** No file of the date is on disk. */
  ghost predicate Vacant(disk: Disk, date: Date) {
    forall i {:trigger Path(date, i)} :: 0 <= i ==> Path(date, i) !in disk
  }

  /** The first call of a new day within a month: the day starts with no rotated file and no text, with
      a file open exactly if fopen succeeds, and no other file is touched. */
  lemma {:induction false} NewDayStarts(f: Files, today: Date, ok: bool, cellLen: nat)
    requires Usable(f) && Vacant(f.disk, today)
    requires f.fp.Some? ==> f.date.day != today.day && f.date.(day := today.day) == today
    ensures var g := Decide(f, today, ok);
      && Usable(g) && DayShape(g, today, cellLen, 0) && DayText(g.disk, today) == "" && (g.fp.Some? <==> ok)
      && (f.fp.Some? && ok ==> RotatedCount(g) == 0)
      && (forall p: Path :: p.date != today ==> (p in g.disk <==> p in f.disk) && Bytes(g.disk, p) == Bytes(f.disk, p))
  {
    var g := Decide(f, today, ok);
    DayTextIs(g.disk, today, 0);
  }

  function DayOf(year: int, mon: int, day: nat): Date {
    Date(year, mon, day)
  }

  /** The bytes on disk of the days of a month up to `day`, in order. */
  ghost function MonthText(disk: Disk, year: int, mon: int, day: nat): string {
    if day == 0 then "" else MonthText(disk, year, mon, day - 1) + DayText(disk, DayOf(year, mon, day))
  }

  /** The files of a month, `day` being the day of the last call: earlier days are closed, later ones have
      no files yet. */
  ghost predicate MonthShape(f: Files, year: int, mon: int, day: nat, cellLen: nat) {
    && Usable(f)
    && (exists k :: DayShape(f, DayOf(year, mon, day), cellLen, k))
    && (forall n: nat :: n < day ==> Gapless(f.disk, DayOf(year, mon, n)))
    && (forall n: nat :: day < n ==> Vacant(f.disk, DayOf(year, mon, n)))
  }

  /** Days whose files stay as they are keep their text together. */
  lemma {:induction false} MonthTextSame(d: Disk, disk: Disk, year: int, mon: int, day: nat)
    requires forall n: nat :: 1 <= n <= day ==> SameFiles(d, disk, DayOf(year, mon, n))
    requires forall n: nat :: 1 <= n <= day ==> Gapless(disk, DayOf(year, mon, n))
    ensures MonthText(d, year, mon, day) == MonthText(disk, year, mon, day)
    decreases day
  {
    if day != 0 {
      MonthTextSame(d, disk, year, mon, day - 1);
      assert Gapless(disk, DayOf(year, mon, day));
      var k :| Counted(disk, DayOf(year, mon, day), k);
      SameFilesSameText(d, disk, DayOf(year, mon, day), k);
    }
  }

  lemma {:induction false} MonthTextSkips(disk: Disk, year: int, mon: int, day: nat, later: nat)
    requires day <= later && forall n: nat :: day < n <= later ==> Vacant(disk, DayOf(year, mon, n))
    ensures MonthText(disk, year, mon, later) == MonthText(disk, year, mon, day)
    decreases later
  {
    if day < later {
      MonthTextSkips(disk, year, mon, day, later - 1);
      assert Vacant(disk, DayOf(year, mon, later));
      DayTextIs(disk, DayOf(year, mon, later), 0);
    }
  }

  /** Nothing but files of `date` differs. */
  ghost predicate OnlyDate(g: Files, f: Files, date: Date) {
    forall p: Path :: p.date != date ==> (p in g.disk <==> p in f.disk) && Bytes(g.disk, p) == Bytes(f.disk, p)
  }

  lemma {:induction false} EarlierGapless(f: Files, year: int, mon: int, day: nat, n: nat, cellLen: nat)
    requires MonthShape(f, year, mon, day, cellLen)
    ensures Gapless(f.disk, DayOf(year, mon, n))
  {
    if n == day {
      var k :| DayShape(f, DayOf(year, mon, day), cellLen, k);
      assert Counted(f.disk, DayOf(year, mon, n), k);
    } else if n > day {
      assert Vacant(f.disk, DayOf(year, mon, n));
      assert Counted(f.disk, DayOf(year, mon, n), 0);
    }
  }

  lemma OtherDateStays(f: Files, g: Files, today: Date, date: Date)
    requires OnlyDate(g, f, today) && date != today
    ensures SameFiles(g.disk, f.disk, date)
    ensures Gapless(f.disk, date) ==> Gapless(g.disk, date)
    ensures Vacant(f.disk, date) ==> Vacant(g.disk, date)
  {
    if k :| Counted(f.disk, date, k) { assert Counted(g.disk, date, k); }
  }

  /** A step that leaves the other dates alone leaves the other days of the month as they are. */
  lemma {:induction false} OtherDaysStay(f: Files, g: Files, year: int, mon: int, day: nat, later: nat,
                                         cellLen: nat, m: nat)
    requires MonthShape(f, year, mon, day, cellLen) && day <= later && 1 <= later
    requires Usable(g) && DayShape(g, DayOf(year, mon, later), cellLen, m) && OnlyDate(g, f, DayOf(year, mon, later))
    ensures MonthShape(g, year, mon, later, cellLen)
    ensures MonthText(g.disk, year, mon, later - 1) == MonthText(f.disk, year, mon, later - 1)
  {
    hide OnlyDate, Gapless, Vacant, SameFiles;
    forall n: nat | n != later
      ensures SameFiles(g.disk, f.disk, DayOf(year, mon, n))
      ensures Gapless(f.disk, DayOf(year, mon, n)) ==> Gapless(g.disk, DayOf(year, mon, n))
      ensures Vacant(f.disk, DayOf(year, mon, n)) ==> Vacant(g.disk, DayOf(year, mon, n))
    {
      OtherDateStays(f, g, DayOf(year, mon, later), DayOf(year, mon, n));
    }
    forall n: nat | n < later ensures Gapless(f.disk, DayOf(year, mon, n)) {
      EarlierGapless(f, year, mon, day, n, cellLen);
    }
    MonthTextSame(g.disk, f.disk, year, mon, later - 1);
  }

  lemma {:induction false} SameDayPut(f: Files, today: Date, ok: bool, data: string, cellLen: nat, k: nat)
    returns (m: nat)
    requires Usable(f) && DayShape(f, today, cellLen, k) && |data| <= cellLen
    ensures var g := Put(f, today, ok, data);
      && DayShape(g, today, cellLen, m) && OnlyDate(g, f, today)
      && DayText(g.disk, today) == DayText(f.disk, today) + if g.fp.Some? then data else ""
  {
    m := PutAppends(f, today, ok, data, cellLen, k);
    forall p: Path | p.date != today
      ensures var g := Put(f, today, ok, data);
        (p in g.disk <==> p in f.disk) && Bytes(g.disk, p) == Bytes(f.disk, p)
    {
      OtherDatesUntouched(f, today, ok, data, cellLen, k, p);
    }
  }

  lemma {:induction false} NewDayPut(f: Files, today: Date, ok: bool, data: string, cellLen: nat)
    requires Usable(f) && Vacant(f.disk, today) && |data| <= cellLen
    requires f.fp.Some? ==> f.date.day != today.day && f.date.(day := today.day) == today
    ensures var g := Put(f, today, ok, data);
      && DayShape(g, today, cellLen, 0) && OnlyDate(g, f, today)
      && DayText(g.disk, today) == if g.fp.Some? then data else ""
  {
    hide Decide, Vacant;
    NewDayStarts(f, today, ok, cellLen);
    if ok { WriteAppends(Decide(f, today, ok), today, data, cellLen, 0); }
  }

  /** One persist step on a day of the month, the same as the last or a later one. */
  lemma {:induction false} PutKeepsMonth(
      f: Files, year: int, mon: int, day: nat, later: nat, ok: bool, data: string, cellLen: nat)
    requires MonthShape(f, year, mon, day, cellLen) && day <= later && 1 <= later && |data| <= cellLen
    ensures var g := Put(f, DayOf(year, mon, later), ok, data);
      && MonthShape(g, year, mon, later, cellLen)
      && MonthText(g.disk, year, mon, later) == MonthText(f.disk, year, mon, day) + if g.fp.Some? then data else ""
  {
    hide OnlyDate, Put, DayText;
    var today := DayOf(year, mon, later);
    var g := Put(f, today, ok, data);
    var k :| DayShape(f, DayOf(year, mon, day), cellLen, k);
    var m := 0;
    if day == later {
      m := SameDayPut(f, today, ok, data, cellLen, k);
    } else {
      NewDayPut(f, today, ok, data, cellLen);
      MonthTextSkips(f.disk, year, mon, day, later - 1);
    }
    OtherDaysStay(f, g, year, mon, day, later, cellLen, m);
  }

  // ---------------------------------------------------------------- runs of persist steps

  /** A persist step on a day of the month. */
  datatype Turn = Turn(day: nat, ok: bool, data: string)

  /** The days do not go backwards. */
  predicate Forward(turns: seq<Turn>) {
    && (forall i :: 0 <= i < |turns| ==> 1 <= turns[i].day)
    && (forall i, j :: 0 <= i < j < |turns| ==> turns[i].day <= turns[j].day)
  }

  function LastDay(turns: seq<Turn>): nat {
    if turns == [] then 0 else turns[|turns| - 1].day
  }

  function PutAll(f: Files, year: int, mon: int, turns: seq<Turn>): (g: Files)
    requires Usable(f)
    ensures Usable(g)
    decreases |turns|
  {
    if turns == [] then f
    else
      var last := turns[|turns| - 1];
      Put(PutAll(f, year, mon, turns[..|turns| - 1]), DayOf(year, mon, last.day), last.ok, last.data)
  }

  /** The data of the steps that found or opened a file. */
  function Kept(f: Files, year: int, mon: int, turns: seq<Turn>): string
    requires Usable(f)
    decreases |turns|
  {
    if turns == [] then ""
    else Kept(f, year, mon, turns[..|turns| - 1])
         + if PutAll(f, year, mon, turns).fp.Some? then turns[|turns| - 1].data else ""
  }

  /** Over any number of days of a month, with rotations and failing opens whenever they happen, the files
      of all days together are everything that was written while a file was open, in order. */
  lemma {:induction false} MonthHoldsEverything(disk: Disk, year: int, mon: int, turns: seq<Turn>, cellLen: nat)
    requires (forall n: nat :: Vacant(disk, DayOf(year, mon, n))) && Forward(turns)
    requires forall i :: 0 <= i < |turns| ==> |turns[i].data| <= cellLen
    ensures var f := Files(disk, None, Date(0, 0, 0), 0);
      && MonthShape(PutAll(f, year, mon, turns), year, mon, LastDay(turns), cellLen)
      && MonthText(PutAll(f, year, mon, turns).disk, year, mon, LastDay(turns)) == Kept(f, year, mon, turns)
    decreases |turns|
  {
    var f := Files(disk, None, Date(0, 0, 0), 0);
    if turns == [] {
      MonthBegins(f, year, mon, cellLen);
    } else {
      var front, last := turns[..|turns| - 1], turns[|turns| - 1];
      MonthHoldsEverything(disk, year, mon, front, cellLen);
      PutKeepsMonth(PutAll(f, year, mon, front), year, mon, LastDay(front), last.day, last.ok, last.data, cellLen);
    }
  }

  lemma MonthBegins(f: Files, year: int, mon: int, cellLen: nat)
    requires f.fp.None? && forall n: nat :: Vacant(f.disk, DayOf(year, mon, n))
    ensures MonthShape(f, year, mon, 0, cellLen)
  {
    assert Vacant(f.disk, DayOf(year, mon, 0));
    assert DayShape(f, DayOf(year, mon, 0), cellLen, 0);
  }

  // ---------------------------------------------------------------- across months

  /** Switching to a new day keeps every file that is on disk exactly when the new file does not open or
      its path is not taken by a file with bytes in it. */
  lemma {:induction false} NewDayKeepsFilesIff(f: Files, today: Date, ok: bool)
    requires Usable(f) && f.fp.Some? && f.date.day != today.day
    ensures var g := Decide(f, today, ok); var path := Path(f.date.(day := today.day), 0);
      (forall p: Path :: p in f.disk ==> p in g.disk && g.disk[p] == f.disk[p])
      <==> !ok || (path in f.disk ==> f.disk[path] == "")
  {
    var path := Path(f.date.(day := today.day), 0);
    assert ok && path in f.disk ==> Decide(f, today, ok).disk[path] == "";
  }

  /** It can be taken: the switch keeps the old month, so the fifth of February reopens, and
      truncates, the file of the fifth of January. */
  lemma {:induction false} NextMonthTruncates(text: string)
    requires text != ""
    ensures var jan5, jan6, feb5 := Date(2024, 1, 5), Date(2024, 1, 6), Date(2024, 2, 5);
      var f0 := Files(map[], None, Date(0, 0, 0), 0);
      var f1 := Put(f0, jan5, true, text);
      var f2 := Put(f1, jan6, true, "");
      var f3 := Put(f2, feb5, true, "");
      f2.disk[Path(jan5, 0)] == text && f3.disk[Path(jan5, 0)] == ""
  {
    var jan5 := Date(2024, 1, 5);
    var f1 := Put(Files(map[], None, Date(0, 0, 0), 0), jan5, true, text);
    assert f1.disk[Path(jan5, 0)] == text;
    assert f1.fp == Some(Path(jan5, 0)) && f1.date == jan5;
  }
}
