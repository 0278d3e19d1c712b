/** The cached time stamp: within a minute only the two digits of the seconds are rewritten. */
module UtcTime {
  import opened Decimals

  datatype Tm = Tm(year: nat, mon: nat, day: nat, hour: nat, min: nat, sec: nat)

  /** What localtime_r is taken to do: four-digit years, and within a minute of the clock the
      fields other than the seconds stay, the seconds being the clock's. */
  ghost predicate IsLocalTime(lt: nat -> Tm) {
    && (forall t: nat :: lt(t).year < 10000 && lt(t).mon < 100 && lt(t).day < 100 &&
          lt(t).hour < 100 && lt(t).min < 100)
    && (forall t: nat :: lt(t).sec == t % 60)
    && (forall t: nat, u: nat :: t / 60 == u / 60 ==> lt(t).(sec := 0) == lt(u).(sec := 0))
  }

  function Digit(n: nat): char
    requires n < 10
  {
    "0123456789"[n]
  }

  function Two(n: nat): (s: string)
    requires n < 100
    ensures |s| == 2
  {
    [Digit(n / 10), Digit(n % 10)]
  }

  function Four(n: nat): (s: string)
    requires n < 10000
    ensures |s| == 4
  {
    Two(n / 100) + Two(n % 100)
  }

  /** "%04d-%02d-%02d %02d:%02d:" */
  function Minute(tm: Tm): (s: string)
    requires tm.year < 10000 && tm.mon < 100 && tm.day < 100 && tm.hour < 100 && tm.min < 100
    ensures |s| == 17
  {
    Four(tm.year) + "-" + Two(tm.mon) + "-" + Two(tm.day) + " " + Two(tm.hour) + ":" + Two(tm.min) + ":"
  }

  /** The full 19-character format. */
  function Format(tm: Tm): (s: string)
    requires tm.year < 10000 && tm.mon < 100 && tm.day < 100 && tm.hour < 100 && tm.min < 100 && tm.sec < 100
    ensures |s| == 19
  {
    Minute(tm) + Two(tm.sec)
  }

  /** The text from `i` up to `j` is a numeral of value `n`. */
  ghost predicate ReadsAs(text: string, i: nat, j: nat, n: nat) {
    i <= j <= |text| && IsNumeral(text[i..j]) && Number(text[i..j]) == n
  }

  /** The fields of a time can be read off a stamp at their places. */
  ghost predicate Shows(text: string, tm: Tm) {
    && |text| == 19
    && ReadsAs(text, 0, 4, tm.year) && ReadsAs(text, 5, 7, tm.mon) && ReadsAs(text, 8, 10, tm.day)
    && ReadsAs(text, 11, 13, tm.hour) && ReadsAs(text, 14, 16, tm.min) && ReadsAs(text, 17, 19, tm.sec)
    && text[4] == '-' && text[7] == '-' && text[10] == ' ' && text[13] == ':' && text[16] == ':'
  }

  lemma TwoReads(n: nat)
    requires n < 100
    ensures IsNumeral(Two(n)) && Number(Two(n)) == n
  {
    var s := Two(n);
    assert s[..1] == [s[0]] && [s[0]][..0] == "";
    assert Number([s[0]]) == n / 10;
  }

  lemma FourReads(n: nat)
    requires n < 10000
    ensures IsNumeral(Four(n)) && Number(Four(n)) == n
  {
    var s := Four(n);
    TwoReads(n / 100);
    TwoReads(n % 100);
    assert s[..3][..2] == Two(n / 100) && s[..3] == Two(n / 100) + [Two(n % 100)[0]];
    assert Two(n % 100)[..1] == [Two(n % 100)[0]] && [Two(n % 100)[0]][..0] == "";
    assert Number([Two(n % 100)[0]]) == n % 100 / 10;
    assert s[..3][|s[..3]| - 1] == Two(n % 100)[0];
    assert s[3] == Two(n % 100)[1];
  }

  lemma FormatPlaces(tm: Tm)
    requires tm.year < 10000 && tm.mon < 100 && tm.day < 100 && tm.hour < 100 && tm.min < 100 && tm.sec < 100
    ensures var s := Format(tm);
      && s[0..4] == Four(tm.year) && s[5..7] == Two(tm.mon) && s[8..10] == Two(tm.day)
      && s[11..13] == Two(tm.hour) && s[14..16] == Two(tm.min) && s[17..19] == Two(tm.sec)
  {
  }

  /** Reading a formatted time gives the time back. */
  lemma FormatShows(tm: Tm)
    requires tm.year < 10000 && tm.mon < 100 && tm.day < 100 && tm.hour < 100 && tm.min < 100 && tm.sec < 100
    ensures Shows(Format(tm), tm)
  {
    FormatPlaces(tm);
    FourReads(tm.year);
    TwoReads(tm.mon);
    TwoReads(tm.day);
    TwoReads(tm.hour);
    TwoReads(tm.min);
    TwoReads(tm.sec);
  }

  lemma MinuteShared(lt: nat -> Tm, t: nat, u: nat)
    requires IsLocalTime(lt) && t / 60 == u / 60
    ensures Minute(lt(t)) == Minute(lt(u))
  {
    assert lt(t).(sec := 0) == lt(u).(sec := 0);
  }

  class CachedTime {
    const timeCache: array<char>  // 19 characters and the terminating NUL
    var tm: Tm
    var cacheSec: nat
    var cacheMin: nat
    ghost const localTime: nat -> Tm

    /** The cache shows the second last seen, in full. */
    ghost predicate Valid()
      reads this, timeCache
    {
      && timeCache.Length == 20 && IsLocalTime(localTime)
      && tm == localTime(cacheSec) && cacheMin == cacheSec / 60
      && timeCache[..19] == Format(localTime(cacheSec)) && timeCache[19] == '\0'
    }

    constructor (now: nat, lt: nat -> Tm)
      requires IsLocalTime(lt)
      ensures Valid() && cacheSec == now && localTime == lt && fresh(timeCache)
    {
      timeCache := new char[20];
      tm := lt(now);
      cacheSec := now;
      cacheMin := now / 60;
      localTime := lt;
      new;
      AddTimeAll();
    }

    method AddTimeAll()
      requires timeCache.Length == 20 && IsLocalTime(localTime) && tm == localTime(cacheSec)
      modifies timeCache
      ensures timeCache[..19] == Format(tm) && timeCache[19] == '\0'
    {
      var text := Format(tm);
      forall k | 0 <= k < 19 { timeCache[k] := text[k]; }
      timeCache[19] := '\0';
    }

    method AddTimeSec()
      requires timeCache.Length == 20 && tm.sec < 100
      modifies timeCache
      ensures timeCache[..17] == old(timeCache[..17]) && timeCache[17..19] == Two(tm.sec) && timeCache[19] == '\0'
    {
      var text := Two(tm.sec);
      timeCache[17], timeCache[18], timeCache[19] := text[0], text[1], '\0';
    }

    method UpdateTime(now: nat, lt: nat -> Tm)
      modifies this`tm, this`cacheSec, this`cacheMin
      ensures cacheSec == now && cacheMin == now / 60 && tm == lt(now)
    {
      cacheSec := now;
      cacheMin := now / 60;
      tm := lt(now);
    }

    /** A second of the minute shown: only its two digits are written. */
    method SameMinute(now: nat)
      requires Valid() && now / 60 == cacheMin
      modifies this`tm, this`cacheSec, timeCache
      ensures Valid() && cacheSec == now
    {
      hide Minute, Two;
      MinuteShared(localTime, now, cacheSec);
      assert localTime(now).(sec := 0) == localTime(cacheSec).(sec := 0);
      tm := tm.(sec := now % 60);
      cacheSec := now;
      AddTimeSec();
      assert timeCache[..19] == timeCache[..17] + timeCache[17..19];
    }

    /** Whatever the clock reads next, earlier or later, the local time can be read off the cache afterwards. */
    method GetCurTime(now: nat, lt: nat -> Tm) returns (sec: nat)
      requires Valid() && lt == localTime
      modifies this`tm, this`cacheSec, this`cacheMin, timeCache
      ensures Valid() && sec == cacheSec == now
      ensures Shows(timeCache[..19], localTime(now)) && timeCache[19] == '\0'
    {
      if now != cacheSec {
        if now / 60 == cacheMin {
          SameMinute(now);
        } else {
          UpdateTime(now, lt);
          AddTimeAll();
        }
      }
      sec := cacheSec;
      FormatShows(localTime(now));
    }
  }
}
