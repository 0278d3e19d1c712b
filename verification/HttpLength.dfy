/** When a request asks for a body, in terms of the header fields as they stand: what the parser makes
    of Content-Length, `atoi` included. */
module HttpLength {
  import opened Decimals
  import opened HttpModel
  import opened HttpGrammar

  /** White space up to `i`, a plus sign or nothing up to `k`, and a numeral above 0 up to `n`. */
  predicate Positive(s: string, i: nat, k: nat, n: nat) {
    && i <= k <= n <= |s| && (forall j :: 0 <= j < i ==> IsSpace(s[j]))
    && (k == i || (k == i + 1 && s[i] == '+'))
    && IsNumeral(s[k..n]) && Number(s[k..n]) > 0
  }

  ghost predicate AboveZero(s: string) {
    exists i: nat, k: nat, n: nat :: Positive(s, i, k, n)
  }

  /** Field `i` is the first one with the key. */
  predicate IsFirst(hs: seq<Header>, i: nat, key: string)
    requires i < |hs|
  {
    hs[i].pair.key == key && forall j :: 0 <= j < i ==> hs[j].pair.key != key
  }

  /** A body is asked for unless the first Content-Length is there and not above 0. */
  ghost predicate WantsBody(hs: seq<Header>) {
    forall i :: 0 <= i < |hs| && IsFirst(hs, i, "Content-Length") ==> AboveZero(hs[i].pair.value)
  }

  predicate NumeralTo(s: string, k: nat, n: nat) {
    k <= n <= |s| && IsNumeral(s[k..n]) && Number(s[k..n]) > 0
  }

  predicate NonZeroAt(s: string, i: nat) {
    i < |s| && s[i] != '0' && forall j :: 0 <= j <= i ==> IsDigit(s[j])
  }

  lemma {:induction false} NonZeroDigitIff(s: string)
    ensures SomeDigitNonZero(s) <==> exists i: nat :: NonZeroAt(s, i)
    decreases |s|
  {
    if s != "" && s[0] == '0' {
      NonZeroDigitIff(s[1..]);
      if i: nat :| NonZeroAt(s[1..], i) { assert NonZeroAt(s, i + 1); }
      if i: nat :| NonZeroAt(s, i) { assert NonZeroAt(s[1..], i - 1); }
    } else if SomeDigitNonZero(s) {
      assert NonZeroAt(s, 0);
    }
  }

  lemma {:induction false} NumeralIff(s: string, k: nat)
    requires k <= |s|
    ensures SomeDigitNonZero(s[k..]) <==> exists n: nat :: NumeralTo(s, k, n)
  {
    var t := s[k..];
    NonZeroDigitIff(t);
    if i: nat :| NonZeroAt(t, i) {
      var m := s[k..k + i + 1];
      assert m == t[..i + 1];
      AboveZeroIff(m);
      assert m[i] != '0';
      assert NumeralTo(s, k, k + i + 1);
    }
    if n: nat :| NumeralTo(s, k, n) {
      AboveZeroIff(s[k..n]);
      var i :| 0 <= i < |s[k..n]| && s[k..n][i] != '0';
      assert s[k..n] == t[..n - k];
      assert NonZeroAt(t, i);
    }
  }

  /** `atoi` is above 0 exactly for a number above 0 with white space and a plus sign in front of it. */
  lemma {:induction false} AtoiPositiveIff(s: string)
    ensures AtoiPositive(s) <==> AboveZero(s)
    decreases |s|
  {
    if s != "" {
      if IsSpace(s[0]) {
        AtoiPositiveIff(s[1..]);
        SpaceInFront(s);
      } else {
        NoSpaceInFront(s);
      }
    }
  }

  lemma SliceOfRest(s: string, k: nat, n: nat)
    requires 1 <= k <= n <= |s|
    ensures s[1..][k - 1..n - 1] == s[k..n]
  {
  }

  lemma {:induction false} SpaceInFront(s: string)
    requires s != "" && IsSpace(s[0])
    ensures AboveZero(s) <==> AboveZero(s[1..])
  {
    if i: nat, k: nat, n: nat :| Positive(s, i, k, n) {
      if i == 0 { StartsPlain(s, k, n); }
      ShiftPositive(s, i, k, n);
    }
    if i: nat, k: nat, n: nat :| Positive(s[1..], i, k, n) { ShiftPositive(s, i + 1, k + 1, n + 1); }
  }

  lemma {:induction false} ShiftPositive(s: string, i: nat, k: nat, n: nat)
    requires s != "" && IsSpace(s[0]) && 1 <= i && 1 <= k && 1 <= n
    ensures Positive(s, i, k, n) <==> Positive(s[1..], i - 1, k - 1, n - 1)
  {
    if k <= n <= |s| { SliceOfRest(s, k, n); }
    assert forall j :: 0 <= j < |s| - 1 ==> s[1..][j] == s[j + 1];
    if Positive(s[1..], i - 1, k - 1, n - 1) {
      forall j | 0 <= j < i ensures IsSpace(s[j]) { if j > 0 { assert s[j] == s[1..][j - 1]; } }
    }
  }

  lemma {:induction false} NoSpaceInFront(s: string)
    requires s != "" && !IsSpace(s[0])
    ensures AboveZero(s) <==> s[0] != '-' && SomeDigitNonZero(if s[0] == '+' then s[1..] else s)
  {
    var k := if s[0] == '+' then 1 else 0;
    NumeralIff(s, k);
    assert s[0..] == s;
    if n: nat :| NumeralTo(s, k, n) {
      if s[0] == '-' { StartsPlain(s, 0, n); }
      assert Positive(s, 0, k, n);
    }
    if i: nat, k': nat, n: nat :| Positive(s, i, k', n) {
      StartsPlain(s, k', n);
      assert NumeralTo(s, k, n);
    }
  }

  /** Without white space in front there is a plus sign or a digit. */
  lemma {:induction false} StartsPlain(s: string, k: nat, n: nat)
    requires Positive(s, 0, k, n)
    ensures s[0] == '+' || IsDigit(s[0])
    ensures k == if s[0] == '+' then 1 else 0
  {
    AboveZeroIff(s[k..n]);
    if k == 0 { assert s[0..n][0] == s[0]; }
  }

  lemma {:induction false} FirstOf(hs: seq<Header>, key: string, n: nat) returns (i: nat)
    requires n < |hs| && hs[n].pair.key == key
    ensures i < |hs| && IsFirst(hs, i, key)
  {
    i := 0;
    while hs[i].pair.key != key
      invariant i <= n
      invariant forall j :: 0 <= j < i ==> hs[j].pair.key != key
      decreases n - i
    {
      i := i + 1;
    }
  }

  /** The state at the blank line, in terms of the header fields as they stand. */
  lemma {:induction false} BodyIff(hs: seq<Header>)
    ensures AtBlankLine(FirstWins(HeaderPairs(hs))) == if WantsBody(hs) then BODY else COMPLETE
  {
    var key, ps := "Content-Length", HeaderPairs(hs);
    FirstWinsIsFirst(ps, key);
    if key in FirstWins(ps) {
      var n :| 0 <= n < |ps| && ps[n].key == key;
      var i := FirstOf(hs, key, n);
      assert ps[i].key == key && forall j :: 0 <= j < i ==> ps[j].key != key;
      AtoiPositiveIff(hs[i].pair.value);
      assert forall j :: 0 <= j < |hs| && IsFirst(hs, j, key) ==> j == i;
    } else {
      assert forall i :: 0 <= i < |hs| ==> ps[i].key != key;
    }
  }
}
