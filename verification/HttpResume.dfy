/** Parsing in two calls.  Tokens do not survive a call, so the second call gives the same result
    as one call on everything exactly when the first one ends between tokens. */
module HttpResume {
  import opened HttpModel
  import opened HttpGrammar
  import opened HttpScan
  import opened HttpTokens
  import opened HttpExact
  import opened HttpRoundTrip

  /** The states in which no token is open or waiting to be harvested. */
  predicate Resumable(q: DecodeState) {
    Halted(q)
    || q in {START, BEFORE_URI, BEFORE_URI_PARAM_KEY, BEFORE_PROTOCOL, BEFORE_VERSION, WHEN_CR, CR_LF, CR_LF_CR}
  }

  function OneCall(first: string, ext: string): Run {
    Call(first + ext, FRESH)
  }

  /** The buffer holds `first` at the first call and has grown by `ext` at the second. */
  function TwoCalls(first: string, ext: string): Run {
    Call(first + ext, Call(first, FRESH).req)
  }

  /** Same state, position and fields, and the same normal or abnormal end. */
  predicate Same(a: Run, b: Run) {
    a.req == b.req && a.fault == b.fault
  }

  // ---------------------------------------------------------------- resuming between tokens

  /** The pointers that a later harvest will still look at. */
  predicate LiveSame(q: DecodeState, t: Tokens, u: Tokens) {
    match q
    case METHOD => t.verb.begin == u.verb.begin
    case IN_URI => t.url.begin == u.url.begin
    case URI_PARAM_KEY => t.paramKey.begin == u.paramKey.begin
    case BEFORE_URI_PARAM_VALUE => t.paramKey == u.paramKey
    case URI_PARAM_VALUE => t.paramKey == u.paramKey && t.paramValue.begin == u.paramValue.begin
    case PROTOCOL => t.protocol.begin == u.protocol.begin
    case VERSION => t.version.begin == u.version.begin
    case VERSION_SPLIT => t.version.begin == u.version.begin
    case HEADER_KEY => t.headerKey.begin == u.headerKey.begin
    case HEADER_BEFORE_COLON => t.headerKey == u.headerKey
    case HEADER_AFTER_COLON => t.headerKey == u.headerKey
    case HEADER_VALUE => t.headerKey == u.headerKey && t.headerValue.begin == u.headerValue.begin
    case _ => true
  }

  lemma {:induction false} ReapSame(buf: string, q: DecodeState, ch: char, p: nat, t: Tokens, u: Tokens, f: Fields)
    requires LiveSame(q, t, u)
    ensures Reap(buf, q, ch, Mark(q, ch, p, t), f) == Reap(buf, q, ch, Mark(q, ch, p, u), f)
    ensures LiveSame(Goto(q, ch), Mark(q, ch, p, t), Mark(q, ch, p, u))
  {
  }

  lemma {:induction false} StepSame(buf: string, r: Run, s: Run)
    requires r.req == s.req && r.req.nextPos < |buf| && LiveSame(r.req.state, r.toks, s.toks)
    ensures Same(Step(buf, r), Step(buf, s))
    ensures !Step(buf, r).fault ==> LiveSame(Step(buf, r).req.state, Step(buf, r).toks, Step(buf, s).toks)
  {
    ReapSame(buf, r.req.state, buf[r.req.nextPos], r.req.nextPos, r.toks, s.toks, r.req.fields);
  }

  lemma {:induction false} LoopSame(buf: string, r: Run, s: Run)
    requires Same(r, s) && (r.fault || LiveSame(r.req.state, r.toks, s.toks))
    ensures Same(Loop(buf, r), Loop(buf, s))
    decreases |buf| - r.req.nextPos
  {
    if !Stopped(buf, r) {
      StepSame(buf, r, s);
      LoopSame(buf, Step(buf, r), Step(buf, s));
    }
  }

  // ---------------------------------------------------------------- one call never faults

  lemma {:induction false} HaltedNeverFaults(buf: string, r: Run)
    requires Halted(r.req.state) && !r.fault
    ensures !Loop(buf, r).fault
    decreases |buf| - r.req.nextPos
  {
    if !Stopped(buf, r) { HaltedNeverFaults(buf, Step(buf, r)); }
  }

  /** Within one call every token harvested has been begun in that call. */
  lemma {:induction false} OneCallNeverFaults(text: string)
    ensures !Call(text, FRESH).fault
  {
    if !Halted(Scan(BEGIN, text).q) {
      CallAgrees(text);
    } else {
      var k := FirstHalt(text);
      var front, ch := text[..k - 1], text[k - 1];
      assert text[..k] == front + [ch] && text == text[..k] + text[k..];
      CallAgrees(front);
      CallSnoc(front, ch);
      ScanSnoc(BEGIN, front, ch);
      LoopExtends(text[..k], text[k..], Run(FRESH, NO_TOKENS, false));
      HaltedNeverFaults(text, Call(text[..k], FRESH));
    }
  }

  /** Resumption between tokens is exact, whatever comes next. */
  lemma {:induction false} ResumeBetweenTokens(first: string, ext: string)
    requires Resumable(Call(first, FRESH).req.state)
    ensures Same(TwoCalls(first, ext), OneCall(first, ext))
  {
    var r := Call(first, FRESH);
    OneCallNeverFaults(first);
    LoopExtends(first, ext, Run(FRESH, NO_TOKENS, false));
    LoopSame(first + ext, Run(r.req, NO_TOKENS, false), r);
  }

  /** A verdict on a prefix is the verdict on every extension, at the same position. */
  lemma {:induction false} VerdictStands(first: string, ext: string)
    requires Terminal(Call(first, FRESH).req.state)
    ensures OneCall(first, ext) == Call(first, FRESH)
  {
    LoopExtends(first, ext, Run(FRESH, NO_TOKENS, false));
  }

  // ---------------------------------------------------------------- resuming inside a token

  /** A continuation on which the second call goes wrong. */
  function Witness(q: DecodeState): string {
    match q
    case METHOD => " "
    case IN_URI => " "
    case URI_PARAM_KEY => "=v "
    case BEFORE_URI_PARAM_VALUE => "v "
    case URI_PARAM_VALUE => " "
    case PROTOCOL => "/"
    case VERSION => [CR]
    case VERSION_SPLIT => "1" + [CR]
    case HEADER_KEY => ":v" + [CR]
    case HEADER_BEFORE_COLON => ":v" + [CR]
    case HEADER_AFTER_COLON => "v" + [CR]
    case HEADER_VALUE => [CR]
    case _ => ""
  }

  /** The second call when the token in progress is harvested on the very next character. */
  lemma {:induction false} FaultsAtOnce(first: string, req: Request)
    requires req.nextPos == |first|
    requires req.state in {METHOD, IN_URI, URI_PARAM_VALUE, PROTOCOL, VERSION, HEADER_VALUE}
    ensures Call(first + Witness(req.state), req).fault
  {
    var buf := first + Witness(req.state);
    var r := Run(req, NO_TOKENS, false);
    assert buf[|first|] == Witness(req.state)[0];
    assert Step(buf, r).fault;
    assert Loop(buf, r) == Loop(buf, Step(buf, r));
  }

  /** A parameter value that ends when the key was begun in an earlier call. */
  lemma {:induction false} FaultsInValue(buf: string, r: Run)
    requires r.req.state == BEFORE_URI_PARAM_VALUE && !r.fault
    requires r.toks.paramKey.begin == Null && r.toks.paramKey.end.At?
    requires r.req.nextPos == |buf| - 2 && buf[|buf| - 2] == 'v' && buf[|buf| - 1] == ' '
    ensures Loop(buf, r).fault
  {
    var r1 := Step(buf, r);
    assert r1.req.state == URI_PARAM_VALUE && r1.toks.paramKey == r.toks.paramKey;
    assert Step(buf, r1).fault;
    assert Loop(buf, r) == Loop(buf, r1) == Loop(buf, Step(buf, r1));
  }

  lemma {:induction false} FaultsInKey(first: string, req: Request)
    requires req.nextPos == |first| && req.state == URI_PARAM_KEY
    ensures Call(first + "=v ", req).fault
  {
    var buf, r := first + "=v ", Run(req, NO_TOKENS, false);
    assert buf[|first|] == '=' && buf[|first| + 1] == 'v' && buf[|first| + 2] == ' ';
    assert Step(buf, r).toks.paramKey == Token(Null, At(|first|));
    FaultsInValue(buf, Step(buf, r));
  }

  lemma {:induction false} FaultsInHeaderKey(first: string, req: Request)
    requires req.nextPos == |first| && req.state == HEADER_KEY
    ensures Call(first + Witness(HEADER_KEY), req).fault
  {
    var buf := first + Witness(HEADER_KEY);
    var n := |first|;
    assert buf[n] == ':' && buf[n + 1] == 'v' && buf[n + 2] == CR;
    var r0 := Run(req, NO_TOKENS, false);
    var r1, r2 := Step(buf, r0), Step(buf, Step(buf, r0));
    assert r1.req.state == HEADER_AFTER_COLON && r2.req.state == HEADER_VALUE;
    assert r2.toks.headerKey == Token(Null, At(n));
    assert Step(buf, r2).fault;
    assert Loop(buf, r0) == Loop(buf, r1) == Loop(buf, r2) == Loop(buf, Step(buf, r2));
  }

  lemma {:induction false} FaultsInVersion(first: string, req: Request)
    requires req.nextPos == |first| && req.state == VERSION_SPLIT
    ensures Call(first + Witness(VERSION_SPLIT), req).fault
  {
    var buf := first + Witness(VERSION_SPLIT);
    var n := |first|;
    assert buf[n] == '1' && buf[n + 1] == CR;
    var r0 := Run(req, NO_TOKENS, false);
    var r1 := Step(buf, r0);
    assert r1.req.state == VERSION && Step(buf, r1).fault;
    assert Loop(buf, r0) == Loop(buf, r1) == Loop(buf, Step(buf, r1));
  }

  /** Between a key and its value the second call finds both pointers of the key null, and files
      the value under the empty key. */
  lemma {:induction false} LosesParamKey(first: string, req: Request)
    requires req.nextPos == |first| && req.state == BEFORE_URI_PARAM_VALUE
    ensures "" in Call(first + "v ", req).req.fields.params
  {
    var buf := first + "v ";
    var n := |first|;
    assert buf[n] == 'v' && buf[n + 1] == ' ';
    var r0 := Run(req, NO_TOKENS, false);
    var r1 := Step(buf, r0);
    assert r1.req.state == URI_PARAM_VALUE && r1.toks.paramKey == NO_TOKEN && r1.toks.paramValue.begin == At(n);
    var r2 := Step(buf, r1);
    assert r2.req.state == BEFORE_PROTOCOL && "" in r2.req.fields.params;
    assert Stopped(buf, r2) && Loop(buf, r0) == Loop(buf, r1) == Loop(buf, r2) == r2;
  }

  lemma {:induction false} LosesHeaderKey(first: string, req: Request)
    requires req.nextPos == |first| && req.state in {HEADER_BEFORE_COLON, HEADER_AFTER_COLON}
    ensures "" in Call(first + Witness(req.state), req).req.fields.headers
  {
    var buf := first + Witness(req.state);
    var n := |first|;
    var r0 := Run(req, NO_TOKENS, false);
    if req.state == HEADER_BEFORE_COLON {
      assert buf[n] == ':' && buf[n + 1] == 'v' && buf[n + 2] == CR;
      assert Step(buf, r0) == Run(req.(state := HEADER_AFTER_COLON, nextPos := n + 1), NO_TOKENS, false);
      AfterColonLosesKey(buf, Step(buf, r0));
    } else {
      assert buf[n] == 'v' && buf[n + 1] == CR;
      AfterColonLosesKey(buf, r0);
    }
  }

  lemma {:induction false} AfterColonLosesKey(buf: string, r: Run)
    requires r.req.state == HEADER_AFTER_COLON && !r.fault && r.toks == NO_TOKENS
    requires r.req.nextPos == |buf| - 2 && buf[|buf| - 2] == 'v' && buf[|buf| - 1] == CR
    ensures "" in Loop(buf, r).req.fields.headers
  {
    var r1 := Step(buf, r);
    assert r1.req.state == HEADER_VALUE && r1.toks.headerKey == NO_TOKEN && r1.toks.headerValue.begin == At(|buf| - 2);
    var r2 := Step(buf, r1);
    assert r2.req.state == WHEN_CR && "" in r2.req.fields.headers;
    assert Stopped(buf, r2) && Loop(buf, r) == Loop(buf, r1) == Loop(buf, r2) == r2;
  }

  lemma {:induction false} NoEmptyKeysYet(text: string)
    requires !Halted(Scan(BEGIN, text).q)
    ensures "" !in Call(text, FRESH).req.fields.params && "" !in Call(text, FRESH).req.fields.headers
  {
    CallAgrees(text);
    ScanSoundAlive(text);
    var d := Scan(BEGIN, text).d.doc;
    FirstWinsIsFirst(d.params, "");
    FirstWinsIsFirst(HeaderPairs(d.headers), "");
  }

  lemma {:induction false} HaltedKeepsFields(buf: string, r: Run)
    requires Halted(r.req.state)
    ensures Loop(buf, r).req.fields == r.req.fields
    decreases |buf| - r.req.nextPos
  {
    if !Stopped(buf, r) { HaltedKeepsFields(buf, Step(buf, r)); }
  }

  /** One call never files anything under the empty key, whatever the text. */
  lemma {:induction false} NoEmptyKeys(text: string)
    ensures "" !in Call(text, FRESH).req.fields.params && "" !in Call(text, FRESH).req.fields.headers
  {
    if !Halted(Scan(BEGIN, text).q) {
      NoEmptyKeysYet(text);
    } else {
      var k := FirstHalt(text);
      var front, ch := text[..k - 1], text[k - 1];
      assert text[..k] == front + [ch] && text == text[..k] + text[k..];
      NoEmptyKeysYet(front);
      CallAgrees(front);
      CallSnoc(front, ch);
      ScanSnoc(BEGIN, front, ch);
      LoopExtends(text[..k], text[k..], Run(FRESH, NO_TOKENS, false));
      HaltedKeepsFields(text, Call(text[..k], FRESH));
    }
  }

  lemma {:induction false} ResumeInsideTokenFails(first: string)
    requires !Resumable(Call(first, FRESH).req.state)
    ensures !Same(TwoCalls(first, Witness(Call(first, FRESH).req.state)),
          OneCall(first, Witness(Call(first, FRESH).req.state)))
  {
    var req := Call(first, FRESH).req;
    NotHalted(first);
    CallAgrees(first);
    var w := Witness(req.state);
    OneCallNeverFaults(first + w);
    match req.state
    case URI_PARAM_KEY => FaultsInKey(first, req);
    case HEADER_KEY => FaultsInHeaderKey(first, req);
    case VERSION_SPLIT => FaultsInVersion(first, req);
    case BEFORE_URI_PARAM_VALUE =>
      LosesParamKey(first, req);
      NoEmptyKeys(first + w);
    case HEADER_BEFORE_COLON =>
      LosesHeaderKey(first, req);
      NoEmptyKeys(first + w);
    case HEADER_AFTER_COLON =>
      LosesHeaderKey(first, req);
      NoEmptyKeys(first + w);
    case _ => FaultsAtOnce(first, req);
  }

  /** Exactly when a request may be cut in two: for every continuation the two calls give what one
      call gives, if and only if the first call ends in a state between tokens. */
  lemma {:induction false} ResumesIff(first: string)
    ensures (forall ext :: Same(TwoCalls(first, ext), OneCall(first, ext))) <==> Resumable(Call(first, FRESH).req.state)
  {
    if Resumable(Call(first, FRESH).req.state) {
      forall ext ensures Same(TwoCalls(first, ext), OneCall(first, ext)) {
        ResumeBetweenTokens(first, ext);
      }
    } else {
      ResumeInsideTokenFails(first);
    }
  }

  // ---------------------------------------------------------------- any number of calls

  function Concat(parts: seq<string>): string {
    if parts == [] then "" else Concat(parts[..|parts| - 1]) + parts[|parts| - 1]
  }

  /** One call for each part, with the buffer grown by it. */
  function Calls(parts: seq<string>): Run {
    if parts == [] then Run(FRESH, NO_TOKENS, false)
    else
      var before := Calls(parts[..|parts| - 1]);
      if before.fault then before else Call(Concat(parts), before.req)
  }

  lemma CallsSnoc(parts: seq<string>, ext: string)
    ensures Concat(parts + [ext]) == Concat(parts) + ext
    ensures Calls(parts + [ext]) ==
      if Calls(parts).fault then Calls(parts) else Call(Concat(parts) + ext, Calls(parts).req)
  {
    assert (parts + [ext])[..|parts|] == parts;
  }

  /** A request may be cut anywhere between tokens, any number of times. */
  lemma {:induction false} ResumesOverCuts(parts: seq<string>)
    requires forall k :: 0 <= k < |parts| ==> Resumable(Calls(parts[..k]).req.state)
    ensures Same(Calls(parts), Call(Concat(parts), FRESH))
    decreases |parts|
  {
    if parts != [] {
      var last := |parts| - 1;
      var front := parts[..last];
      assert parts == front + [parts[last]];
      assert forall k :: 0 <= k < last ==> front[..k] == parts[..k];
      ResumesOverCuts(front);
      CallsSnoc(front, parts[last]);
      OneCallNeverFaults(Concat(front));
      ResumeBetweenTokens(Concat(front), parts[last]);
    }
  }

  /** ... and after such cuts the next one is safe for every continuation exactly if it is of that kind. */
  lemma {:induction false} ResumesOverCutsIff(parts: seq<string>)
    requires forall k :: 0 <= k < |parts| ==> Resumable(Calls(parts[..k]).req.state)
    ensures (forall ext :: Same(Calls(parts + [ext]), Call(Concat(parts + [ext]), FRESH)))
        <==> Resumable(Calls(parts).req.state)
  {
    ResumesOverCuts(parts);
    OneCallNeverFaults(Concat(parts));
    var first := Concat(parts);
    forall ext
      ensures Same(Calls(parts + [ext]), Call(Concat(parts + [ext]), FRESH)) <==>
        Same(TwoCalls(first, ext), OneCall(first, ext))
    {
      CallsSnoc(parts, ext);
    }
    ResumesIff(first);
    if forall ext :: Same(Calls(parts + [ext]), Call(Concat(parts + [ext]), FRESH)) {
      forall ext ensures Same(TwoCalls(first, ext), OneCall(first, ext)) {
        assert Same(Calls(parts + [ext]), Call(Concat(parts + [ext]), FRESH));
      }
    }
  }
}
