/** The parser and the scan agree: positions in the buffer and spelled-out pieces are the same. */
module HttpExact {
  import opened Options
  import opened HttpModel
  import opened HttpGrammar
  import opened HttpScan
  import opened HttpTokens

  /** From the end of the request line on, the fields depend on the document alone. */
  lemma HarvestedSame(q: DecodeState, r: DecodeState, d: Doc)
    requires 12 <= Rank(q) < 20 && 12 <= Rank(r) < 20
    ensures Harvested(q, d) == Harvested(r, d)
  {
  }

  lemma {:induction false} FollowsVerb(buf: string, q: DecodeState, ch: char, t: Tokens, p: Prog)
    requires q in {START, METHOD} && Live(buf, q, t, p) && Ahead(q, p)
    ensures Follows(buf + [ch], q, ch, t, Harvested(q, p.doc), p)
  {
    OpenSnoc(buf, ch, t.verb, p.doc.verb);
  }

  lemma {:induction false} FollowsUrl(buf: string, q: DecodeState, ch: char, t: Tokens, p: Prog)
    requires q in {BEFORE_URI, IN_URI} && Live(buf, q, t, p) && Ahead(q, p)
    ensures Follows(buf + [ch], q, ch, t, Harvested(q, p.doc), p)
  {
    OpenSnoc(buf, ch, t.url, p.doc.url);
  }

  lemma {:induction false} FollowsKey(buf: string, q: DecodeState, ch: char, t: Tokens, p: Prog)
    requires q in {BEFORE_URI_PARAM_KEY, URI_PARAM_KEY} && Live(buf, q, t, p) && Ahead(q, p)
    ensures Follows(buf + [ch], q, ch, t, Harvested(q, p.doc), p)
  {
    OpenSnoc(buf, ch, t.paramKey, p.cur.pair.key);
  }

  lemma {:induction false} FollowsEquals(buf: string, ch: char, t: Tokens, p: Prog)
    requires Live(buf, BEFORE_URI_PARAM_VALUE, t, p) && Ahead(BEFORE_URI_PARAM_VALUE, p)
    ensures Follows(buf + [ch], BEFORE_URI_PARAM_VALUE, ch, t, Harvested(BEFORE_URI_PARAM_VALUE, p.doc), p)
  {
    OpenSnoc(buf, ch, t.paramKey, p.cur.pair.key);
    OpenSnoc(buf, ch, t.paramValue, p.cur.pair.value);
  }

  lemma {:induction false} FollowsInValue(buf: string, ch: char, t: Tokens, p: Prog)
    requires Live(buf, URI_PARAM_VALUE, t, p) && ch != '&' && !IsBlank(ch)
    ensures Follows(buf + [ch], URI_PARAM_VALUE, ch, t, Harvested(URI_PARAM_VALUE, p.doc), p)
  {
    OpenSnoc(buf, ch, t.paramKey, p.cur.pair.key);
    OpenSnoc(buf, ch, t.paramValue, p.cur.pair.value);
  }

  lemma {:induction false} ParamEndReaps(buf: string, ch: char, t: Tokens, pair: Pair, f: Fields)
    requires Closed(buf, t.paramKey, pair.key) && Open(buf, t.paramValue, pair.value) && (ch == '&' || IsBlank(ch))
    ensures Reap(buf + [ch], URI_PARAM_VALUE, ch, Mark(URI_PARAM_VALUE, ch, |buf|, t), f)
         == Some(f.(params := Insert(f.params, pair.key, pair.value)))
  {
    OpenSnoc(buf, ch, t.paramKey, pair.key);
    OpenSnoc(buf, ch, t.paramValue, pair.value);
    var toks := Mark(URI_PARAM_VALUE, ch, |buf|, t);
    OpenSnoc(buf, ch, toks.paramValue, pair.value);
    assert Harvest(buf + [ch], toks.paramKey) == Some(pair.key);
    assert Harvest(buf + [ch], toks.paramValue) == Some(pair.value);
  }

  lemma {:induction false} FollowsNextParam(buf: string, t: Tokens, p: Prog)
    requires Live(buf, URI_PARAM_VALUE, t, p) && Ahead(URI_PARAM_VALUE, p)
    ensures Follows(buf + ['&'], URI_PARAM_VALUE, '&', t, Harvested(URI_PARAM_VALUE, p.doc), p)
  {
    ParamEndReaps(buf, '&', t, p.cur.pair, Harvested(URI_PARAM_VALUE, p.doc));
    FirstWinsSnoc(p.doc.params, p.cur.pair);
  }

  lemma {:induction false} FollowsLastParam(buf: string, ch: char, t: Tokens, p: Prog)
    requires Live(buf, URI_PARAM_VALUE, t, p) && Ahead(URI_PARAM_VALUE, p) && IsBlank(ch)
    ensures Follows(buf + [ch], URI_PARAM_VALUE, ch, t, Harvested(URI_PARAM_VALUE, p.doc), p)
  {
    ParamEndReaps(buf, ch, t, p.cur.pair, Harvested(URI_PARAM_VALUE, p.doc));
    FirstWinsSnoc(p.doc.params, p.cur.pair);
  }

  lemma {:induction false} FollowsValue(buf: string, ch: char, t: Tokens, p: Prog)
    requires Live(buf, URI_PARAM_VALUE, t, p) && Ahead(URI_PARAM_VALUE, p)
    ensures Follows(buf + [ch], URI_PARAM_VALUE, ch, t, Harvested(URI_PARAM_VALUE, p.doc), p)
  {
    if ch == '&' { FollowsNextParam(buf, t, p); }
    else if IsBlank(ch) { FollowsLastParam(buf, ch, t, p); }
    else { FollowsInValue(buf, ch, t, p); }
  }

  lemma {:induction false} FollowsProtocol(buf: string, q: DecodeState, ch: char, t: Tokens, p: Prog)
    requires q in {BEFORE_PROTOCOL, PROTOCOL} && Live(buf, q, t, p) && Ahead(q, p)
    ensures Follows(buf + [ch], q, ch, t, Harvested(q, p.doc), p)
  {
    OpenSnoc(buf, ch, t.protocol, p.doc.protocol);
  }

  lemma {:induction false} FollowsSlash(buf: string, q: DecodeState, ch: char, t: Tokens, p: Prog)
    requires q in {BEFORE_VERSION, VERSION_SPLIT} && Live(buf, q, t, p) && Ahead(q, p)
    ensures Follows(buf + [ch], q, ch, t, Harvested(q, p.doc), p)
  {
    OpenSnoc(buf, ch, t.version, p.doc.version);
  }

  lemma {:induction false} FollowsVersion(buf: string, q: DecodeState, ch: char, t: Tokens, p: Prog)
    requires q == VERSION && Live(buf, q, t, p) && Ahead(q, p)
    ensures Follows(buf + [ch], q, ch, t, Harvested(q, p.doc), p)
  {
    OpenSnoc(buf, ch, t.version, p.doc.version);
  }

  lemma {:induction false} FollowsCr(buf: string, q: DecodeState, ch: char, t: Tokens, p: Prog)
    requires q in {WHEN_CR, CR_LF_CR}
    ensures Follows(buf + [ch], q, ch, t, Harvested(q, p.doc), p)
  {
    assert Track(q, ch, p) == p;
  }

  lemma {:induction false} FollowsLineEnd(buf: string, ch: char, t: Tokens, p: Prog)
    requires ch == CR || IsBlank(ch)
    ensures Follows(buf + [ch], CR_LF, ch, t, Harvested(CR_LF, p.doc), p)
  {
    assert Track(CR_LF, ch, p) == p;
    HarvestedSame(CR_LF, CR_LF_CR, p.doc);
  }

  lemma {:induction false} FollowsFirstOfKey(buf: string, ch: char, t: Tokens, p: Prog)
    requires p.cur.pair.key == "" && ch != CR && !IsBlank(ch)
    ensures Follows(buf + [ch], CR_LF, ch, t, Harvested(CR_LF, p.doc), p)
  {
    OpenSnoc(buf, ch, t.headerKey, "");
    assert Track(CR_LF, ch, p) == AddKey(p, [ch]) && "" + [ch] == [ch];
    HarvestedSame(CR_LF, HEADER_KEY, p.doc);
  }

  lemma {:induction false} FollowsHeaderKey(buf: string, q: DecodeState, ch: char, t: Tokens, p: Prog)
    requires q == HEADER_KEY && Live(buf, q, t, p)
    ensures Follows(buf + [ch], q, ch, t, Harvested(q, p.doc), p)
  {
    OpenSnoc(buf, ch, t.headerKey, p.cur.pair.key);
    assert Track(q, ch, p).doc == p.doc;
  }

  lemma {:induction false} FollowsBeforeColon(buf: string, q: DecodeState, ch: char, t: Tokens, p: Prog)
    requires q == HEADER_BEFORE_COLON && Live(buf, q, t, p)
    ensures Follows(buf + [ch], q, ch, t, Harvested(q, p.doc), p)
  {
    OpenSnoc(buf, ch, t.headerKey, p.cur.pair.key);
    assert Track(q, ch, p).doc == p.doc;
  }

  lemma {:induction false} FollowsBlank(buf: string, ch: char, t: Tokens, p: Prog)
    requires Live(buf, HEADER_AFTER_COLON, t, p) && IsBlank(ch)
    ensures Follows(buf + [ch], HEADER_AFTER_COLON, ch, t, Harvested(HEADER_AFTER_COLON, p.doc), p)
  {
    OpenSnoc(buf, ch, t.headerKey, p.cur.pair.key);
    assert Track(HEADER_AFTER_COLON, ch, p).doc == p.doc;
  }

  lemma {:induction false} FollowsFirstOfValue(buf: string, ch: char, t: Tokens, p: Prog)
    requires Live(buf, HEADER_AFTER_COLON, t, p) && p.cur.pair.value == "" && !IsBlank(ch)
    ensures Follows(buf + [ch], HEADER_AFTER_COLON, ch, t, Harvested(HEADER_AFTER_COLON, p.doc), p)
  {
    OpenSnoc(buf, ch, t.headerKey, p.cur.pair.key);
    OpenSnoc(buf, ch, t.headerValue, "");
    assert Track(HEADER_AFTER_COLON, ch, p) == AddValue(p, [ch]) && "" + [ch] == [ch];
    HarvestedSame(HEADER_AFTER_COLON, HEADER_VALUE, p.doc);
  }

  lemma HarvestedHeaders(d: Doc, hs: seq<Header>)
    ensures Harvested(WHEN_CR, d.(headers := hs)) == Harvested(HEADER_VALUE, d).(headers := FirstWins(HeaderPairs(hs)))
  {
  }

  lemma {:induction false} HarvestedHeader(p: Prog)
    ensures var f := Harvested(HEADER_VALUE, p.doc);
      Harvested(WHEN_CR, CloseHeader(p).doc) == f.(headers := Insert(f.headers, p.cur.pair.key, p.cur.pair.value))
  {
    HeaderPairsSnoc(p.doc.headers, p.cur);
    HarvestedHeaders(p.doc, p.doc.headers + [p.cur]);
  }

  lemma {:induction false} HeaderEndReaps(buf: string, t: Tokens, pair: Pair, f: Fields)
    requires Closed(buf, t.headerKey, pair.key) && Open(buf, t.headerValue, pair.value)
    ensures Reap(buf + [CR], HEADER_VALUE, CR, Mark(HEADER_VALUE, CR, |buf|, t), f)
         == Some(f.(headers := Insert(f.headers, pair.key, pair.value)))
  {
    OpenSnoc(buf, CR, t.headerKey, pair.key);
    OpenSnoc(buf, CR, t.headerValue, pair.value);
    var toks := Mark(HEADER_VALUE, CR, |buf|, t);
    OpenSnoc(buf, CR, toks.headerValue, pair.value);
    assert Harvest(buf + [CR], toks.headerKey) == Some(pair.key);
    assert Harvest(buf + [CR], toks.headerValue) == Some(pair.value);
  }

  lemma {:induction false} FollowsWhenReaped(buf: string, t: Tokens, p: Prog, f: Fields, g: Fields)
    requires Harvested(WHEN_CR, CloseHeader(p).doc) == g
    requires Reap(buf + [CR], HEADER_VALUE, CR, Mark(HEADER_VALUE, CR, |buf|, t), f) == Some(g)
    ensures Follows(buf + [CR], HEADER_VALUE, CR, t, f, p)
  {
    assert Track(HEADER_VALUE, CR, p) == CloseHeader(p);
    assert |buf + [CR]| - 1 == |buf|;
  }

  lemma {:induction false} FollowsHeaderEnd(buf: string, t: Tokens, p: Prog)
    requires Live(buf, HEADER_VALUE, t, p)
    ensures Follows(buf + [CR], HEADER_VALUE, CR, t, Harvested(HEADER_VALUE, p.doc), p)
  {
    var f, pair := Harvested(HEADER_VALUE, p.doc), p.cur.pair;
    HeaderEndReaps(buf, t, pair, f);
    HarvestedHeader(p);
    FollowsWhenReaped(buf, t, p, f, f.(headers := Insert(f.headers, pair.key, pair.value)));
  }

  lemma {:induction false} FollowsHeaderValue(buf: string, ch: char, t: Tokens, p: Prog)
    requires Live(buf, HEADER_VALUE, t, p) && ch != CR
    ensures Follows(buf + [ch], HEADER_VALUE, ch, t, Harvested(HEADER_VALUE, p.doc), p)
  {
    OpenSnoc(buf, ch, t.headerKey, p.cur.pair.key);
    OpenSnoc(buf, ch, t.headerValue, p.cur.pair.value);
  }

  lemma {:induction false} FollowsAny(buf: string, q: DecodeState, ch: char, t: Tokens, p: Prog)
    requires !Halted(q) && Live(buf, q, t, p) && Ahead(q, p)
    ensures Follows(buf + [ch], q, ch, t, Harvested(q, p.doc), p)
  {
    if q in {START, METHOD} { FollowsVerb(buf, q, ch, t, p); }
    else if q in {BEFORE_URI, IN_URI} { FollowsUrl(buf, q, ch, t, p); }
    else if q in {BEFORE_URI_PARAM_KEY, URI_PARAM_KEY} { FollowsKey(buf, q, ch, t, p); }
    else if q == BEFORE_URI_PARAM_VALUE { FollowsEquals(buf, ch, t, p); }
    else if q == URI_PARAM_VALUE { FollowsValue(buf, ch, t, p); }
    else if q in {BEFORE_PROTOCOL, PROTOCOL} { FollowsProtocol(buf, q, ch, t, p); }
    else if q in {BEFORE_VERSION, VERSION_SPLIT} { FollowsSlash(buf, q, ch, t, p); }
    else if q == VERSION { FollowsVersion(buf, q, ch, t, p); }
    else if q in {WHEN_CR, CR_LF_CR} { FollowsCr(buf, q, ch, t, p); }
    else if q == CR_LF && (ch == CR || IsBlank(ch)) { FollowsLineEnd(buf, ch, t, p); }
    else if q == CR_LF { FollowsFirstOfKey(buf, ch, t, p); }
    else if q == HEADER_KEY { FollowsHeaderKey(buf, q, ch, t, p); }
    else if q == HEADER_BEFORE_COLON { FollowsBeforeColon(buf, q, ch, t, p); }
    else if q == HEADER_AFTER_COLON && IsBlank(ch) { FollowsBlank(buf, ch, t, p); }
    else if q == HEADER_AFTER_COLON { FollowsFirstOfValue(buf, ch, t, p); }
    else if ch == CR { FollowsHeaderEnd(buf, t, p); }
    else { FollowsHeaderValue(buf, ch, t, p); }
  }

  /** What one more character makes of a parser that agrees with the scan: the same verdict with the fields
      left alone, the blank line with the fields of the document, or agreement again. */
  predicate Proceeds(buf: string, ch: char, r: Run, next: Run, s: Scanned) {
    var q := Goto(s.q, ch);
    && next.req.nextPos == |buf| + 1 && !next.fault
    && (Halted(q) ==> next.req.fields == r.req.fields)
    && (Terminal(q) ==> next.req.state == q)
    && (q == BODY ==> next.req.fields == FieldsOf(s.d.doc) && next.req.state == AtBlankLine(next.req.fields.headers))
    && (!Halted(q) ==> Agree(buf + [ch], next, Scanned(q, Track(s.q, ch, s.d))))
  }

  lemma StepReaps(buf: string, ch: char, r: Run) returns (toks: Tokens)
    requires r.req.nextPos == |buf|
    ensures toks == Mark(r.req.state, ch, |buf|, r.toks)
    ensures var next, q := Step(buf + [ch], r), r.req.state;
      && next.req.nextPos == |buf| + 1 && next.toks == toks
      && match Reap(buf + [ch], q, ch, toks, r.req.fields)
         case None => next.fault
         case Some(fields) =>
           && !next.fault && next.req.fields == fields
           && next.req.state == if q == CR_LF_CR && ch == LF then AtBlankLine(fields.headers) else Goto(q, ch)
  {
    assert (buf + [ch])[|buf|] == ch;
    toks := Mark(r.req.state, ch, |buf|, r.toks);
  }

  lemma {:induction false} StepHalts(buf: string, ch: char, r: Run, s: Scanned)
    requires Agree(buf, r, s) && Halted(Goto(s.q, ch))
    requires Follows(buf + [ch], s.q, ch, r.toks, r.req.fields, s.d)
    ensures Proceeds(buf, ch, r, Step(buf + [ch], r), s)
  {
    var toks := StepReaps(buf, ch, r);
    if Goto(s.q, ch) == BODY { assert s.q == CR_LF_CR && ch == LF && Harvested(s.q, s.d.doc) == FieldsOf(s.d.doc); }
  }

  lemma StepWithin(buf: string, ch: char, r: Run)
    requires r.req.nextPos == |buf| && Within(r.toks, |buf|)
    ensures Within(Step(buf + [ch], r).toks, |buf + [ch]|)
  {
    StepExtends(buf + [ch], "", r);
    WithinMono(Step(buf + [ch], r).toks, |buf|, |buf| + 1);
  }

  lemma {:induction false} StepGoesOn(buf: string, ch: char, r: Run, s: Scanned)
    requires Agree(buf, r, s) && !Halted(Goto(s.q, ch))
    requires Follows(buf + [ch], s.q, ch, r.toks, r.req.fields, s.d)
    ensures Proceeds(buf, ch, r, Step(buf + [ch], r), s)
  {
    var toks := StepReaps(buf, ch, r);
    StepWithin(buf, ch, r);
    assert |buf + [ch]| - 1 == |buf|;
    assert s.q == CR_LF_CR ==> ch != LF;
  }

  /** One character: the parser and the scan stay in agreement, up to a verdict or the blank line. */
  lemma {:induction false} StepAgrees(buf: string, ch: char, r: Run, s: Scanned)
    requires !Halted(s.q) && Agree(buf, r, s) && Ahead(s.q, s.d)
    ensures Proceeds(buf, ch, r, Step(buf + [ch], r), s)
  {
    FollowsAny(buf, s.q, ch, r.toks, s.d);
    if Halted(Goto(s.q, ch)) { StepHalts(buf, ch, r, s); } else { StepGoesOn(buf, ch, r, s); }
  }

  /** After any text that meets no error, one call of the parser agrees with the scan. */
  lemma {:induction false} CallAgrees(text: string)
    requires !Halted(Scan(BEGIN, text).q)
    ensures Agree(text, Call(text, FRESH), Scan(BEGIN, text))
    decreases |text|
  {
    if text != "" {
      var front, ch := text[..|text| - 1], text[|text| - 1];
      assert text == front + [ch];
      ScanSnoc(BEGIN, front, ch);
      CallAgrees(front);
      CallSnoc(front, ch);
    }
  }

  lemma {:induction false} CallSnoc(front: string, ch: char)
    requires !Halted(Scan(BEGIN, front).q) && Agree(front, Call(front, FRESH), Scan(BEGIN, front))
    ensures Ahead(Scan(BEGIN, front).q, Scan(BEGIN, front).d)
    ensures Call(front + [ch], FRESH) == Step(front + [ch], Call(front, FRESH))
    ensures Proceeds(front, ch, Call(front, FRESH), Call(front + [ch], FRESH), Scan(BEGIN, front))
  {
    if front != "" { AliveBefore(front); }
    ScanSound(front);
    LoopExtends(front, [ch], Run(FRESH, NO_TOKENS, false));
    var r := Call(front, FRESH);
    StepAgrees(front, ch, r, Scan(BEGIN, front));
    assert Stopped(front + [ch], Step(front + [ch], r));
  }
}
