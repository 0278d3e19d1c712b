/** Tokens as slices of the buffer: what they are worth when the buffer grows, and what they spell. */
module HttpTokens {
  import opened Options
  import opened HttpModel
  import opened HttpGrammar
  import opened HttpScan

  // ---------------------------------------------------------------- longer buffers

  predicate EndBefore(t: Token, pos: nat) {
    t.end.At? ==> t.end.index <= pos
  }

  /** No token reaches beyond what has been read. */
  predicate Within(t: Tokens, pos: nat) {
    && EndBefore(t.verb, pos) && EndBefore(t.url, pos) && EndBefore(t.paramKey, pos) && EndBefore(t.paramValue, pos)
    && EndBefore(t.protocol, pos) && EndBefore(t.version, pos)
    && EndBefore(t.headerKey, pos) && EndBefore(t.headerValue, pos)
  }

  lemma HarvestExtends(buf: string, ext: string, t: Token)
    requires EndBefore(t, |buf|)
    ensures Harvest(buf + ext, t) == Harvest(buf, t)
  {
    if t.begin.At? && t.end.At? && t.begin.index <= t.end.index {
      assert (buf + ext)[t.begin.index..t.end.index] == buf[t.begin.index..t.end.index];
    }
  }

  lemma MarkWithin(q: DecodeState, ch: char, p: nat, t: Tokens)
    requires Within(t, p)
    ensures Within(Mark(q, ch, p, t), p)
  {
  }

  lemma ReapExtends(buf: string, ext: string, q: DecodeState, ch: char, t: Tokens, f: Fields)
    requires Within(t, |buf|)
    ensures Reap(buf + ext, q, ch, t, f) == Reap(buf, q, ch, t, f)
  {
    HarvestExtends(buf, ext, t.verb);
    HarvestExtends(buf, ext, t.url);
    HarvestExtends(buf, ext, t.paramKey);
    HarvestExtends(buf, ext, t.paramValue);
    HarvestExtends(buf, ext, t.protocol);
    HarvestExtends(buf, ext, t.version);
    HarvestExtends(buf, ext, t.headerKey);
    HarvestExtends(buf, ext, t.headerValue);
  }

  lemma StepExtends(buf: string, ext: string, r: Run)
    requires r.req.nextPos < |buf| && Within(r.toks, r.req.nextPos)
    ensures Step(buf + ext, r) == Step(buf, r)
    ensures Within(Step(buf, r).toks, r.req.nextPos) && Step(buf, r).req.nextPos == r.req.nextPos + 1
  {
    var q, p := r.req.state, r.req.nextPos;
    var ch := buf[p];
    assert (buf + ext)[p] == ch;
    MarkWithin(q, ch, p, r.toks);
    ReapExtends(buf, ext, q, ch, Mark(q, ch, p, r.toks), r.req.fields);
  }

  lemma WithinMono(t: Tokens, p: nat, p': nat)
    requires Within(t, p) && p <= p'
    ensures Within(t, p')
  {
  }

  /** With the tokens kept, stopping at the end of a shorter buffer and going on is no different
      from reading the longer buffer at once. */
  lemma {:induction false} LoopExtends(buf: string, ext: string, r: Run)
    requires Within(r.toks, r.req.nextPos)
    ensures Loop(buf + ext, r) == Loop(buf + ext, Loop(buf, r))
    decreases |buf| - r.req.nextPos
  {
    if !Stopped(buf, r) {
      StepExtends(buf, ext, r);
      WithinMono(Step(buf, r).toks, r.req.nextPos, r.req.nextPos + 1);
      LoopExtends(buf, ext, Step(buf, r));
    }
  }

  // ---------------------------------------------------------------- simulation

  predicate Open(buf: string, t: Token, s: string) {
    t.begin.At? && t.begin.index <= |buf| && buf[t.begin.index..] == s
  }

  predicate Closed(buf: string, t: Token, s: string) {
    t.begin.At? && t.end.At? && t.begin.index <= t.end.index <= |buf| && buf[t.begin.index..t.end.index] == s
  }

  /** The tokens that are still to be harvested are slices of what has been read, begin before end,
      and spell the pieces of the scan. */
  predicate Live(buf: string, q: DecodeState, t: Tokens, p: Prog) {
    match q
    case METHOD => Open(buf, t.verb, p.doc.verb)
    case IN_URI => Open(buf, t.url, p.doc.url)
    case URI_PARAM_KEY => Open(buf, t.paramKey, p.cur.pair.key)
    case BEFORE_URI_PARAM_VALUE => Closed(buf, t.paramKey, p.cur.pair.key)
    case URI_PARAM_VALUE => Closed(buf, t.paramKey, p.cur.pair.key) && Open(buf, t.paramValue, p.cur.pair.value)
    case PROTOCOL => Open(buf, t.protocol, p.doc.protocol)
    case VERSION => Open(buf, t.version, p.doc.version)
    case VERSION_SPLIT => Open(buf, t.version, p.doc.version)
    case HEADER_KEY => Open(buf, t.headerKey, p.cur.pair.key)
    case HEADER_BEFORE_COLON => Closed(buf, t.headerKey, p.cur.pair.key)
    case HEADER_AFTER_COLON => Closed(buf, t.headerKey, p.cur.pair.key)
    case HEADER_VALUE => Closed(buf, t.headerKey, p.cur.pair.key) && Open(buf, t.headerValue, p.cur.pair.value)
    case _ => true
  }

  /** The fields harvested by the time the scan is in state `q`. */
  function Harvested(q: DecodeState, d: Doc): Fields {
    var k := Rank(q);
    Fields(if 2 <= k then d.verb else "", if 4 <= k then d.url else "", FirstWins(d.params),
           if 10 <= k then d.protocol else "", if 12 <= k then d.version else "", FirstWins(HeaderPairs(d.headers)))
  }

  predicate Agree(buf: string, r: Run, s: Scanned) {
    && !r.fault && r.req.state == s.q && r.req.nextPos == |buf| && Within(r.toks, |buf|)
    && Live(buf, s.q, r.toks, s.d) && r.req.fields == Harvested(s.q, s.d.doc)
  }

  lemma OpenSnoc(buf: string, ch: char, t: Token, s: string)
    ensures Open(buf, t, s) ==> Open(buf + [ch], t, s + [ch])
    ensures Open(buf, t, s) ==> Closed(buf + [ch], t.(end := At(|buf|)), s)
    ensures Closed(buf, t, s) ==> Closed(buf + [ch], t, s)
    ensures Open(buf + [ch], t.(begin := At(|buf|)), [ch])
    ensures Closed(buf + [ch], t, s) ==> Harvest(buf + [ch], t) == Some(s)
  {
    if Closed(buf, t, s) {
      assert (buf + [ch])[t.begin.index..t.end.index] == buf[t.begin.index..t.end.index];
    }
    if Open(buf, t, s) {
      assert (buf + [ch])[t.begin.index..] == buf[t.begin.index..] + [ch];
      assert (buf + [ch])[t.begin.index..|buf|] == buf[t.begin.index..];
    }
  }

  lemma FirstWinsSnoc(ps: seq<Pair>, p: Pair)
    ensures FirstWins(ps + [p]) == Insert(FirstWins(ps), p.key, p.value)
  {
    assert (ps + [p])[..|ps + [p]| - 1] == ps;
  }

  lemma HeaderPairsSnoc(hs: seq<Header>, h: Header)
    ensures FirstWins(HeaderPairs(hs + [h])) == Insert(FirstWins(HeaderPairs(hs)), h.pair.key, h.pair.value)
  {
    assert HeaderPairs(hs + [h]) == HeaderPairs(hs) + [h.pair];
    FirstWinsSnoc(HeaderPairs(hs), h.pair);
  }

  /** What one character does to the tokens and fields, put in terms of the scan. */
  predicate Follows(buf: string, q: DecodeState, ch: char, t: Tokens, f: Fields, p: Prog)
    requires 0 < |buf|
  {
    var toks := Mark(q, ch, |buf| - 1, t);
    var next, after := Goto(q, ch), Track(q, ch, p);
    match Reap(buf, q, ch, toks, f)
    case None => false
    case Some(fields) =>
      if Terminal(next) || next == BODY then fields == f
      else Live(buf, next, toks, after) && fields == Harvested(next, after.doc)
  }
}
