/** The automaton run with strings instead of positions: it spells out the document read so far.
    The text it has consumed can be read back from its state. */
module HttpScan {
  import opened HttpModel
  import opened HttpGrammar

  /** The document so far, and the parameter or header field being read. */
  datatype Prog = Prog(doc: Doc, cur: Header)

  const NO_HEADER := Header(Pair("", ""), "", "")

  const NO_PROG := Prog(NO_DOC, NO_HEADER)

  /** Where the scan ends: a verdict, or the blank line. */
  predicate Halted(q: DecodeState) { Terminal(q) || q == BODY }

  /** Characters on which a state keeps reading the same piece. */
  predicate Stay(q: DecodeState, ch: char) {
    Goto(q, ch) == q && q !in {VERSION_SPLIT} && !Halted(q)
  }

  /** `s` added to the piece that state `q` reads. */
  function Add(q: DecodeState, d: Prog, s: string): Prog {
    match q
    case START => d.(doc := d.doc.(lead := d.doc.lead + s))
    case METHOD => d.(doc := d.doc.(verb := d.doc.verb + s))
    case BEFORE_URI => d.(doc := d.doc.(gap1 := d.doc.gap1 + s))
    case IN_URI => d.(doc := d.doc.(url := d.doc.url + s))
    case BEFORE_PROTOCOL => d.(doc := d.doc.(gap2 := d.doc.gap2 + s))
    case PROTOCOL => d.(doc := d.doc.(protocol := d.doc.protocol + s))
    case VERSION => d.(doc := d.doc.(version := d.doc.version + s))
    case VERSION_SPLIT => d.(doc := d.doc.(version := d.doc.version + s))
    case URI_PARAM_KEY => AddKey(d, s)
    case URI_PARAM_VALUE => AddValue(d, s)
    case HEADER_KEY => AddKey(d, s)
    case HEADER_BEFORE_COLON => d.(cur := d.cur.(before := d.cur.before + s))
    case HEADER_AFTER_COLON => d.(cur := d.cur.(after := d.cur.after + s))
    case HEADER_VALUE => AddValue(d, s)
    case _ => d
  }

  function AddKey(d: Prog, s: string): Prog {
    d.(cur := d.cur.(pair := d.cur.pair.(key := d.cur.pair.key + s)))
  }

  function AddValue(d: Prog, s: string): Prog {
    d.(cur := d.cur.(pair := d.cur.pair.(value := d.cur.pair.value + s)))
  }

  function CloseParam(d: Prog): Prog {
    d.(doc := d.doc.(params := d.doc.params + [d.cur.pair]), cur := NO_HEADER)
  }

  function CloseHeader(d: Prog): Prog {
    d.(doc := d.doc.(headers := d.doc.headers + [d.cur]), cur := NO_HEADER)
  }

  /** The effect of one character: separators are dropped, other characters start or continue the
      piece of the state they lead to. */
  function Track(q: DecodeState, ch: char, d: Prog): Prog {
    var next := Goto(q, ch);
    match q
    case URI_PARAM_VALUE =>
      if ch == '&' then CloseParam(d)
      else if IsBlank(ch) then Add(BEFORE_PROTOCOL, CloseParam(d), [ch]) else Add(q, d, [ch])
    case HEADER_VALUE => if ch == CR then CloseHeader(d) else Add(q, d, [ch])
    case IN_URI => if ch == '?' then d else Add(next, d, [ch])
    case URI_PARAM_KEY => if ch == '=' then d else Add(next, d, [ch])
    case PROTOCOL => if ch == '/' then d else Add(next, d, [ch])
    case HEADER_KEY => if ch == ':' then d else Add(next, d, [ch])
    case HEADER_BEFORE_COLON => if ch == ':' then d else Add(next, d, [ch])
    case _ => Add(next, d, [ch])
  }

  datatype Scanned = Scanned(q: DecodeState, d: Prog)

  function Scan(s: Scanned, text: string): Scanned
    decreases |text|
  {
    if text == "" || Halted(s.q) then s
    else Scan(Scanned(Goto(s.q, text[0]), Track(s.q, text[0], s.d)), text[1..])
  }

  lemma {:induction false} ScanConcat(s: Scanned, a: string, b: string)
    ensures Scan(s, a + b) == Scan(Scan(s, a), b)
    decreases |a|
  {
    if a == "" || Halted(s.q) {
      assert a == "" ==> a + b == b;
    } else {
      ScanConcat(Scanned(Goto(s.q, a[0]), Track(s.q, a[0], s.d)), a[1..], b);
      assert (a + b)[1..] == a[1..] + b;
    }
  }

  // ---------------------------------------------------------------- the text behind a state

  function Start1(d: Doc): string { d.lead + d.verb }
  function Start2(d: Doc): string { Start1(d) + d.gap1 }
  function Start3(d: Doc): string { Start2(d) + d.url }
  function Start4(d: Doc): string { Pairs(Start3(d) + "?", d.params) }
  function Start5(d: Doc): string { Query(Start3(d), d.params) + d.gap2 }
  function Start6(d: Doc): string { Start5(d) + d.protocol }
  function Start7(d: Doc): string { Start6(d) + "/" + d.version }
  function Start8(d: Doc): string { HeaderLines(Start7(d), d.headers) }

  /** What has been consumed when the automaton is in state `q` with progress `p`. */
  function Text(q: DecodeState, p: Prog): string {
    var d, h := p.doc, p.cur;
    match q
    case START => d.lead
    case METHOD => Start1(d)
    case BEFORE_URI => Start2(d)
    case IN_URI => Start3(d)
    case BEFORE_URI_PARAM_KEY => Start4(d)
    case URI_PARAM_KEY => Start4(d) + h.pair.key
    case BEFORE_URI_PARAM_VALUE => Start4(d) + h.pair.key + "="
    case URI_PARAM_VALUE => Start4(d) + h.pair.key + "=" + h.pair.value
    case BEFORE_PROTOCOL => Start5(d)
    case PROTOCOL => Start6(d)
    case BEFORE_VERSION => Start6(d) + "/"
    case VERSION => Start7(d)
    case VERSION_SPLIT => Start7(d)
    case _ => HeaderText(Start8(d), q, h)
  }

  /** What has been consumed from the end of the request line, or of the last header field, on. */
  function HeaderText(base: string, q: DecodeState, h: Header): string {
    match q
    case WHEN_CR => base + [CR]
    case CR_LF => base + [CR] + [LF]
    case HEADER_KEY => base + [CR] + [LF] + h.pair.key
    case HEADER_BEFORE_COLON => base + [CR] + [LF] + h.pair.key + h.before
    case HEADER_AFTER_COLON => base + [CR] + [LF] + h.pair.key + h.before + ":" + h.after
    case HEADER_VALUE => base + [CR] + [LF] + h.pair.key + h.before + ":" + h.after + h.pair.value
    case CR_LF_CR => base + [CR] + [LF] + [CR]
    case BODY => base + [CR] + [LF] + [CR] + [LF]
    case _ => base
  }

  function Rank(q: DecodeState): nat {
    match q
    case START => 0
    case METHOD => 1
    case BEFORE_URI => 2
    case IN_URI => 3
    case BEFORE_URI_PARAM_KEY => 4
    case URI_PARAM_KEY => 5
    case BEFORE_URI_PARAM_VALUE => 6
    case URI_PARAM_VALUE => 7
    case BEFORE_PROTOCOL => 8
    case PROTOCOL => 9
    case BEFORE_VERSION => 10
    case VERSION => 11
    case VERSION_SPLIT => 11
    case WHEN_CR => 12
    case CR_LF => 13
    case HEADER_KEY => 14
    case HEADER_BEFORE_COLON => 15
    case HEADER_AFTER_COLON => 16
    case HEADER_VALUE => 17
    case CR_LF_CR => 18
    case BODY => 19
    case _ => 20
  }

  /** The pieces that are not there yet are empty. */
  predicate Ahead(q: DecodeState, p: Prog) {
    var d, k := p.doc, Rank(q);
    && (k < 1 ==> d.verb == "") && (k < 2 ==> d.gap1 == "") && (k < 3 ==> d.url == "")
    && (k < 4 ==> d.params == []) && (k < 8 ==> d.gap2 == "") && (k < 9 ==> d.protocol == "")
    && (k < 11 ==> d.version == "") && (k < 12 ==> d.headers == [])
    && (k !in {5, 6, 7, 14, 15, 16, 17} ==> p.cur == NO_HEADER)
    && (k < 7 ==> p.cur.pair.value == "") && (k < 14 ==> p.cur.before == "" && p.cur.after == "")
    && (k == 14 ==> p.cur.before == "" && p.cur.after == "" && p.cur.pair.value == "")
    && (k == 15 ==> p.cur.after == "" && p.cur.pair.value == "") && (k == 16 ==> p.cur.pair.value == "")
  }

  /** The pieces that are complete, and the parts read of the current one, are well formed. */
  predicate Behind(q: DecodeState, p: Prog) {
    var d, h, k := p.doc, p.cur, Rank(q);
    && LeadOk(d.lead) && (1 <= k ==> VerbOk(d.verb)) && (2 <= k ==> d.gap1 != "" && Blanks(d.gap1))
    && (3 <= k ==> UrlOk(d.url)) && PairsOk(d.params)
    && (5 <= k <= 7 ==> KeyOk(h.pair.key)) && (k == 7 ==> ValueOk(h.pair.value))
    && (8 <= k ==> d.gap2 != "" && Blanks(d.gap2)) && (9 <= k ==> ProtocolOk(d.protocol))
    && (q == VERSION || 12 <= k ==> VersionOk(d.version))
    && (q == VERSION_SPLIT ==>
          d.version != "" && VersionOk(d.version[..|d.version| - 1]) && d.version[|d.version| - 1] == '.')
    && HeadersOk(d.headers)
    && (14 <= k <= 17 ==> HeaderKeyOk(h.pair.key) && Blanks(h.before) && Blanks(h.after))
    && (k == 15 ==> h.before != "") && (k == 17 ==> HeaderValueOk(h.pair.value))
  }

  lemma PairsSnoc(base: string, ps: seq<Pair>, p: Pair)
    ensures Pairs(base, ps + [p]) == Pairs(base, ps) + p.key + "=" + p.value + "&"
    ensures Query(base, ps + [p]) == Pairs(base + "?", ps) + p.key + "=" + p.value
  {
    assert (ps + [p])[..|ps + [p]| - 1] == ps;
  }

  lemma HeaderLinesSnoc(base: string, hs: seq<Header>, h: Header)
    ensures HeaderLines(base, hs + [h])
         == HeaderLines(base, hs) + [CR] + [LF] + h.pair.key + h.before + ":" + h.after + h.pair.value
    ensures FirstWins(HeaderPairs(hs + [h])) == Insert(FirstWins(HeaderPairs(hs)), h.pair.key, h.pair.value)
  {
    assert (hs + [h])[..|hs + [h]| - 1] == hs;
    var ps := HeaderPairs(hs + [h]);
    assert ps == HeaderPairs(hs) + [h.pair] && ps[..|ps| - 1] == HeaderPairs(hs);
  }

  lemma {:induction false} AheadLine(q: DecodeState, ch: char, p: Prog)
    requires Rank(q) < 4 && Ahead(q, p) && !Terminal(Goto(q, ch))
    ensures Ahead(Goto(q, ch), Track(q, ch, p))
  {
  }

  lemma {:induction false} AheadParams(q: DecodeState, ch: char, p: Prog)
    requires 4 <= Rank(q) < 8 && Ahead(q, p) && !Terminal(Goto(q, ch))
    ensures Ahead(Goto(q, ch), Track(q, ch, p))
  {
  }

  lemma {:induction false} AheadProtocol(q: DecodeState, ch: char, p: Prog)
    requires 8 <= Rank(q) < 12 && Ahead(q, p) && !Terminal(Goto(q, ch))
    ensures Ahead(Goto(q, ch), Track(q, ch, p))
  {
  }

  lemma {:induction false} AheadLineEnd(q: DecodeState, ch: char, p: Prog)
    requires q in {WHEN_CR, CR_LF, CR_LF_CR} && Ahead(q, p) && !Terminal(Goto(q, ch))
    ensures Ahead(Goto(q, ch), Track(q, ch, p))
  {
  }

  lemma {:induction false} AheadHeader(q: DecodeState, ch: char, p: Prog)
    requires 14 <= Rank(q) < 18 && Ahead(q, p) && !Terminal(Goto(q, ch))
    ensures Ahead(Goto(q, ch), Track(q, ch, p))
  {
  }

  lemma {:induction false} TrackTextVerb(q: DecodeState, ch: char, p: Prog)
    requires Rank(q) < 2 && Ahead(q, p) && !Terminal(Goto(q, ch))
    ensures Text(Goto(q, ch), Track(q, ch, p)) == Text(q, p) + [ch]
  {
  }

  lemma {:induction false} TrackTextUrl(q: DecodeState, ch: char, p: Prog)
    requires 2 <= Rank(q) < 4 && Ahead(q, p) && !Terminal(Goto(q, ch))
    ensures Text(Goto(q, ch), Track(q, ch, p)) == Text(q, p) + [ch]
  {
  }

  lemma {:induction false} TrackTextKey(q: DecodeState, ch: char, p: Prog)
    requires 4 <= Rank(q) < 7 && Ahead(q, p) && !Terminal(Goto(q, ch))
    ensures Text(Goto(q, ch), Track(q, ch, p)) == Text(q, p) + [ch]
  {
  }

  lemma {:induction false} TrackTextNextParam(p: Prog)
    ensures Text(BEFORE_URI_PARAM_KEY, CloseParam(p)) == Text(URI_PARAM_VALUE, p) + ['&']
  {
    PairsSnoc(Start3(p.doc) + "?", p.doc.params, p.cur.pair);
  }

  lemma {:induction false} TrackTextLastParam(ch: char, p: Prog)
    requires p.doc.gap2 == ""
    ensures Text(BEFORE_PROTOCOL, Add(BEFORE_PROTOCOL, CloseParam(p), [ch])) == Text(URI_PARAM_VALUE, p) + [ch]
  {
    PairsSnoc(Start3(p.doc), p.doc.params, p.cur.pair);
  }

  lemma {:induction false} TrackTextValue(q: DecodeState, ch: char, p: Prog)
    requires q == URI_PARAM_VALUE && Ahead(q, p) && !Terminal(Goto(q, ch))
    ensures Text(Goto(q, ch), Track(q, ch, p)) == Text(q, p) + [ch]
  {
    if ch == '&' { TrackTextNextParam(p); } else if IsBlank(ch) { TrackTextLastParam(ch, p); }
  }

  lemma {:induction false} TrackTextProtocol(q: DecodeState, ch: char, p: Prog)
    requires 8 <= Rank(q) < 10 && Ahead(q, p) && !Terminal(Goto(q, ch))
    ensures Text(Goto(q, ch), Track(q, ch, p)) == Text(q, p) + [ch]
  {
  }

  lemma {:induction false} TrackTextSlash(q: DecodeState, ch: char, p: Prog)
    requires Rank(q) == 10 && Ahead(q, p) && !Terminal(Goto(q, ch))
    ensures Text(Goto(q, ch), Track(q, ch, p)) == Text(q, p) + [ch]
  {
  }

  lemma {:induction false} TrackTextVersion(q: DecodeState, ch: char, p: Prog)
    requires q == VERSION && Ahead(q, p) && !Terminal(Goto(q, ch))
    ensures Text(Goto(q, ch), Track(q, ch, p)) == Text(q, p) + [ch]
  {
  }

  lemma {:induction false} TrackTextPoint(q: DecodeState, ch: char, p: Prog)
    requires q == VERSION_SPLIT && Ahead(q, p) && !Terminal(Goto(q, ch))
    ensures Text(Goto(q, ch), Track(q, ch, p)) == Text(q, p) + [ch]
  {
  }

  lemma {:induction false} HeaderTextLineEnd(base: string, q: DecodeState, ch: char, p: Prog)
    requires q in {WHEN_CR, CR_LF, CR_LF_CR} && Ahead(q, p) && !Terminal(Goto(q, ch)) && Goto(q, ch) != WHEN_CR
    ensures HeaderText(base, Goto(q, ch), Track(q, ch, p).cur) == HeaderText(base, q, p.cur) + [ch]
  {
  }

  lemma {:induction false} HeaderTextHeader(base: string, q: DecodeState, ch: char, p: Prog)
    requires 14 <= Rank(q) < 18 && Ahead(q, p) && !Terminal(Goto(q, ch)) && Goto(q, ch) != WHEN_CR
    ensures HeaderText(base, Goto(q, ch), Track(q, ch, p).cur) == HeaderText(base, q, p.cur) + [ch]
  {
  }

  lemma Start7Same(d: Doc, hs: seq<Header>)
    ensures Start7(d.(headers := hs)) == Start7(d)
  {
  }

  lemma CloseHeaderLine(base: string, hs: seq<Header>, h: Header)
    ensures HeaderText(HeaderLines(base, hs + [h]), WHEN_CR, NO_HEADER)
         == HeaderText(HeaderLines(base, hs), HEADER_VALUE, h) + [CR]
  {
    HeaderLinesSnoc(base, hs, h);
  }

  /** Between header fields the text stands for the same whether the last one is still open or not. */
  lemma {:induction false} CloseHeaderText(p: Prog)
    ensures Text(WHEN_CR, CloseHeader(p)) == Text(HEADER_VALUE, p) + [CR]
  {
    var hs := p.doc.headers + [p.cur];
    var base := Start7(p.doc);
    Start7Same(p.doc, hs);
    CloseHeaderLine(base, p.doc.headers, p.cur);
    var d := p.doc.(headers := hs);
    assert CloseHeader(p) == Prog(d, NO_HEADER);
    assert Start8(d) == HeaderLines(base, hs);
    assert Start8(p.doc) == HeaderLines(base, p.doc.headers);
    assert Text(WHEN_CR, CloseHeader(p)) == HeaderText(Start8(d), WHEN_CR, NO_HEADER);
    assert Text(HEADER_VALUE, p) == HeaderText(Start8(p.doc), HEADER_VALUE, p.cur);
  }

  lemma TextIsHeaderText(q: DecodeState, p: Prog)
    requires 12 <= Rank(q) < 20
    ensures Text(q, p) == HeaderText(Start8(p.doc), q, p.cur)
  {
  }

  lemma {:induction false} SameDocLineEnd(q: DecodeState, ch: char, p: Prog)
    requires q in {WHEN_CR, CR_LF, CR_LF_CR} && !Terminal(Goto(q, ch))
    ensures Track(q, ch, p).doc == p.doc && 12 <= Rank(Goto(q, ch)) < 20
  {
  }

  lemma {:induction false} SameDocHeader(q: DecodeState, ch: char, p: Prog)
    requires 14 <= Rank(q) < 18 && !Terminal(Goto(q, ch)) && Goto(q, ch) != WHEN_CR
    ensures Track(q, ch, p).doc == p.doc && 12 <= Rank(Goto(q, ch)) < 20
  {
  }

  lemma {:induction false} TrackTextHeaders(q: DecodeState, ch: char, p: Prog)
    requires 12 <= Rank(q) < 19 && Ahead(q, p) && !Terminal(Goto(q, ch))
    ensures Text(Goto(q, ch), Track(q, ch, p)) == Text(q, p) + [ch]
  {
    if Goto(q, ch) == WHEN_CR {
      assert q == HEADER_VALUE && ch == CR;
      CloseHeaderText(p);
    } else {
      if q in {WHEN_CR, CR_LF, CR_LF_CR} {
        HeaderTextLineEnd(Start8(p.doc), q, ch, p);
        SameDocLineEnd(q, ch, p);
      } else {
        HeaderTextHeader(Start8(p.doc), q, ch, p);
        SameDocHeader(q, ch, p);
      }
      TextIsHeaderText(q, p);
      TextIsHeaderText(Goto(q, ch), Track(q, ch, p));
    }
  }

  /** One character: nothing of the consumed text is lost. */
  lemma {:induction false} TrackText(q: DecodeState, ch: char, p: Prog)
    requires !Halted(q) && Ahead(q, p) && !Terminal(Goto(q, ch))
    ensures Text(Goto(q, ch), Track(q, ch, p)) == Text(q, p) + [ch]
  {
    if Rank(q) < 2 { TrackTextVerb(q, ch, p); }
    else if Rank(q) < 4 { TrackTextUrl(q, ch, p); }
    else if Rank(q) < 7 { TrackTextKey(q, ch, p); }
    else if Rank(q) < 8 { TrackTextValue(q, ch, p); }
    else if Rank(q) < 10 { TrackTextProtocol(q, ch, p); }
    else if Rank(q) < 11 { TrackTextSlash(q, ch, p); }
    else if q == VERSION { TrackTextVersion(q, ch, p); }
    else if q == VERSION_SPLIT { TrackTextPoint(q, ch, p); }
    else { TrackTextHeaders(q, ch, p); }
  }

  /** ... and the pieces to come stay empty. */
  lemma {:induction false} TrackAhead(q: DecodeState, ch: char, p: Prog)
    requires !Halted(q) && Ahead(q, p) && !Terminal(Goto(q, ch))
    ensures Ahead(Goto(q, ch), Track(q, ch, p))
  {
    if Rank(q) < 4 { AheadLine(q, ch, p); }
    else if Rank(q) < 8 { AheadParams(q, ch, p); }
    else if Rank(q) < 12 { AheadProtocol(q, ch, p); }
    else if q in {WHEN_CR, CR_LF, CR_LF_CR} { AheadLineEnd(q, ch, p); }
    else { AheadHeader(q, ch, p); }
  }

  lemma VersionSnoc(s: string, dot: string, ch: char)
    requires VersionOk(s) && dot in {"", "."} && IsDigit(ch)
    ensures VersionOk(s + dot + [ch])
  {
    var v := s + dot + [ch];
    forall i | 0 <= i < |v| ensures DigitOrPoint(v, i) {
      if i < |s| {
        assert DigitOrPoint(s, i) && v[i] == s[i];
        if i + 1 < |s| { assert v[i + 1] == s[i + 1]; }
      }
    }
  }

  lemma {:induction false} KeepsFormVerb(q: DecodeState, ch: char, p: Prog)
    requires Rank(q) < 2 && Ahead(q, p) && Behind(q, p) && !Terminal(Goto(q, ch))
    ensures Behind(Goto(q, ch), Track(q, ch, p))
  {
  }

  lemma {:induction false} KeepsFormSlash(q: DecodeState, ch: char, p: Prog)
    requires q == BEFORE_URI && Ahead(q, p) && Behind(q, p) && !Terminal(Goto(q, ch))
    ensures Behind(Goto(q, ch), Track(q, ch, p))
  {
  }

  lemma {:induction false} KeepsFormUrl(q: DecodeState, ch: char, p: Prog)
    requires q == IN_URI && Ahead(q, p) && Behind(q, p) && !Terminal(Goto(q, ch))
    ensures Behind(Goto(q, ch), Track(q, ch, p))
  {
  }

  lemma {:induction false} KeepsFormKey(q: DecodeState, ch: char, p: Prog)
    requires 4 <= Rank(q) < 6 && Ahead(q, p) && Behind(q, p) && !Terminal(Goto(q, ch))
    ensures Behind(Goto(q, ch), Track(q, ch, p))
  {
  }

  lemma {:induction false} KeepsFormEquals(q: DecodeState, ch: char, p: Prog)
    requires Rank(q) == 6 && Ahead(q, p) && Behind(q, p) && !Terminal(Goto(q, ch))
    ensures Behind(Goto(q, ch), Track(q, ch, p))
  {
  }

  lemma {:induction false} KeepsFormValue(q: DecodeState, ch: char, p: Prog)
    requires Rank(q) == 7 && Ahead(q, p) && Behind(q, p) && !Terminal(Goto(q, ch))
    ensures Behind(Goto(q, ch), Track(q, ch, p))
  {
  }

  lemma {:induction false} KeepsFormGap(q: DecodeState, ch: char, p: Prog)
    requires Rank(q) == 8 && Ahead(q, p) && Behind(q, p) && !Terminal(Goto(q, ch))
    ensures Behind(Goto(q, ch), Track(q, ch, p))
  {
  }

  lemma {:induction false} KeepsFormProtocol(q: DecodeState, ch: char, p: Prog)
    requires Rank(q) == 9 && Ahead(q, p) && Behind(q, p) && !Terminal(Goto(q, ch))
    ensures Behind(Goto(q, ch), Track(q, ch, p))
  {
  }

  lemma {:induction false} KeepsFormDigit(q: DecodeState, ch: char, p: Prog)
    requires Rank(q) == 10 && Ahead(q, p) && Behind(q, p) && !Terminal(Goto(q, ch))
    ensures Behind(Goto(q, ch), Track(q, ch, p))
  {
  }

  lemma {:induction false} KeepsFormVersion(q: DecodeState, ch: char, p: Prog)
    requires q == VERSION && Ahead(q, p) && Behind(q, p) && !Terminal(Goto(q, ch))
    ensures Behind(Goto(q, ch), Track(q, ch, p))
  {
    var v := p.doc.version;
    if IsDigit(ch) {
      VersionSnoc(v, "", ch);
      assert v + "" == v;
    } else if ch == '.' {
      assert (v + [ch])[..|v|] == v;
    }
  }

  lemma {:induction false} KeepsFormPoint(q: DecodeState, ch: char, p: Prog)
    requires q == VERSION_SPLIT && Ahead(q, p) && Behind(q, p) && !Terminal(Goto(q, ch))
    ensures Behind(Goto(q, ch), Track(q, ch, p))
  {
    var v := p.doc.version;
    VersionSnoc(v[..|v| - 1], ".", ch);
    assert v == v[..|v| - 1] + ".";
  }

  lemma {:induction false} KeepsFormCr(q: DecodeState, ch: char, p: Prog)
    requires q == WHEN_CR && Ahead(q, p) && Behind(q, p) && !Terminal(Goto(q, ch))
    ensures Behind(Goto(q, ch), Track(q, ch, p))
  {
  }

  lemma {:induction false} KeepsFormLastCr(q: DecodeState, ch: char, p: Prog)
    requires q == CR_LF_CR && Ahead(q, p) && Behind(q, p) && !Terminal(Goto(q, ch))
    ensures Behind(Goto(q, ch), Track(q, ch, p))
  {
  }

  lemma {:induction false} KeepsFormCrLf(q: DecodeState, ch: char, p: Prog)
    requires q == CR_LF && Ahead(q, p) && Behind(q, p) && !Terminal(Goto(q, ch))
    ensures Behind(Goto(q, ch), Track(q, ch, p))
  {
  }

  lemma {:induction false} KeepsFormHeaderKey(q: DecodeState, ch: char, p: Prog)
    requires q == HEADER_KEY && Ahead(q, p) && Behind(q, p) && !Terminal(Goto(q, ch))
    ensures Behind(Goto(q, ch), Track(q, ch, p))
  {
  }

  lemma {:induction false} KeepsFormColon(q: DecodeState, ch: char, p: Prog)
    requires 15 <= Rank(q) < 17 && Ahead(q, p) && Behind(q, p) && !Terminal(Goto(q, ch))
    ensures Behind(Goto(q, ch), Track(q, ch, p))
  {
  }

  lemma {:induction false} KeepsFormHeaderValue(q: DecodeState, ch: char, p: Prog)
    requires Rank(q) == 17 && Ahead(q, p) && Behind(q, p) && !Terminal(Goto(q, ch))
    ensures Behind(Goto(q, ch), Track(q, ch, p))
  {
  }

  /** One character: what has been read stays well formed. */
  lemma {:induction false} TrackKeepsForm(q: DecodeState, ch: char, p: Prog)
    requires !Halted(q) && Ahead(q, p) && Behind(q, p) && !Terminal(Goto(q, ch))
    ensures Behind(Goto(q, ch), Track(q, ch, p))
  {
    if Rank(q) < 2 { KeepsFormVerb(q, ch, p); }
    else if Rank(q) < 3 { KeepsFormSlash(q, ch, p); }
    else if Rank(q) < 4 { KeepsFormUrl(q, ch, p); }
    else if Rank(q) < 6 { KeepsFormKey(q, ch, p); }
    else if Rank(q) < 7 { KeepsFormEquals(q, ch, p); }
    else if Rank(q) < 8 { KeepsFormValue(q, ch, p); }
    else if Rank(q) < 9 { KeepsFormGap(q, ch, p); }
    else if Rank(q) < 10 { KeepsFormProtocol(q, ch, p); }
    else if Rank(q) < 11 { KeepsFormDigit(q, ch, p); }
    else if q == VERSION { KeepsFormVersion(q, ch, p); }
    else if q == VERSION_SPLIT { KeepsFormPoint(q, ch, p); }
    else if q == WHEN_CR { KeepsFormCr(q, ch, p); }
    else if q == CR_LF_CR { KeepsFormLastCr(q, ch, p); }
    else if q == CR_LF { KeepsFormCrLf(q, ch, p); }
    else if Rank(q) < 15 { KeepsFormHeaderKey(q, ch, p); }
    else if Rank(q) < 17 { KeepsFormColon(q, ch, p); }
    else { KeepsFormHeaderValue(q, ch, p); }
  }

  const BEGIN := Scanned(START, NO_PROG)

  lemma ScanSnoc(s: Scanned, text: string, ch: char)
    ensures var t := Scan(s, text);
      Scan(s, text + [ch]) == if Halted(t.q) then t else Scanned(Goto(t.q, ch), Track(t.q, ch, t.d))
  {
    ScanConcat(s, text, [ch]);
    assert [ch][1..] == "";
  }

  lemma AliveBefore(text: string)
    requires text != "" && !Halted(Scan(BEGIN, text).q)
    ensures !Halted(Scan(BEGIN, text[..|text| - 1]).q)
  {
    assert text == text[..|text| - 1] + [text[|text| - 1]];
    ScanSnoc(BEGIN, text[..|text| - 1], text[|text| - 1]);
  }

  /** Over any text, the state tells exactly what was consumed up to an error or the blank line. */
  lemma {:induction false} ScanSound(text: string)
    requires text != "" ==> !Halted(Scan(BEGIN, text[..|text| - 1]).q)
    ensures var t := Scan(BEGIN, text);
      !Terminal(t.q) ==> Ahead(t.q, t.d) && Behind(t.q, t.d) && Text(t.q, t.d) == text
    decreases |text|
  {
    if text != "" {
      var front, ch := text[..|text| - 1], text[|text| - 1];
      assert text == front + [ch];
      ScanSnoc(BEGIN, front, ch);
      if front != "" { AliveBefore(front); }
      ScanSound(front);
      var s := Scan(BEGIN, front);
      if !Terminal(Goto(s.q, ch)) {
        TrackAhead(s.q, ch, s.d);
        TrackText(s.q, ch, s.d);
        TrackKeepsForm(s.q, ch, s.d);
      }
    }
  }
}
