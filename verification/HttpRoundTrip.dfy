/** Printing a document and parsing it gives the document back, and nothing else is accepted. */
module HttpRoundTrip {
  import opened HttpModel
  import opened HttpGrammar
  import opened HttpScan
  import opened HttpTokens
  import opened HttpExact

  // ---------------------------------------------------------------- pieces

  lemma {:induction false} Feed(q: DecodeState, d: Prog, s: string)
    requires forall i :: 0 <= i < |s| ==> Stay(q, s[i])
    ensures Scan(Scanned(q, d), s) == Scanned(q, Add(q, d, s))
    decreases |s|
  {
    if s == "" {
      AddNothing(q, d);
    } else {
      Feed(q, Add(q, d, [s[0]]), s[1..]);
      AddTwice(q, d, [s[0]], s[1..]);
      assert [s[0]] + s[1..] == s;
    }
  }

  lemma AddNothing(q: DecodeState, d: Prog)
    ensures Add(q, d, "") == d
  {
    assert forall s: string :: s + "" == s;
  }

  lemma AddTwice(q: DecodeState, d: Prog, a: string, b: string)
    ensures Add(q, Add(q, d, a), b) == Add(q, d, a + b)
  {
    assert forall s: string :: s + a + b == s + (a + b);
  }

  /** Entering a state and reading a whole piece in it. */
  lemma {:induction false} FeedFrom(q: DecodeState, next: DecodeState, d: Prog, s: string)
    requires s != "" && !Halted(q) && Goto(q, s[0]) == next && Track(q, s[0], d) == Add(next, d, [s[0]])
    requires forall i :: 1 <= i < |s| ==> Stay(next, s[i])
    ensures Scan(Scanned(q, d), s) == Scanned(next, Add(next, d, s))
  {
    Feed(next, Add(next, d, [s[0]]), s[1..]);
    AddTwice(next, d, [s[0]], s[1..]);
    assert [s[0]] + s[1..] == s;
  }

  lemma One(s: Scanned, ch: char)
    requires !Halted(s.q)
    ensures Scan(s, [ch]) == Scanned(Goto(s.q, ch), Track(s.q, ch, s.d))
  {
    assert [ch][1..] == "";
  }

  /** `b` after a text that is already understood. */
  lemma Then(text: string, s: Scanned, b: string, t: Scanned)
    requires Scan(BEGIN, text) == s && Scan(s, b) == t
    ensures Scan(BEGIN, text + b) == t
  {
    ScanConcat(BEGIN, text, b);
  }

  /** One more character, and one more piece, after a text that is already understood. */
  lemma ReadChar(text: string, s: Scanned, ch: char)
    requires Scan(BEGIN, text) == s && !Halted(s.q)
    ensures Scan(BEGIN, text + [ch]) == Scanned(Goto(s.q, ch), Track(s.q, ch, s.d))
  {
    One(s, ch);
    Then(text, s, [ch], Scanned(Goto(s.q, ch), Track(s.q, ch, s.d)));
  }

  lemma {:induction false} ReadPiece(text: string, q: DecodeState, next: DecodeState, d: Prog, s: string)
    requires Scan(BEGIN, text) == Scanned(q, d)
    requires s != "" && !Halted(q) && Goto(q, s[0]) == next && Track(q, s[0], d) == Add(next, d, [s[0]])
    requires forall i :: 1 <= i < |s| ==> Stay(next, s[i])
    ensures Scan(BEGIN, text + s) == Scanned(next, Add(next, d, s))
  {
    FeedFrom(q, next, d, s);
    Then(text, Scanned(q, d), s, Scanned(next, Add(next, d, s)));
  }

  lemma ReadMore(text: string, q: DecodeState, d: Prog, s: string)
    requires Scan(BEGIN, text) == Scanned(q, d) && forall i :: 0 <= i < |s| ==> Stay(q, s[i])
    ensures Scan(BEGIN, text + s) == Scanned(q, Add(q, d, s))
  {
    Feed(q, d, s);
    Then(text, Scanned(q, d), s, Scanned(q, Add(q, d, s)));
  }

  // ---------------------------------------------------------------- the request line

  lemma ReadLead(lead: string)
    requires LeadOk(lead)
    ensures Scan(BEGIN, lead) == Scanned(START, Prog(NO_DOC.(lead := lead), NO_HEADER))
  {
    Feed(START, NO_PROG, lead);
    assert "" + lead == lead;
  }

  lemma ReadVerb(text: string, d: Doc, verb: string)
    requires Scan(BEGIN, text) == Scanned(START, Prog(d, NO_HEADER)) && d.verb == "" && VerbOk(verb)
    ensures Scan(BEGIN, text + verb) == Scanned(METHOD, Prog(d.(verb := verb), NO_HEADER))
  {
    ReadPiece(text, START, METHOD, Prog(d, NO_HEADER), verb);
  }

  lemma ReadGap(text: string, d: Doc, gap: string)
    requires Scan(BEGIN, text) == Scanned(METHOD, Prog(d, NO_HEADER)) && d.gap1 == "" && gap != "" && Blanks(gap)
    ensures Scan(BEGIN, text + gap) == Scanned(BEFORE_URI, Prog(d.(gap1 := gap), NO_HEADER))
  {
    ReadPiece(text, METHOD, BEFORE_URI, Prog(d, NO_HEADER), gap);
  }

  lemma ReadUrl(text: string, d: Doc, url: string)
    requires Scan(BEGIN, text) == Scanned(BEFORE_URI, Prog(d, NO_HEADER)) && d.url == "" && UrlOk(url)
    ensures Scan(BEGIN, text + url) == Scanned(IN_URI, Prog(d.(url := url), NO_HEADER))
  {
    assert forall i :: 1 <= i < |url| ==> Stay(IN_URI, url[i]);
    ReadPiece(text, BEFORE_URI, IN_URI, Prog(d, NO_HEADER), url);
  }

  lemma ReadKey(text: string, d: Doc, key: string)
    requires Scan(BEGIN, text) == Scanned(BEFORE_URI_PARAM_KEY, Prog(d, NO_HEADER)) && KeyOk(key)
    ensures Scan(BEGIN, text + key) == Scanned(URI_PARAM_KEY, Prog(d, Header(Pair(key, ""), "", "")))
  {
    ReadPiece(text, BEFORE_URI_PARAM_KEY, URI_PARAM_KEY, Prog(d, NO_HEADER), key);
  }

  lemma ReadValue(text: string, d: Doc, key: string, value: string)
    requires Scan(BEGIN, text) == Scanned(BEFORE_URI_PARAM_VALUE, Prog(d, Header(Pair(key, ""), "", "")))
    requires ValueOk(value)
    ensures Scan(BEGIN, text + value) == Scanned(URI_PARAM_VALUE, Prog(d, Header(Pair(key, value), "", "")))
  {
    ReadPiece(text, BEFORE_URI_PARAM_VALUE, URI_PARAM_VALUE, Prog(d, Header(Pair(key, ""), "", "")), value);
  }

  /** One parameter up to the end of its value. */
  lemma ScanPair(text: string, d: Doc, p: Pair)
    requires Scan(BEGIN, text) == Scanned(BEFORE_URI_PARAM_KEY, Prog(d, NO_HEADER)) && PairOk(p)
    ensures Scan(BEGIN, text + p.key + "=" + p.value) == Scanned(URI_PARAM_VALUE, Prog(d, Header(p, "", "")))
  {
    ReadKey(text, d, p.key);
    ReadChar(text + p.key, Scanned(URI_PARAM_KEY, Prog(d, Header(Pair(p.key, ""), "", ""))), '=');
    ReadValue(text + p.key + "=", d, p.key, p.value);
  }

  lemma NextPair(text: string, d: Doc, p: Pair)
    requires Scan(BEGIN, text) == Scanned(URI_PARAM_VALUE, Prog(d, Header(p, "", "")))
    ensures Scan(BEGIN, text + "&") == Scanned(BEFORE_URI_PARAM_KEY, Prog(d.(params := d.params + [p]), NO_HEADER))
  {
    ReadChar(text, Scanned(URI_PARAM_VALUE, Prog(d, Header(p, "", ""))), '&');
  }

  lemma {:induction false} ScanPairs(text: string, d: Doc, ps: seq<Pair>)
    requires Scan(BEGIN, text) == Scanned(BEFORE_URI_PARAM_KEY, Prog(d, NO_HEADER)) && PairsOk(ps)
    ensures Scan(BEGIN, Pairs(text, ps)) == Scanned(BEFORE_URI_PARAM_KEY, Prog(d.(params := d.params + ps), NO_HEADER))
    decreases |ps|
  {
    if ps == [] {
      assert d.params + ps == d.params;
    } else {
      var front, p := ps[..|ps| - 1], ps[|ps| - 1];
      ScanPairs(text, d, front);
      var e := d.(params := d.params + front);
      ScanPair(Pairs(text, front), e, p);
      NextPair(Pairs(text, front) + p.key + "=" + p.value, e, p);
      assert e.params + [p] == d.params + ps;
    }
  }

  lemma LastPair(text: string, d: Doc, p: Pair, ch: char)
    requires Scan(BEGIN, text) == Scanned(URI_PARAM_VALUE, Prog(d, Header(p, "", ""))) && d.gap2 == "" && IsBlank(ch)
    ensures Scan(BEGIN, text + [ch])
         == Scanned(BEFORE_PROTOCOL, Prog(d.(params := d.params + [p], gap2 := [ch]), NO_HEADER))
  {
    ReadChar(text, Scanned(URI_PARAM_VALUE, Prog(d, Header(p, "", ""))), ch);
  }

  /** The blanks that end the last parameter. */
  lemma ScanGap(text: string, d: Doc, p: Pair, gap: string)
    requires Scan(BEGIN, text) == Scanned(URI_PARAM_VALUE, Prog(d, Header(p, "", ""))) && d.gap2 == ""
    requires gap != "" && Blanks(gap)
    ensures Scan(BEGIN, text + gap)
         == Scanned(BEFORE_PROTOCOL, Prog(d.(params := d.params + [p], gap2 := gap), NO_HEADER))
  {
    LastPair(text, d, p, gap[0]);
    MoreGap(text + [gap[0]], d.(params := d.params + [p], gap2 := [gap[0]]), gap[1..]);
    FirstAndRest(text, gap);
  }

  lemma FirstAndRest(text: string, s: string)
    requires s != ""
    ensures [s[0]] + s[1..] == s && text + [s[0]] + s[1..] == text + s
  {
  }

  lemma MoreGap(text: string, d: Doc, gap: string)
    requires Scan(BEGIN, text) == Scanned(BEFORE_PROTOCOL, Prog(d, NO_HEADER)) && Blanks(gap)
    ensures Scan(BEGIN, text + gap) == Scanned(BEFORE_PROTOCOL, Prog(d.(gap2 := d.gap2 + gap), NO_HEADER))
  {
    ReadMore(text, BEFORE_PROTOCOL, Prog(d, NO_HEADER), gap);
  }

  lemma ScanGapOnly(text: string, d: Doc, gap: string)
    requires Scan(BEGIN, text) == Scanned(IN_URI, Prog(d, NO_HEADER)) && d.gap2 == "" && gap != "" && Blanks(gap)
    ensures Scan(BEGIN, text + gap) == Scanned(BEFORE_PROTOCOL, Prog(d.(gap2 := gap), NO_HEADER))
  {
    ReadPiece(text, IN_URI, BEFORE_PROTOCOL, Prog(d, NO_HEADER), gap);
  }

  /** URL, parameters and the blanks after them. */
  lemma {:induction false} ScanQuery(text: string, d: Doc, ps: seq<Pair>, gap: string)
    requires Scan(BEGIN, text) == Scanned(IN_URI, Prog(d, NO_HEADER)) && d.params == [] && d.gap2 == ""
    requires PairsOk(ps) && gap != "" && Blanks(gap)
    ensures Scan(BEGIN, Query(text, ps) + gap)
        == Scanned(BEFORE_PROTOCOL, Prog(d.(params := ps, gap2 := gap), NO_HEADER))
  {
    if ps == [] {
      ScanGapOnly(text, d, gap);
    } else {
      var front, p := ps[..|ps| - 1], ps[|ps| - 1];
      assert ps == front + [p];
      ReadChar(text, Scanned(IN_URI, Prog(d, NO_HEADER)), '?');
      ScanPairs(text + "?", d, front);
      assert d.params + front == front;
      ScanPair(Pairs(text + "?", front), d.(params := front), p);
      ScanGap(Query(text, ps), d.(params := front), p, gap);
    }
  }

  /** One character of a version. */
  lemma VersionChar(d: Prog, v: string, k: nat)
    requires VersionOk(v) && 1 <= k < |v|
    ensures var q := if v[k - 1] == '.' then VERSION_SPLIT else VERSION;
      var next := if v[k] == '.' then VERSION_SPLIT else VERSION;
      Goto(q, v[k]) == next && Track(q, v[k], d) == Add(VERSION, d, [v[k]])
  {
    assert DigitOrPoint(v, k - 1) && DigitOrPoint(v, k);
  }

  lemma PrefixSnoc(text: string, s: string, k: nat)
    requires k < |s|
    ensures text + s[..k] + [s[k]] == text + s[..k + 1]
  {
    assert s[..k] + [s[k]] == s[..k + 1];
  }

  lemma NextVersionChar(text: string, d: Prog, v: string, k: nat)
    requires VersionOk(v) && 1 <= k < |v|
    requires Scan(BEGIN, text) == Scanned(if v[k - 1] == '.' then VERSION_SPLIT else VERSION, Add(VERSION, d, v[..k]))
    ensures Scan(BEGIN, text + [v[k]])
         == Scanned(if v[k] == '.' then VERSION_SPLIT else VERSION, Add(VERSION, d, v[..k + 1]))
  {
    VersionChar(Add(VERSION, d, v[..k]), v, k);
    AddTwice(VERSION, d, v[..k], [v[k]]);
    assert v[..k] + [v[k]] == v[..k + 1];
    ReadChar(text, Scan(BEGIN, text), v[k]);
  }

  /** After a proper prefix of a version the scan is in VERSION, or after a point in VERSION_SPLIT. */
  lemma {:induction false} ScanVersionFrom(text: string, d: Prog, v: string, k: nat)
    requires VersionOk(v) && 1 <= k <= |v|
    requires Scan(BEGIN, text) == Scanned(BEFORE_VERSION, d) && d.doc.version == ""
    ensures Scan(BEGIN, text + v[..k])
        == Scanned(if v[k - 1] == '.' then VERSION_SPLIT else VERSION, Add(VERSION, d, v[..k]))
    decreases k
  {
    if k == 1 {
      ReadChar(text, Scanned(BEFORE_VERSION, d), v[0]);
      assert v[..1] == [v[0]];
    } else {
      ScanVersionFrom(text, d, v, k - 1);
      NextVersionChar(text + v[..k - 1], d, v, k - 1);
      PrefixSnoc(text, v, k - 1);
    }
  }

  lemma ReadVersion(text: string, d: Doc, version: string)
    requires Scan(BEGIN, text) == Scanned(BEFORE_VERSION, Prog(d, NO_HEADER)) && d.version == "" && VersionOk(version)
    ensures Scan(BEGIN, text + version) == Scanned(VERSION, Prog(d.(version := version), NO_HEADER))
  {
    ScanVersionFrom(text, Prog(d, NO_HEADER), version, |version|);
    assert version[..|version|] == version;
  }

  lemma ReadProtocol(text: string, d: Doc, protocol: string)
    requires Scan(BEGIN, text) == Scanned(BEFORE_PROTOCOL, Prog(d, NO_HEADER))
    requires d.protocol == "" && ProtocolOk(protocol)
    ensures Scan(BEGIN, text + protocol) == Scanned(PROTOCOL, Prog(d.(protocol := protocol), NO_HEADER))
  {
    ReadPiece(text, BEFORE_PROTOCOL, PROTOCOL, Prog(d, NO_HEADER), protocol);
  }

  /** The pieces up to the URL. */
  predicate ToUrlOk(d: Doc) {
    LeadOk(d.lead) && VerbOk(d.verb) && d.gap1 != "" && Blanks(d.gap1) && UrlOk(d.url)
  }

  /** ... and up to the slash after the protocol. */
  predicate ToSlashOk(d: Doc) {
    ToUrlOk(d) && PairsOk(d.params) && d.gap2 != "" && Blanks(d.gap2) && ProtocolOk(d.protocol)
  }

  lemma {:induction false} ScanToGap(lead: string, verb: string, gap: string)
    requires LeadOk(lead) && VerbOk(verb) && gap != "" && Blanks(gap)
    ensures Scan(BEGIN, lead + verb) == Scanned(METHOD, Prog(NO_DOC.(lead := lead, verb := verb), NO_HEADER))
    ensures Scan(BEGIN, lead + verb + gap)
         == Scanned(BEFORE_URI, Prog(NO_DOC.(lead := lead, verb := verb, gap1 := gap), NO_HEADER))
  {
    ReadLead(lead);
    ReadVerb(lead, NO_DOC.(lead := lead), verb);
    ReadGap(lead + verb, NO_DOC.(lead := lead, verb := verb), gap);
  }

  function UrlOnly(d: Doc): Doc {
    NO_DOC.(lead := d.lead, verb := d.verb, gap1 := d.gap1, url := d.url)
  }

  lemma {:induction false} ScanToUrl(d: Doc)
    requires ToUrlOk(d)
    ensures Scan(BEGIN, d.lead + d.verb + d.gap1 + d.url) == Scanned(IN_URI, Prog(UrlOnly(d), NO_HEADER))
  {
    ScanToGap(d.lead, d.verb, d.gap1);
    ReadUrl(d.lead + d.verb + d.gap1, NO_DOC.(lead := d.lead, verb := d.verb, gap1 := d.gap1), d.url);
  }

  /** The slash after the protocol. */
  lemma {:induction false} ScanToSlash(d: Doc)
    requires ToSlashOk(d)
    ensures Scan(BEGIN, Query(d.lead + d.verb + d.gap1 + d.url, d.params) + d.gap2 + d.protocol + "/")
         == Scanned(BEFORE_VERSION, Prog(d.(version := "", headers := []), NO_HEADER))
  {
    var url := d.lead + d.verb + d.gap1 + d.url;
    ScanToUrl(d);
    ScanQuery(url, UrlOnly(d), d.params, d.gap2);
    var text, e := Query(url, d.params) + d.gap2, d.(protocol := "", version := "", headers := []);
    assert UrlOnly(d).(params := d.params, gap2 := d.gap2) == e;
    ReadProtocol(text, e, d.protocol);
    ReadChar(text + d.protocol, Scanned(PROTOCOL, Prog(e.(protocol := d.protocol), NO_HEADER)), '/');
  }

  lemma {:induction false} ScanLine(d: Doc)
    requires DocOk(d)
    ensures Scan(BEGIN, Line(d)) == Scanned(VERSION, Prog(d.(headers := []), NO_HEADER))
  {
    ScanToSlash(d);
    ReadVersion(Query(d.lead + d.verb + d.gap1 + d.url, d.params) + d.gap2 + d.protocol + "/",
                d.(version := "", headers := []), d.version);
  }

  // ---------------------------------------------------------------- header fields

  lemma ReadLineFeed(text: string, s: Prog)
    requires Scan(BEGIN, text + [CR]) == Scanned(WHEN_CR, s)
    ensures Scan(BEGIN, text + [CR] + [LF]) == Scanned(CR_LF, s)
  {
    ReadChar(text + [CR], Scanned(WHEN_CR, s), LF);
  }

  lemma ReadHeaderKey(text: string, d: Doc, key: string)
    requires Scan(BEGIN, text) == Scanned(CR_LF, Prog(d, NO_HEADER)) && HeaderKeyOk(key)
    ensures Scan(BEGIN, text + key) == Scanned(HEADER_KEY, Prog(d, Header(Pair(key, ""), "", "")))
  {
    ReadPiece(text, CR_LF, HEADER_KEY, Prog(d, NO_HEADER), key);
  }

  /** The blanks before the colon, and the colon. */
  lemma ScanColon(text: string, d: Doc, key: string, before: string)
    requires Scan(BEGIN, text) == Scanned(HEADER_KEY, Prog(d, Header(Pair(key, ""), "", ""))) && Blanks(before)
    ensures Scan(BEGIN, text + before + ":") == Scanned(HEADER_AFTER_COLON, Prog(d, Header(Pair(key, ""), before, "")))
  {
    var s := Prog(d, Header(Pair(key, ""), "", ""));
    if before == "" {
      assert text + before == text;
      ReadChar(text, Scanned(HEADER_KEY, s), ':');
    } else {
      ReadPiece(text, HEADER_KEY, HEADER_BEFORE_COLON, s, before);
      ReadChar(text + before, Scanned(HEADER_BEFORE_COLON, Prog(d, Header(Pair(key, ""), before, ""))), ':');
    }
  }

  lemma ReadAfterColon(text: string, d: Doc, key: string, before: string, after: string)
    requires Scan(BEGIN, text) == Scanned(HEADER_AFTER_COLON, Prog(d, Header(Pair(key, ""), before, "")))
    requires Blanks(after)
    ensures Scan(BEGIN, text + after) == Scanned(HEADER_AFTER_COLON, Prog(d, Header(Pair(key, ""), before, after)))
  {
    var s := Prog(d, Header(Pair(key, ""), before, ""));
    Feed(HEADER_AFTER_COLON, s, after);
    Then(text, Scanned(HEADER_AFTER_COLON, s),
         after, Scanned(HEADER_AFTER_COLON, Prog(d, Header(Pair(key, ""), before, after))));
  }

  lemma ReadHeaderValue(text: string, d: Doc, h: Header)
    requires Scan(BEGIN, text) == Scanned(HEADER_AFTER_COLON, Prog(d, Header(Pair(h.pair.key, ""), h.before, h.after)))
    requires HeaderValueOk(h.pair.value)
    ensures Scan(BEGIN, text + h.pair.value) == Scanned(HEADER_VALUE, Prog(d, h))
  {
    ReadPiece(text, HEADER_AFTER_COLON, HEADER_VALUE,
              Prog(d, Header(Pair(h.pair.key, ""), h.before, h.after)), h.pair.value);
  }

  lemma ScanHeader(text: string, d: Doc, h: Header)
    requires Scan(BEGIN, text + [CR]) == Scanned(WHEN_CR, Prog(d, NO_HEADER)) && HeaderOk(h)
    ensures Scan(BEGIN, text + [CR] + [LF] + h.pair.key + h.before + ":" + h.after + h.pair.value)
         == Scanned(HEADER_VALUE, Prog(d, h))
  {
    ReadLineFeed(text, Prog(d, NO_HEADER));
    ReadHeaderKey(text + [CR] + [LF], d, h.pair.key);
    ScanColon(text + [CR] + [LF] + h.pair.key, d, h.pair.key, h.before);
    ReadAfterColon(text + [CR] + [LF] + h.pair.key + h.before + ":", d, h.pair.key, h.before, h.after);
    ReadHeaderValue(text + [CR] + [LF] + h.pair.key + h.before + ":" + h.after, d, h);
  }

  lemma {:induction false} ScanHeaders(text: string, d: Doc, hs: seq<Header>)
    requires Scan(BEGIN, text + [CR]) == Scanned(WHEN_CR, Prog(d, NO_HEADER)) && HeadersOk(hs)
    ensures Scan(BEGIN, HeaderLines(text, hs) + [CR])
        == Scanned(WHEN_CR, Prog(d.(headers := d.headers + hs), NO_HEADER))
    decreases |hs|
  {
    if hs == [] {
      assert d.headers + hs == d.headers;
    } else {
      var front, h := hs[..|hs| - 1], hs[|hs| - 1];
      assert hs == front + [h];
      ScanHeaders(text, d, front);
      ScanNextHeader(HeaderLines(text, front), d.(headers := d.headers + front), h);
      assert d.headers + front + [h] == d.headers + hs;
      assert HeaderLines(text, hs) == HeaderLines(HeaderLines(text, front), [h]);
    }
  }

  lemma {:induction false} ScanNextHeader(text: string, d: Doc, h: Header)
    requires Scan(BEGIN, text + [CR]) == Scanned(WHEN_CR, Prog(d, NO_HEADER)) && HeaderOk(h)
    ensures Scan(BEGIN, HeaderLines(text, [h]) + [CR])
        == Scanned(WHEN_CR, Prog(d.(headers := d.headers + [h]), NO_HEADER))
  {
    assert [h][..|[h]| - 1] == [] && HeaderLines(text, []) == text;
    ScanHeader(text, d, h);
    ReadChar(HeaderLines(text, [h]), Scanned(HEADER_VALUE, Prog(d, h)), CR);
  }

  /** Everything up to the last CR of a printed document. */
  function AllButLast(d: Doc): string {
    HeaderLines(Line(d), d.headers) + [CR] + [LF] + [CR]
  }

  lemma {:induction false} ScanEnd(text: string, s: Prog)
    requires Scan(BEGIN, text + [CR]) == Scanned(WHEN_CR, s)
    ensures Scan(BEGIN, text + [CR] + [LF] + [CR]) == Scanned(CR_LF_CR, s)
  {
    ReadLineFeed(text, s);
    ReadChar(text + [CR] + [LF], Scanned(CR_LF, s), CR);
  }

  /** The CR behind the request line and the header fields. */
  lemma {:induction false} ScanLines(d: Doc)
    requires DocOk(d)
    ensures Scan(BEGIN, HeaderLines(Line(d), d.headers) + [CR]) == Scanned(WHEN_CR, Prog(d, NO_HEADER))
  {
    var d0 := d.(headers := []);
    ScanLine(d);
    ReadLineEnd(Line(d), d0);
    ScanHeaders(Line(d), d0, d.headers);
    assert d0.headers + d.headers == d.headers && d0.(headers := d.headers) == d;
  }

  lemma {:induction false} ScanPrinted(d: Doc)
    requires DocOk(d)
    ensures Scan(BEGIN, AllButLast(d)) == Scanned(CR_LF_CR, Prog(d, NO_HEADER))
  {
    ScanLines(d);
    ScanEnd(HeaderLines(Line(d), d.headers), Prog(d, NO_HEADER));
  }

  lemma ReadLineEnd(text: string, d: Doc)
    requires Scan(BEGIN, text) == Scanned(VERSION, Prog(d, NO_HEADER))
    ensures Scan(BEGIN, text + [CR]) == Scanned(WHEN_CR, Prog(d, NO_HEADER))
  {
    ReadChar(text, Scanned(VERSION, Prog(d, NO_HEADER)), CR);
  }

  // ---------------------------------------------------------------- main results

  /** `text` is exactly a header section: one call leaves CR_LF_CR on its last character, an LF. */
  ghost predicate Accepts(text: string) {
    && text != "" && text[|text| - 1] == LF
    && var r := Call(text[..|text| - 1], FRESH); !r.fault && r.req.state == CR_LF_CR && r.req.nextPos == |text| - 1
  }

  /** Round trip: a printed document is accepted as a whole, with exactly its fields. */
  lemma {:induction false} PrintThenParse(d: Doc)
    requires DocOk(d)
    ensures Accepts(Print(d))
    ensures var r := Call(Print(d), FRESH);
      !r.fault && r.req == Request(AtBlankLine(FieldsOf(d).headers), |Print(d)|, FieldsOf(d))
  {
    ScanPrinted(d);
    LastLineFeed(AllButLast(d), d);
    assert Print(d)[..|Print(d)| - 1] == AllButLast(d);
  }

  /** The LF that ends a header section. */
  lemma LastLineFeed(front: string, d: Doc)
    requires Scan(BEGIN, front) == Scanned(CR_LF_CR, Prog(d, NO_HEADER))
    ensures var r := Call(front, FRESH); !r.fault && r.req.state == CR_LF_CR && r.req.nextPos == |front|
    ensures var r := Call(front + [LF], FRESH);
      !r.fault && r.req == Request(AtBlankLine(FieldsOf(d).headers), |front + [LF]|, FieldsOf(d))
  {
    CallAgrees(front);
    CallSnoc(front, LF);
  }

  /** The same with more in the buffer: the character after the blank line only closes a request
      that asks for a body. */
  lemma {:induction false} PrintThenParseMore(d: Doc, rest: string)
    requires DocOk(d) && rest != ""
    ensures var r := Call(Print(d) + rest, FRESH);
      && !r.fault && r.req.state == COMPLETE && r.req.fields == FieldsOf(d)
      && r.req.nextPos == |Print(d)| + if AtBlankLine(FieldsOf(d).headers) == BODY then 1 else 0
  {
    PrintThenParse(d);
    var buf := Print(d) + rest;
    LoopExtends(Print(d), rest, Run(FRESH, NO_TOKENS, false));
    AfterBlankLine(buf, Call(Print(d), FRESH));
  }

  lemma {:induction false} AfterBlankLine(buf: string, r: Run)
    requires !r.fault && r.req.state in {BODY, COMPLETE} && r.req.nextPos < |buf|
    ensures var t := Loop(buf, r);
      && !t.fault && t.req.state == COMPLETE && t.req.fields == r.req.fields
      && t.req.nextPos == r.req.nextPos + if r.req.state == BODY then 1 else 0
  {
    if r.req.state == BODY {
      assert Loop(buf, r) == Loop(buf, Step(buf, r)) == Step(buf, r);
    }
  }

  lemma {:induction false} ScanSoundAlive(text: string)
    requires !Halted(Scan(BEGIN, text).q)
    ensures var t := Scan(BEGIN, text); Ahead(t.q, t.d) && Behind(t.q, t.d) && Text(t.q, t.d) == text
  {
    if text != "" { AliveBefore(text); }
    ScanSound(text);
  }

  lemma DocComplete(p: Prog)
    requires Ahead(CR_LF_CR, p) && Behind(CR_LF_CR, p)
    ensures DocOk(p.doc) && p == Prog(p.doc, NO_HEADER)
  {
  }

  lemma {:induction false} LastText(d: Doc)
    ensures Text(BODY, Prog(d, NO_HEADER)) == Text(CR_LF_CR, Prog(d, NO_HEADER)) + [LF]
  {
    var base := Start8(d);
    assert Text(BODY, Prog(d, NO_HEADER)) == HeaderText(base, BODY, NO_HEADER);
    assert Text(CR_LF_CR, Prog(d, NO_HEADER)) == HeaderText(base, CR_LF_CR, NO_HEADER);
  }

  /** An accepted text, scanned: everything up to the last CR has been understood. */
  lemma {:induction false} AcceptedIsScanned(front: string) returns (d: Doc)
    requires var r := Call(front, FRESH); !r.fault && r.req.state == CR_LF_CR && r.req.nextPos == |front|
    ensures Scan(BEGIN, front) == Scanned(CR_LF_CR, Prog(d, NO_HEADER)) && DocOk(d)
    ensures Text(BODY, Prog(d, NO_HEADER)) == front + [LF]
  {
    NotHalted(front);
    CallAgrees(front);
    ScanSoundAlive(front);
    var s := Scan(BEGIN, front);
    d := s.d.doc;
    DocComplete(s.d);
    LastText(d);
  }

  /** Exactness: whatever one call accepts is the print of a well-formed document, and what it has
      harvested is what that document says. */
  lemma {:induction false} ParseThenPrint(text: string) returns (d: Doc)
    requires Accepts(text)
    ensures DocOk(d) && Print(d) == text
    ensures var r := Call(text, FRESH);
      !r.fault && r.req == Request(AtBlankLine(FieldsOf(d).headers), |text|, FieldsOf(d))
  {
    var front := text[..|text| - 1];
    assert text == front + [LF];
    d := AcceptedIsScanned(front);
    LastLineFeed(front, d);
    TextIsPrint(d);
  }

  lemma TextIsPrint(d: Doc)
    ensures Text(BODY, Prog(d, NO_HEADER)) == Print(d)
  {
  }

  /** A text after which the parser is still at work meets no verdict and no blank line. */
  lemma {:induction false} NotHalted(front: string)
    requires !Halted(Call(front, FRESH).req.state)
    ensures !Halted(Scan(BEGIN, front).q)
  {
    if Halted(Scan(BEGIN, front).q) {
      var k := FirstHalt(front);
      var rest := front[k..];
      assert front == front[..k] + rest && front[..k] == front[..k - 1] + [front[k - 1]];
      CallAgrees(front[..k - 1]);
      CallSnoc(front[..k - 1], front[k - 1]);
      LoopExtends(front[..k], rest, Run(FRESH, NO_TOKENS, false));
      ScanSnoc(BEGIN, front[..k - 1], front[k - 1]);
      StaysHalted(front, Call(front[..k], FRESH));
    }
  }

  lemma {:induction false} FirstHalt(front: string) returns (k: nat)
    requires Halted(Scan(BEGIN, front).q)
    ensures 1 <= k <= |front| && Halted(Scan(BEGIN, front[..k]).q) && !Halted(Scan(BEGIN, front[..k - 1]).q)
    decreases |front|
  {
    assert front != "";
    var shorter := front[..|front| - 1];
    if Halted(Scan(BEGIN, shorter).q) {
      k := FirstHalt(shorter);
      assert shorter[..k] == front[..k] && shorter[..k - 1] == front[..k - 1];
    } else {
      k := |front|;
      assert front[..k] == front;
    }
  }

  lemma {:induction false} StaysHalted(buf: string, r: Run)
    requires Halted(r.req.state)
    ensures Halted(Loop(buf, r).req.state)
    decreases |buf| - r.req.nextPos
  {
    if !Stopped(buf, r) { StaysHalted(buf, Step(buf, r)); }
  }

  /** The accepted texts are exactly the prints of well-formed documents. */
  lemma {:induction false} AcceptsIff(text: string)
    ensures Accepts(text) <==> exists d :: DocOk(d) && Print(d) == text
  {
    if Accepts(text) {
      var d := ParseThenPrint(text);
    }
    if exists d :: DocOk(d) && Print(d) == text {
      var d :| DocOk(d) && Print(d) == text;
      PrintThenParse(d);
    }
  }

  /** No text is the print of two well-formed documents, so the harvest is determined by the text. */
  lemma {:induction false} PrintInjective(d: Doc, e: Doc)
    requires DocOk(d) && DocOk(e) && Print(d) == Print(e)
    ensures d == e
  {
    assert Print(d) == AllButLast(d) + [LF] && Print(e) == AllButLast(e) + [LF];
    assert AllButLast(d) == Print(d)[..|Print(d)| - 1];
    assert AllButLast(e) == Print(e)[..|Print(e)| - 1];
    ScanPrinted(d);
    ScanPrinted(e);
  }
}
