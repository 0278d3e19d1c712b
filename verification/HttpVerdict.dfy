/** What the parser answers to a text, said without the parser: from the pieces a request is made of. */
module HttpVerdict {
  import opened HttpModel
  import opened HttpGrammar
  import opened HttpLength
  import opened HttpScan
  import opened HttpTokens
  import opened HttpExact
  import opened HttpResume
  import opened HttpRoundTrip

  // ---------------------------------------------------------------- where a request goes wrong

  /** The text starts with `front` and goes on with a character of the given kind. */
  predicate GoesOn(text: string, front: string, kind: char -> bool) {
    |front| < |text| && text[..|front|] == front && kind(text[|front|])
  }

  predicate IsBreak(ch: char) { ch == CR || ch == LF || IsBlank(ch) }
  predicate NotStart(ch: char) { !IsBreak(ch) && !IsUpper(ch) }
  predicate NotMethod(ch: char) { !IsUpper(ch) && !IsBlank(ch) }
  predicate NotSlash(ch: char) { ch != '/' && !IsBlank(ch) }
  predicate NotDigit(ch: char) { !IsDigit(ch) }
  predicate NotVersion(ch: char) { !IsDigit(ch) && ch != '.' && ch != CR }
  predicate NotLineFeed(ch: char) { ch != LF }
  predicate NotColon(ch: char) { ch != ':' && !IsBlank(ch) }

  /** After the leading blanks and line ends, something that is no upper-case letter. */
  predicate StartBreaks(d: Doc, text: string) {
    LeadOk(d.lead) && GoesOn(text, d.lead, NotStart)
  }

  /** After the upper-case letters of the method, something that is no blank. */
  predicate MethodBreaks(d: Doc, text: string) {
    LeadOk(d.lead) && VerbOk(d.verb) && GoesOn(text, d.lead + d.verb, NotMethod)
  }

  /** After the method and its blanks, something that is no slash. */
  predicate UrlBreaks(d: Doc, text: string) {
    && LeadOk(d.lead) && VerbOk(d.verb) && d.gap1 != "" && Blanks(d.gap1)
    && GoesOn(text, d.lead + d.verb + d.gap1, NotSlash)
  }

  /** A parameter whose key or value is empty, or whose key is cut off by a blank. */
  predicate ParamsBreak(d: Doc, key: string, text: string) {
    && ToUrlOk(d) && PairsOk(d.params)
    && var base := Pairs(d.lead + d.verb + d.gap1 + d.url + "?", d.params);
       || GoesOn(text, base, IsBreak)
       || (KeyOk(key) && (GoesOn(text, base + key, IsBlank) || GoesOn(text, base + key + "=", IsBreak)))
  }

  /** After the slash that follows the protocol, something else than digits with single points between. */
  predicate VersionBreaks(d: Doc, text: string) {
    && ToSlashOk(d)
    && var base := Query(d.lead + d.verb + d.gap1 + d.url, d.params) + d.gap2 + d.protocol + "/";
       || GoesOn(text, base, NotDigit)
       || (VersionOk(d.version) &&
           (|| GoesOn(text, base + d.version, NotVersion)
            || GoesOn(text, base + d.version + ".", NotDigit)))
  }

  /** After the request line or a header field, a CR without LF, or a line that starts with a blank. */
  predicate LineEndBreaks(d: Doc, text: string) {
    && DocOk(d)
    && (|| GoesOn(text, HeaderLines(Line(d), d.headers) + [CR], NotLineFeed)
        || GoesOn(text, HeaderLines(Line(d), d.headers) + [CR] + [LF], IsBlank))
  }

  /** A header key with blanks behind it and then no colon, or a last line with a CR without LF. */
  predicate HeaderBreaks(d: Doc, key: string, before: string, text: string) {
    && DocOk(d)
    && (|| GoesOn(text, HeaderLines(Line(d), d.headers) + [CR] + [LF] + [CR], NotLineFeed)
        || (HeaderKeyOk(key) && before != "" && Blanks(before) &&
            GoesOn(text, HeaderLines(Line(d), d.headers) + [CR] + [LF] + key + before,
                   NotColon)))
  }

  // ---------------------------------------------------------------- the verdicts

  predicate IsRequest(d: Doc, rest: string, text: string) {
    DocOk(d) && text == Print(d) + rest
  }

  /** What each of the parser's final states says about the text, and that the others say: more is to come. */
  ghost predicate Says(q: DecodeState, text: string) {
    match q
    case INVALID_METHOD => exists d :: MethodBreaks(d, text)
    case INVALID_URI => exists d, key :: ParamsBreak(d, key, text)
    case INVALID_VERSION => exists d :: VersionBreaks(d, text)
    case INVALID_HEADER => exists d, key, before :: HeaderBreaks(d, key, before, text)
    case INVALID => exists d :: StartBreaks(d, text) || UrlBreaks(d, text) || LineEndBreaks(d, text)
    case BODY => exists d :: IsRequest(d, "", text) && WantsBody(d.headers)
    case COMPLETE => exists d, rest :: IsRequest(d, rest, text) && (rest != "" || !WantsBody(d.headers))
    case _ => exists d, rest :: IsRequest(d, "", text + rest) && rest != ""
  }

  // ---------------------------------------------------------------- the scan finds the breaks

  /** The character behind an understood beginning that decides. */
  lemma {:induction false} BreakDecides(text: string, front: string, kind: char -> bool)
    requires GoesOn(text, front, kind) && !Halted(Scan(BEGIN, front).q)
    requires Terminal(Goto(Scan(BEGIN, front).q, text[|front|]))
    ensures Scan(BEGIN, text).q == Goto(Scan(BEGIN, front).q, text[|front|])
  {
    var ch := text[|front|];
    ScanSnoc(BEGIN, front, ch);
    ScanConcat(BEGIN, front + [ch], text[|front| + 1..]);
    assert text == front + [ch] + text[|front| + 1..];
  }

  lemma {:induction false} MethodFound(d: Doc, text: string)
    requires MethodBreaks(d, text)
    ensures Scan(BEGIN, text).q == INVALID_METHOD
  {
    ScanToGap(d.lead, d.verb, " ");
    BreakDecides(text, d.lead + d.verb, NotMethod);
  }

  lemma {:induction false} StartFound(d: Doc, text: string)
    requires StartBreaks(d, text)
    ensures Scan(BEGIN, text).q == INVALID
  {
    ReadLead(d.lead);
    BreakDecides(text, d.lead, NotStart);
  }

  lemma {:induction false} UrlFound(d: Doc, text: string)
    requires UrlBreaks(d, text)
    ensures Scan(BEGIN, text).q == INVALID
  {
    ScanToGap(d.lead, d.verb, d.gap1);
    BreakDecides(text, d.lead + d.verb + d.gap1, NotSlash);
  }

  lemma {:induction false} ScanToParam(d: Doc)
    requires ToUrlOk(d) && PairsOk(d.params)
    ensures Scan(BEGIN, Pairs(d.lead + d.verb + d.gap1 + d.url + "?", d.params))
         == Scanned(BEFORE_URI_PARAM_KEY, Prog(UrlOnly(d).(params := d.params), NO_HEADER))
  {
    var url := d.lead + d.verb + d.gap1 + d.url;
    ScanToUrl(d);
    ReadChar(url, Scanned(IN_URI, Prog(UrlOnly(d), NO_HEADER)), '?');
    ScanPairs(url + "?", UrlOnly(d), d.params);
    assert UrlOnly(d).params + d.params == d.params;
  }

  lemma {:induction false} KeyFound(text: string, base: string, d: Doc, key: string)
    requires Scan(BEGIN, base) == Scanned(BEFORE_URI_PARAM_KEY, Prog(d, NO_HEADER)) && KeyOk(key)
    requires GoesOn(text, base + key, IsBlank) || GoesOn(text, base + key + "=", IsBreak)
    ensures Scan(BEGIN, text).q == INVALID_URI
  {
    ReadKey(base, d, key);
    if GoesOn(text, base + key, IsBlank) {
      BreakDecides(text, base + key, IsBlank);
    } else {
      ReadChar(base + key, Scanned(URI_PARAM_KEY, Prog(d, Header(Pair(key, ""), "", ""))), '=');
      BreakDecides(text, base + key + "=", IsBreak);
    }
  }

  lemma {:induction false} ParamsFound(d: Doc, key: string, text: string)
    requires ParamsBreak(d, key, text)
    ensures Scan(BEGIN, text).q == INVALID_URI
  {
    var base := Pairs(d.lead + d.verb + d.gap1 + d.url + "?", d.params);
    ScanToParam(d);
    if GoesOn(text, base, IsBreak) {
      BreakDecides(text, base, IsBreak);
    } else {
      KeyFound(text, base, UrlOnly(d).(params := d.params), key);
    }
  }

  lemma {:induction false} PointFound(text: string, base: string, d: Doc, version: string)
    requires Scan(BEGIN, base) == Scanned(BEFORE_VERSION, Prog(d, NO_HEADER)) && d.version == "" && VersionOk(version)
    requires GoesOn(text, base + version, NotVersion) || GoesOn(text, base + version + ".", NotDigit)
    ensures Scan(BEGIN, text).q == INVALID_VERSION
  {
    ReadVersion(base, d, version);
    if GoesOn(text, base + version, NotVersion) {
      BreakDecides(text, base + version, NotVersion);
    } else {
      ReadChar(base + version, Scanned(VERSION, Prog(d.(version := version), NO_HEADER)), '.');
      BreakDecides(text, base + version + ".", NotDigit);
    }
  }

  lemma {:induction false} VersionFound(d: Doc, text: string)
    requires VersionBreaks(d, text)
    ensures Scan(BEGIN, text).q == INVALID_VERSION
  {
    var base := Query(d.lead + d.verb + d.gap1 + d.url, d.params) + d.gap2 + d.protocol + "/";
    ScanToSlash(d);
    if GoesOn(text, base, NotDigit) {
      BreakDecides(text, base, NotDigit);
    } else {
      PointFound(text, base, d.(version := "", headers := []), d.version);
    }
  }

  lemma {:induction false} LineEndFound(d: Doc, text: string)
    requires LineEndBreaks(d, text)
    ensures Scan(BEGIN, text).q == INVALID
  {
    ScanLines(d);
    AfterCr(text, HeaderLines(Line(d), d.headers), d);
  }

  lemma {:induction false} AfterCr(text: string, lines: string, d: Doc)
    requires Scan(BEGIN, lines + [CR]) == Scanned(WHEN_CR, Prog(d, NO_HEADER))
    requires GoesOn(text, lines + [CR], NotLineFeed) || GoesOn(text, lines + [CR] + [LF], IsBlank)
    ensures Scan(BEGIN, text).q == INVALID
  {
    if GoesOn(text, lines + [CR], NotLineFeed) {
      BreakDecides(text, lines + [CR], NotLineFeed);
    } else {
      ReadLineFeed(lines, Prog(d, NO_HEADER));
      BreakDecides(text, lines + [CR] + [LF], IsBlank);
    }
  }

  lemma {:induction false} AfterHeaderKey(text: string, line: string, d: Doc, key: string, before: string)
    requires Scan(BEGIN, line) == Scanned(CR_LF, Prog(d, NO_HEADER))
    requires HeaderKeyOk(key) && before != "" && Blanks(before) && GoesOn(text, line + key + before, NotColon)
    ensures Scan(BEGIN, text).q == INVALID_HEADER
  {
    ReadHeaderKey(line, d, key);
    var s := Prog(d, Header(Pair(key, ""), "", ""));
    ReadPiece(line + key, HEADER_KEY, HEADER_BEFORE_COLON, s, before);
    BreakDecides(text, line + key + before, NotColon);
  }

  lemma {:induction false} HeaderFound(d: Doc, key: string, before: string, text: string)
    requires HeaderBreaks(d, key, before, text)
    ensures Scan(BEGIN, text).q == INVALID_HEADER
  {
    hide DocOk, Line, HeaderLines;
    var lines := HeaderLines(Line(d), d.headers);
    ScanLines(d);
    if GoesOn(text, lines + [CR] + [LF] + [CR], NotLineFeed) {
      ScanEnd(lines, Prog(d, NO_HEADER));
      BreakDecides(text, lines + [CR] + [LF] + [CR], NotLineFeed);
    } else {
      ReadLineFeed(lines, Prog(d, NO_HEADER));
      AfterHeaderKey(text, lines + [CR] + [LF], d, key, before);
    }
  }

  // ---------------------------------------------------------------- and nothing else

  /** The place where the scan of a text comes to its verdict. */
  lemma {:induction false} BreakPoint(text: string) returns (front: string, ch: char, p: Prog)
    requires Halted(Scan(BEGIN, text).q)
    ensures |front| < |text| && front == text[..|front|] && ch == text[|front|]
    ensures var q := Scan(BEGIN, front).q;
      && !Halted(q) && Scan(BEGIN, front) == Scanned(q, p) && Goto(q, ch) == Scan(BEGIN, text).q
      && Ahead(q, p) && Behind(q, p) && Text(q, p) == front
  {
    var k := FirstHalt(text);
    front, ch := text[..k - 1], text[k - 1];
    p := Scan(BEGIN, front).d;
    ScanSoundAlive(front);
    ScanSnoc(BEGIN, front, ch);
    ScanConcat(BEGIN, front + [ch], text[k..]);
    assert front + [ch] == text[..k] && text == front + [ch] + text[k..];
  }

  lemma LinesText(p: Prog)
    ensures Start8(p.doc) == HeaderLines(Line(p.doc), p.doc.headers)
  {
  }

  lemma {:induction false} SaysEarly(text: string, front: string, q: DecodeState, p: Prog)
    requires q in {START, METHOD, BEFORE_URI} && Ahead(q, p) && Behind(q, p) && Text(q, p) == front
    requires |front| < |text| && front == text[..|front|] && Terminal(Goto(q, text[|front|]))
    ensures Says(Goto(q, text[|front|]), text)
  {
    if q == START { assert StartBreaks(p.doc, text); }
    else if q == METHOD { assert MethodBreaks(p.doc, text); }
    else { assert UrlBreaks(p.doc, text); }
  }

  lemma {:induction false} SaysParams(text: string, front: string, q: DecodeState, p: Prog)
    requires q in {BEFORE_URI_PARAM_KEY, URI_PARAM_KEY, BEFORE_URI_PARAM_VALUE}
    requires Ahead(q, p) && Behind(q, p) && Text(q, p) == front
    requires |front| < |text| && front == text[..|front|] && Terminal(Goto(q, text[|front|]))
    ensures Says(Goto(q, text[|front|]), text)
  {
    assert ParamsBreak(p.doc, p.cur.pair.key, text);
  }

  lemma {:induction false} SaysVersion(text: string, front: string, q: DecodeState, p: Prog)
    requires q in {BEFORE_VERSION, VERSION, VERSION_SPLIT}
    requires Ahead(q, p) && Behind(q, p) && Text(q, p) == front
    requires |front| < |text| && front == text[..|front|] && Terminal(Goto(q, text[|front|]))
    ensures Says(Goto(q, text[|front|]), text)
  {
    var d := p.doc;
    if q == VERSION_SPLIT {
      d := d.(version := p.doc.version[..|p.doc.version| - 1]);
      assert p.doc.version == d.version + ".";
      assert Start7(p.doc) == Start6(d) + "/" + d.version + ".";
    }
    assert VersionBreaks(d, text);
  }

  lemma {:induction false} SaysLineEnd(text: string, front: string, q: DecodeState, p: Prog)
    requires q in {WHEN_CR, CR_LF} && Ahead(q, p) && Behind(q, p) && Text(q, p) == front
    requires |front| < |text| && front == text[..|front|] && Terminal(Goto(q, text[|front|]))
    ensures Says(Goto(q, text[|front|]), text)
  {
    LinesText(p);
    TextIsHeaderText(q, p);
    hide Text, HeaderLines, Line, Start8;
    assert LineEndBreaks(p.doc, text);
  }

  lemma {:induction false} SaysHeader(text: string, front: string, q: DecodeState, p: Prog)
    requires q in {CR_LF_CR, HEADER_BEFORE_COLON} && Ahead(q, p) && Behind(q, p) && Text(q, p) == front
    requires |front| < |text| && front == text[..|front|] && Terminal(Goto(q, text[|front|]))
    ensures Says(Goto(q, text[|front|]), text)
  {
    LinesText(p);
    TextIsHeaderText(q, p);
    hide Text, HeaderLines, Line, Start8;
    assert HeaderBreaks(p.doc, p.cur.pair.key, p.cur.before, text);
  }

  /** The states in which a character can be wrong. */
  lemma BreakingStates(q: DecodeState, ch: char)
    requires !Halted(q) && Terminal(Goto(q, ch))
    ensures Goto(q, ch) != COMPLETE
    ensures q in {START, METHOD, BEFORE_URI, BEFORE_URI_PARAM_KEY, URI_PARAM_KEY, BEFORE_URI_PARAM_VALUE,
                  BEFORE_VERSION, VERSION, VERSION_SPLIT, WHEN_CR, CR_LF, CR_LF_CR, HEADER_BEFORE_COLON}
  {
  }

  /** A text whose scan ends in an error breaks where that error says. */
  lemma {:induction false} ErrorSays(text: string)
    requires Terminal(Scan(BEGIN, text).q)
    ensures Says(Scan(BEGIN, text).q, text) && Scan(BEGIN, text).q != COMPLETE
  {
    hide Says, Goto, Ahead, Behind, Text;
    var front, ch, p := BreakPoint(text);
    var q := Scan(BEGIN, front).q;
    BreakingStates(q, ch);
    if q in {START, METHOD, BEFORE_URI} { SaysEarly(text, front, q, p); }
    else if q in {BEFORE_URI_PARAM_KEY, URI_PARAM_KEY, BEFORE_URI_PARAM_VALUE} { SaysParams(text, front, q, p); }
    else if q in {BEFORE_VERSION, VERSION, VERSION_SPLIT} { SaysVersion(text, front, q, p); }
    else if q in {WHEN_CR, CR_LF} { SaysLineEnd(text, front, q, p); }
    else { SaysHeader(text, front, q, p); }
  }

  // ---------------------------------------------------------------- requests, whole and begun

  lemma PrintText(d: Doc)
    ensures Print(d) == AllButLast(d) + [LF]
  {
  }

  lemma {:induction false} BlankLineFound(text: string) returns (d: Doc, rest: string)
    requires Scan(BEGIN, text).q == BODY
    ensures IsRequest(d, rest, text)
  {
    hide Print, Text, Behind, Ahead, Track, DocOk;
    var front, ch, p := BreakPoint(text);
    d, rest := p.doc, text[|front| + 1..];
    assert Scan(BEGIN, front).q == CR_LF_CR && ch == LF;
    DocComplete(p);
    LastText(d);
    TextIsPrint(d);
    assert text == front + [LF] + rest;
  }

  lemma {:induction false} RequestScanned(d: Doc, rest: string, text: string)
    requires IsRequest(d, rest, text)
    ensures Scan(BEGIN, text).q == BODY
  {
    hide DocOk, Print, AllButLast;
    ScanPrinted(d);
    PrintText(d);
    ScanSnoc(BEGIN, AllButLast(d), LF);
    ScanConcat(BEGIN, Print(d), rest);
  }

  /** The scan of a text stops at a blank line exactly if a printed document stands at its beginning. */
  lemma {:induction false} BlankLineIff(text: string)
    ensures Scan(BEGIN, text).q == BODY <==> exists d, rest :: IsRequest(d, rest, text)
  {
    hide IsRequest;
    if Scan(BEGIN, text).q == BODY { var d, rest := BlankLineFound(text); }
    if d, rest :| IsRequest(d, rest, text) { RequestScanned(d, rest, text); }
  }

  /** A character that brings a state nearer to the blank line. */
  function Onward(q: DecodeState): char {
    match q
    case START => 'G'
    case METHOD => ' '
    case IN_URI => ' '
    case BEFORE_URI => '/'
    case URI_PARAM_KEY => '='
    case URI_PARAM_VALUE => ' '
    case PROTOCOL => '/'
    case BEFORE_VERSION => '1'
    case VERSION_SPLIT => '1'
    case VERSION => CR
    case HEADER_KEY => ':'
    case HEADER_BEFORE_COLON => ':'
    case HEADER_VALUE => CR
    case WHEN_CR => LF
    case CR_LF => CR
    case CR_LF_CR => LF
    case _ => 'x'
  }

  /** How many such characters it takes. */
  function Distance(q: DecodeState): nat {
    match q
    case START => 13
    case METHOD => 12
    case BEFORE_URI => 11
    case BEFORE_URI_PARAM_KEY => 13
    case URI_PARAM_KEY => 12
    case BEFORE_URI_PARAM_VALUE => 11
    case URI_PARAM_VALUE => 10
    case IN_URI => 10
    case BEFORE_PROTOCOL => 9
    case PROTOCOL => 8
    case BEFORE_VERSION => 7
    case VERSION_SPLIT => 7
    case HEADER_KEY => 8
    case HEADER_BEFORE_COLON => 8
    case HEADER_AFTER_COLON => 7
    case HEADER_VALUE => 6
    case VERSION => 5
    case WHEN_CR => 4
    case CR_LF => 3
    case CR_LF_CR => 2
    case _ => 0
  }

  lemma OnwardIsNearer(q: DecodeState)
    requires !Halted(q)
    ensures Distance(Goto(q, Onward(q))) < Distance(q) && !Terminal(Goto(q, Onward(q)))
  {
  }

  lemma {:induction false} CanFinish(s: Scanned) returns (rest: string)
    requires !Halted(s.q)
    ensures rest != "" && Scan(s, rest).q == BODY
    decreases Distance(s.q)
  {
    var ch := Onward(s.q);
    OnwardIsNearer(s.q);
    One(s, ch);
    var next := Scan(s, [ch]);
    if next.q == BODY {
      rest := [ch];
    } else {
      var more := CanFinish(next);
      ScanConcat(s, [ch], more);
      rest := [ch] + more;
    }
  }

  /** The scan of a text is not at its end exactly if the text is a proper beginning of a printed
      document. */
  lemma {:induction false} BegunIff(text: string)
    ensures !Halted(Scan(BEGIN, text).q) <==> exists d, rest :: IsRequest(d, "", text + rest) && rest != ""
  {
    hide IsRequest;
    if !Halted(Scan(BEGIN, text).q) {
      var rest := CanFinish(Scan(BEGIN, text));
      ScanConcat(BEGIN, text, rest);
      var d, after := BlankLineFound(text + rest);
      Shorten(text, rest, d, after);
    }
    if d, rest :| IsRequest(d, "", text + rest) && rest != "" { BegunIsOpen(text, d, rest); }
  }

  lemma {:induction false} BegunIsOpen(text: string, d: Doc, rest: string)
    requires IsRequest(d, "", text + rest) && rest != ""
    ensures !Halted(Scan(BEGIN, text).q)
  {
    hide DocOk, Print, AllButLast;
    ScanPrinted(d);
    PrintText(d);
    var more := rest[..|rest| - 1];
    assert text + more == (text + rest)[..|text + rest| - 1] == AllButLast(d);
    ScanConcat(BEGIN, text, more);
  }

  lemma {:induction false} Shorten(text: string, rest: string, d: Doc, after: string)
    requires !Halted(Scan(BEGIN, text).q) && IsRequest(d, after, text + rest)
    ensures exists rest' :: IsRequest(d, "", text + rest') && rest' != ""
  {
    if |Print(d)| <= |text| {
      assert text == Print(d) + text[|Print(d)|..] by {
        assert (text + rest)[..|text|] == text;
      }
      assert IsRequest(d, text[|Print(d)|..], text);
      BlankLineIff(text);
    } else {
      var shorter := Print(d)[|text|..];
      assert text + shorter == Print(d) by {
        assert Print(d)[..|text|] == (text + rest)[..|text|] == text;
      }
      assert text + shorter == Print(d) + "";
      assert IsRequest(d, "", text + shorter);
    }
  }

  // ---------------------------------------------------------------- main results

  /** One call after any text: the state of the scan, unless the scan has met the blank line. */
  lemma {:induction false} CallScan(text: string)
    requires Scan(BEGIN, text).q != BODY
    ensures Call(text, FRESH).req.state == Scan(BEGIN, text).q
  {
    if Halted(Scan(BEGIN, text).q) {
      var k := FirstHalt(text);
      var front, ch, rest := text[..k - 1], text[k - 1], text[k..];
      assert front + [ch] == text[..k] && text == front + [ch] + rest;
      CallAgrees(front);
      CallSnoc(front, ch);
      ScanSnoc(BEGIN, front, ch);
      ScanConcat(BEGIN, front + [ch], rest);
      LoopExtends(front + [ch], rest, Run(FRESH, NO_TOKENS, false));
    } else {
      CallAgrees(text);
    }
  }

  lemma {:induction false} CallRequest(d: Doc, rest: string, text: string)
    requires IsRequest(d, rest, text)
    ensures var r := Call(text, FRESH).req;
      && r.state == (if rest == "" && WantsBody(d.headers) then BODY else COMPLETE) && r.fields == FieldsOf(d)
      && r.nextPos == |Print(d)| + if rest != "" && WantsBody(d.headers) then 1 else 0
  {
    BodyIff(d.headers);
    if rest == "" {
      PrintThenParse(d);
      assert Print(d) + rest == Print(d);
    } else {
      PrintThenParseMore(d, rest);
    }
  }

  /** The value of the first pair with the key. */
  predicate HasFirst(ps: seq<Pair>, key: string, value: string) {
    exists i :: 0 <= i < |ps| && ps[i] == Pair(key, value) && forall j :: 0 <= j < i ==> ps[j].key != key
  }

  lemma {:induction false} FirstWinsHas(ps: seq<Pair>, key: string, value: string)
    ensures key in FirstWins(ps) && FirstWins(ps)[key] == value <==> HasFirst(ps, key, value)
  {
    FirstWinsIsFirst(ps, key);
    if key in FirstWins(ps) {
      var n :| 0 <= n < |ps| && ps[n].key == key;
      var i := 0;
      while ps[i].key != key
        invariant i <= n
        invariant forall j :: 0 <= j < i ==> ps[j].key != key
        decreases n - i
      {
        i := i + 1;
      }
      assert FirstWins(ps)[key] == ps[i].value;
      assert ps[i] == Pair(key, ps[i].value);
      if k :| 0 <= k < |ps| && ps[k] == Pair(key, value) && forall j :: 0 <= j < k ==> ps[j].key != key {
        assert ps[k].key == key && k == i;
      }
    }
  }

  /** What one call has taken from a request, piece by piece. */
  lemma {:induction false} RequestFields(d: Doc, rest: string, text: string, key: string, value: string)
    requires IsRequest(d, rest, text)
    ensures var f := Call(text, FRESH).req.fields;
      && f.verb == d.verb && f.url == d.url && f.protocol == d.protocol && f.version == d.version
      && (key in f.params && f.params[key] == value <==> HasFirst(d.params, key, value))
      && (key in f.headers && f.headers[key] == value <==> HasFirst(HeaderPairs(d.headers), key, value))
  {
    CallRequest(d, rest, text);
    FirstWinsHas(d.params, key, value);
    FirstWinsHas(HeaderPairs(d.headers), key, value);
  }

  /** Every verdict that stands in the text is the scan's. */
  lemma {:induction false} SaidIsFound(v: DecodeState, text: string)
    requires Terminal(v) && v != COMPLETE && Says(v, text)
    ensures Scan(BEGIN, text).q == v
  {
    match v
    case INVALID_METHOD => var d :| MethodBreaks(d, text); MethodFound(d, text);
    case INVALID_URI => var d, key :| ParamsBreak(d, key, text); ParamsFound(d, key, text);
    case INVALID_VERSION => var d :| VersionBreaks(d, text); VersionFound(d, text);
    case INVALID_HEADER =>
      var d, key, before :| HeaderBreaks(d, key, before, text);
      HeaderFound(d, key, before, text);
    case INVALID =>
      var d :| StartBreaks(d, text) || UrlBreaks(d, text) || LineEndBreaks(d, text);
      if StartBreaks(d, text) { StartFound(d, text); }
      else if UrlBreaks(d, text) { UrlFound(d, text); }
      else { LineEndFound(d, text); }
    case _ =>
  }

  /** Whether the scan met the blank line shows in the parser's state. */
  lemma {:induction false} BlankLineShows(text: string)
    ensures var q := Call(text, FRESH).req.state;
      if q in {BODY, COMPLETE} then Scan(BEGIN, text).q == BODY else Scan(BEGIN, text).q == q
  {
    if Scan(BEGIN, text).q == BODY {
      var d, rest := BlankLineFound(text);
      CallRequest(d, rest, text);
    } else {
      CallScan(text);
      if Terminal(Scan(BEGIN, text).q) { ErrorSays(text); }
    }
  }

  /** A request is accepted exactly if a well-formed document stands at the beginning of the text. */
  lemma {:induction false} AcceptedIff(text: string)
    ensures Call(text, FRESH).req.state in {BODY, COMPLETE} <==> exists d, rest :: DocOk(d) && text == Print(d) + rest
  {
    BlankLineShows(text);
    BlankLineIff(text);
    assert forall d, rest :: DocOk(d) && text == Print(d) + rest <==> IsRequest(d, rest, text);
  }

  lemma {:induction false} AcceptedSays(text: string, v: DecodeState)
    requires v in {BODY, COMPLETE}
    ensures Says(v, text) <==> Call(text, FRESH).req.state == v
  {
    hide IsRequest, Call, Scan, WantsBody;
    BlankLineShows(text);
    if Call(text, FRESH).req.state in {BODY, COMPLETE} {
      var d, rest := BlankLineFound(text);
      CallRequest(d, rest, text);
    }
    if Says(v, text) {
      if v == BODY {
        var d :| IsRequest(d, "", text) && WantsBody(d.headers);
        CallRequest(d, "", text);
      } else {
        var d, rest :| IsRequest(d, rest, text) && (rest != "" || !WantsBody(d.headers));
        CallRequest(d, rest, text);
      }
    }
  }

  /** The answer to any text: the parser's state after one call is the one that says what the text is. */
  lemma {:induction false} VerdictIff(text: string, v: DecodeState)
    ensures var q := Call(text, FRESH).req.state;
      Says(v, text) <==> if Halted(v) then q == v else !Halted(q)
  {
    hide IsRequest, Call, Scan, WantsBody, MethodBreaks, ParamsBreak, VersionBreaks, HeaderBreaks;
    hide StartBreaks, UrlBreaks, LineEndBreaks;
    BlankLineShows(text);
    if v in {BODY, COMPLETE} {
      AcceptedSays(text, v);
    } else if Terminal(v) {
      if Says(v, text) { SaidIsFound(v, text); }
      if Scan(BEGIN, text).q == v { ErrorSays(text); }
    } else {
      BegunIff(text);
    }
  }

  /** An error is answered exactly if no continuation makes the text a request, so as early as can be. */
  lemma {:induction false} ErrorIff(text: string)
    ensures Terminal(Call(text, FRESH).req.state) && Call(text, FRESH).req.state != COMPLETE
       <==> forall rest :: Call(text + rest, FRESH).req.state !in {BODY, COMPLETE}
  {
    BlankLineShows(text);
    assert text + "" == text;
    if Halted(Scan(BEGIN, text).q) {
      forall rest | Terminal(Scan(BEGIN, text).q) ensures Call(text + rest, FRESH).req.state !in {BODY, COMPLETE} {
        ScanConcat(BEGIN, text, rest);
        BlankLineShows(text + rest);
      }
    } else {
      var rest := CanFinish(Scan(BEGIN, text));
      ScanConcat(BEGIN, text, rest);
      BlankLineShows(text + rest);
    }
  }

  /** The state `q` is the answer to the text. */
  ghost predicate Answers(q: DecodeState, text: string) {
    forall v :: Says(v, text) <==> if Halted(v) then q == v else !Halted(q)
  }

  lemma {:induction false} CallAnswers(text: string)
    ensures !Call(text, FRESH).fault && Answers(Call(text, FRESH).req.state, text)
  {
    OneCallNeverFaults(text);
    forall v ensures Says(v, text) <==> if Halted(v) then Call(text, FRESH).req.state == v
                                        else !Halted(Call(text, FRESH).req.state)
    {
      VerdictIff(text, v);
    }
  }

  // ---------------------------------------------------------------- what the connection makes of it

  /** Keep on reading, or answer by this state. */
  datatype Reply = Open | Status(state: DecodeState)

  /** The request is answered: with a body to come only for GET or from two characters of it on, else
      as soon as there is any character behind the blank line. */
  ghost predicate Served(d: Doc, rest: string) {
    if WantsBody(d.headers) then 2 <= |rest| || (rest == "" && d.verb == "GET") else rest != ""
  }

  ghost predicate Replies(reply: Reply, text: string) {
    match reply
    case Status(COMPLETE) => exists d, rest :: IsRequest(d, rest, text) && Served(d, rest)
    case Status(v) => Terminal(v) && Says(v, text)
    case Open => Says(START, text) || exists d, rest :: IsRequest(d, rest, text) && !Served(d, rest)
  }

  /** `ParseRead` after the parser has run. */
  function ReplyOf(r: Request, size: nat): Reply {
    if r.nextPos == size && r.state == BODY && r.fields.verb == "GET" then Status(COMPLETE)
    else if r.nextPos == size
         && r.state !in {INVALID_VERSION, INVALID, INVALID_HEADER, INVALID_METHOD, INVALID_URI} then Open
    else Status(r.state)
  }

  lemma {:induction false} ServedReply(text: string, d: Doc, rest: string)
    requires IsRequest(d, rest, text)
    ensures ReplyOf(Call(text, FRESH).req, |text|) == if Served(d, rest) then Status(COMPLETE) else Open
  {
    CallRequest(d, rest, text);
  }

  lemma {:induction false} OpenReply(text: string)
    requires Call(text, FRESH).req.state !in {BODY, COMPLETE}
    ensures var q := Call(text, FRESH).req.state;
      ReplyOf(Call(text, FRESH).req, |text|) == if Halted(q) then Status(q) else Open
  {
    BlankLineShows(text);
    if !Halted(Scan(BEGIN, text).q) { CallAgrees(text); }
  }

  /** The connection's reply to what it has read of a request, in one go. */
  lemma {:induction false} RepliesIff(text: string, reply: Reply)
    ensures Replies(reply, text) <==> reply == ReplyOf(Call(text, FRESH).req, |text|)
  {
    hide IsRequest, Served, Says, ReplyOf, Call, Scan;
    var q := Call(text, FRESH).req.state;
    CallAnswers(text);
    BlankLineShows(text);
    if q in {BODY, COMPLETE} {
      var d, rest := BlankLineFound(text);
      ServedReply(text, d, rest);
    } else {
      OpenReply(text);
    }
    forall d, rest | IsRequest(d, rest, text)
      ensures ReplyOf(Call(text, FRESH).req, |text|) == if Served(d, rest) then Status(COMPLETE) else Open
      ensures q in {BODY, COMPLETE}
    {
      ServedReply(text, d, rest);
      CallRequest(d, rest, text);
    }
  }
}
