/** The request object whose method runs the automaton over the read buffer. */
module HttpRequest {
  import opened Options
  import opened HttpModel
  import opened HttpVerdict

  /** The states up to the end of the URL and its parameters. */
  predicate InUrl(q: DecodeState) {
    q in {START, METHOD, BEFORE_URI, IN_URI,
          BEFORE_URI_PARAM_KEY, URI_PARAM_KEY, BEFORE_URI_PARAM_VALUE, URI_PARAM_VALUE}
  }

  /** The states from there to the end of the request line. */
  predicate InVersion(q: DecodeState) {
    q in {BEFORE_PROTOCOL, PROTOCOL, BEFORE_VERSION, VERSION, VERSION_SPLIT}
  }

  class SHttpRequest {
    var verb: string
    var url: string
    var params: map<string, string>
    var protocol: string
    var version: string
    var headers: map<string, string>
    var nextPos: nat
    var state: DecodeState

    function View(): Request
      reads this
    {
      Request(state, nextPos, Fields(verb, url, params, protocol, version, headers))
    }

    constructor ()
      ensures View() == FRESH
    {
      verb, url, params, protocol, version, headers := "", "", map[], "", "", map[];
      nextPos := 0;
      state := START;
    }

    method Init()
      modifies this
      ensures View() == FRESH
    {
      state := START;
      nextPos := 0;
      headers := map[];
      verb := "";
      protocol := "";
      url := "";
      version := "";
      params := map[];
    }

    /** The parser's loop on the first `size` characters of `buf`.  It stops early, with `fault`,
        where a string would be built from a null pointer. */
    method ParseInternal(buf: array<char>, size: nat) returns (fault: bool)
      requires size <= buf.Length
      modifies this
      ensures var r := Call(buf[..size], old(View())); View() == r.req && fault == r.fault
      ensures old(View()) == FRESH ==> !fault && Answers(state, buf[..size])
    {
      var toks := NO_TOKENS;
      fault := false;
      var text := buf[..size];
      while !Terminal(state) && !fault && nextPos < size
        invariant Loop(text, Run(View(), toks, fault)) == Call(text, old(View()))
        decreases size - nextPos
      {
        var ch := buf[nextPos];
        var p := nextPos;
        ghost var before := Run(View(), toks, fault);
        nextPos := nextPos + 1;
        toks, fault := Consume(text, ch, p, toks, size);
        assert Run(View(), toks, fault) == Step(text, before);
      }
      if old(View()) == FRESH { CallAnswers(text); }
    }

    /** The switch on the decode state. */
    method Consume(buf: string, ch: char, p: nat, toks: Tokens, size: nat) returns (t: Tokens, fault: bool)
      requires p < |buf| == size && ch == buf[p] && nextPos == p + 1 && !Terminal(state)
      modifies this
      ensures Run(View(), t, fault) == Step(buf, Run(old(View()).(nextPos := p), toks, false))
    {
      if InUrl(state) {
        t, fault := ConsumeUrl(buf, ch, p, toks);
      } else if InVersion(state) {
        t, fault := ConsumeVersion(buf, ch, p, toks);
      } else {
        t, fault := ConsumeHeader(buf, ch, p, toks, size);
      }
    }

    /** The cases up to the end of the URL. */
    method ConsumeUrl(buf: string, ch: char, p: nat, toks: Tokens) returns (t: Tokens, fault: bool)
      requires p < |buf| && ch == buf[p] && nextPos == p + 1 && InUrl(state)
      modifies this
      ensures Run(View(), t, fault) == Step(buf, Run(old(View()).(nextPos := p), toks, false))
    {
      t, fault := toks, false;
      match state
      case START =>
        if ch == CR || ch == LF || IsBlank(ch) {
        } else if IsUpper(ch) {
          t := t.(verb := t.verb.(begin := At(p)));
          state := METHOD;
        } else {
          state := INVALID;
        }
      case METHOD =>
        if IsUpper(ch) {
        } else if IsBlank(ch) {
          t := t.(verb := t.verb.(end := At(p)));
          match Harvest(buf, t.verb)
          case None => fault := true;
          case Some(s) => verb := s; state := BEFORE_URI;
        } else {
          state := INVALID_METHOD;
        }
      case BEFORE_URI =>
        if ch == '/' {
          t := t.(url := t.url.(begin := At(p)));
          state := IN_URI;
        } else if IsBlank(ch) {
        } else {
          state := INVALID;
        }
      case IN_URI =>
        if ch == '?' {
          t := t.(url := t.url.(end := At(p)));
          match Harvest(buf, t.url)
          case None => fault := true;
          case Some(s) => url := s; state := BEFORE_URI_PARAM_KEY;
        } else if IsBlank(ch) {
          t := t.(url := t.url.(end := At(p)));
          match Harvest(buf, t.url)
          case None => fault := true;
          case Some(s) => url := s; state := BEFORE_PROTOCOL;
        }
      case BEFORE_URI_PARAM_KEY =>
        if IsBlank(ch) || ch == LF || ch == CR {
          state := INVALID_URI;
        } else {
          t := t.(paramKey := t.paramKey.(begin := At(p)));
          state := URI_PARAM_KEY;
        }
      case URI_PARAM_KEY =>
        if ch == '=' {
          t := t.(paramKey := t.paramKey.(end := At(p)));
          state := BEFORE_URI_PARAM_VALUE;
        } else if IsBlank(ch) {
          state := INVALID_URI;
        }
      case BEFORE_URI_PARAM_VALUE =>
        if IsBlank(ch) || ch == LF || ch == CR {
          state := INVALID_URI;
        } else {
          t := t.(paramValue := t.paramValue.(begin := At(p)));
          state := URI_PARAM_VALUE;
        }
      case URI_PARAM_VALUE =>
        if ch == '&' || IsBlank(ch) {
          t := t.(paramValue := t.paramValue.(end := At(p)));
          match (Harvest(buf, t.paramKey), Harvest(buf, t.paramValue))
          case (Some(k), Some(v)) =>
            params := Insert(params, k, v);
            state := if ch == '&' then BEFORE_URI_PARAM_KEY else BEFORE_PROTOCOL;
          case _ => fault := true;
        }
    }

    /** The cases of the protocol and the version. */
    method ConsumeVersion(buf: string, ch: char, p: nat, toks: Tokens) returns (t: Tokens, fault: bool)
      requires p < |buf| && ch == buf[p] && nextPos == p + 1 && InVersion(state)
      modifies this
      ensures Run(View(), t, fault) == Step(buf, Run(old(View()).(nextPos := p), toks, false))
    {
      t, fault := toks, false;
      match state
      case BEFORE_PROTOCOL =>
        if !IsBlank(ch) {
          t := t.(protocol := t.protocol.(begin := At(p)));
          state := PROTOCOL;
        }
      case PROTOCOL =>
        if ch == '/' {
          t := t.(protocol := t.protocol.(end := At(p)));
          match Harvest(buf, t.protocol)
          case None => fault := true;
          case Some(s) => protocol := s; state := BEFORE_VERSION;
        }
      case BEFORE_VERSION =>
        if IsDigit(ch) {
          t := t.(version := t.version.(begin := At(p)));
          state := VERSION;
        } else {
          state := INVALID_VERSION;
        }
      case VERSION =>
        if ch == CR {
          t := t.(version := t.version.(end := At(p)));
          match Harvest(buf, t.version)
          case None => fault := true;
          case Some(s) => version := s; state := WHEN_CR;
        } else if ch == '.' {
          state := VERSION_SPLIT;
        } else if IsDigit(ch) {
        } else {
          state := INVALID_VERSION;
        }
      case VERSION_SPLIT =>
        state := if IsDigit(ch) then VERSION else INVALID_VERSION;
    }

    /** The cases from the first header field on. */
    method ConsumeHeader(buf: string, ch: char, p: nat, toks: Tokens, size: nat) returns (t: Tokens, fault: bool)
      requires p < |buf| == size && ch == buf[p] && nextPos == p + 1
      requires !Terminal(state) && !InUrl(state) && !InVersion(state)
      modifies this
      ensures Run(View(), t, fault) == Step(buf, Run(old(View()).(nextPos := p), toks, false))
    {
      t, fault := toks, false;
      match state
      case HEADER_KEY =>
        if IsBlank(ch) {
          t := t.(headerKey := t.headerKey.(end := At(p)));
          state := HEADER_BEFORE_COLON;
        } else if ch == ':' {
          t := t.(headerKey := t.headerKey.(end := At(p)));
          state := HEADER_AFTER_COLON;
        }
      case HEADER_BEFORE_COLON =>
        if IsBlank(ch) {
        } else if ch == ':' {
          state := HEADER_AFTER_COLON;
        } else {
          state := INVALID_HEADER;
        }
      case HEADER_AFTER_COLON =>
        if !IsBlank(ch) {
          t := t.(headerValue := t.headerValue.(begin := At(p)));
          state := HEADER_VALUE;
        }
      case HEADER_VALUE =>
        if ch == CR {
          t := t.(headerValue := t.headerValue.(end := At(p)));
          match (Harvest(buf, t.headerKey), Harvest(buf, t.headerValue))
          case (Some(k), Some(v)) =>
            headers := Insert(headers, k, v);
            state := WHEN_CR;
          case _ => fault := true;
        }
      case WHEN_CR =>
        state := if ch == LF then CR_LF else INVALID;
      case CR_LF =>
        if ch == CR {
          state := CR_LF_CR;
        } else if IsBlank(ch) {
          state := INVALID;
        } else {
          t := t.(headerKey := t.headerKey.(begin := At(p)));
          state := HEADER_KEY;
        }
      case CR_LF_CR =>
        if ch == LF {
          if "Content-Length" in headers {
            state := if AtoiPositive(headers["Content-Length"]) then BODY else COMPLETE;
          } else {
            assert p < size;  // so the alternative, COMPLETE, is never taken here
            state := BODY;
          }
        } else {
          state := INVALID_HEADER;
        }
      case BODY =>
        state := COMPLETE;
    }
  }
}
