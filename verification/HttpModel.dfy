/** The request parser as a function: one step per character of the read buffer.

    Tokens are pairs of positions in the buffer, kept only for the duration of one call; the
    decode state, the position and the harvested fields live in the request object. */
module HttpModel {
  import opened Options

  datatype DecodeState =
    | INVALID | INVALID_METHOD | INVALID_URI | INVALID_VERSION | INVALID_HEADER
    | START | METHOD
    | BEFORE_URI | IN_URI
    | BEFORE_URI_PARAM_KEY | URI_PARAM_KEY | BEFORE_URI_PARAM_VALUE | URI_PARAM_VALUE
    | BEFORE_PROTOCOL | PROTOCOL
    | BEFORE_VERSION | VERSION_SPLIT | VERSION
    | HEADER_KEY | HEADER_BEFORE_COLON | HEADER_AFTER_COLON | HEADER_VALUE
    | WHEN_CR | CR_LF | CR_LF_CR
    | BODY | COMPLETE

  const CR := '\r'
  const LF := '\n'

  predicate IsBlank(ch: char) { ch == ' ' || ch == '\t' }
  predicate IsUpper(ch: char) { 'A' <= ch <= 'Z' }
  predicate IsDigit(ch: char) { '0' <= ch <= '9' }
  predicate IsSpace(ch: char) { IsBlank(ch) || '\n' <= ch <= '\r' }

  /** The classes by the codes of their characters. */
  lemma CharacterCodes(ch: char)
    ensures CR as int == 13 && LF as int == 10
    ensures IsBlank(ch) <==> ch as int in {9, 32}
    ensures IsUpper(ch) <==> 65 <= ch as int <= 90
    ensures IsDigit(ch) <==> 48 <= ch as int <= 57
    ensures IsSpace(ch) <==> ch as int in {9, 10, 11, 12, 13, 32}
  {
  }

  predicate Terminal(q: DecodeState) {
    q in {INVALID, INVALID_METHOD, INVALID_URI, INVALID_VERSION, INVALID_HEADER, COMPLETE}
  }

  /** A `char*` into the buffer. */
  datatype Ptr = Null | At(index: nat)

  datatype Token = Token(begin: Ptr, end: Ptr)

  const NO_TOKEN := Token(Null, Null)

  datatype Tokens = Tokens(
    verb: Token, url: Token, paramKey: Token, paramValue: Token,
    protocol: Token, version: Token, headerKey: Token, headerValue: Token)

  const NO_TOKENS := Tokens(NO_TOKEN, NO_TOKEN, NO_TOKEN, NO_TOKEN, NO_TOKEN, NO_TOKEN, NO_TOKEN, NO_TOKEN)

  datatype Fields = Fields(
    verb: string, url: string, params: map<string, string>,
    protocol: string, version: string, headers: map<string, string>)

  const NO_FIELDS := Fields("", "", map[], "", "", map[])

  /** The request object between calls. */
  datatype Request = Request(state: DecodeState, nextPos: nat, fields: Fields)

  const FRESH := Request(START, 0, NO_FIELDS)

  /** The request object and the local variables of one call.  `fault` says that a string was
      asked for from a null pointer to a non-null one, which no standard string allows. */
  datatype Run = Run(req: Request, toks: Tokens, fault: bool)

  /** The string between two pointers. */
  function Harvest(buf: string, tok: Token): Option<string> {
    match tok
    case Token(Null, Null) => Some("")
    case Token(At(b), At(e)) => if b <= e <= |buf| then Some(buf[b..e]) else None
    case _ => None
  }

  /** `std::map::insert`: a key that is there already keeps its value. */
  function Insert(m: map<string, string>, key: string, value: string): map<string, string> {
    if key in m then m else m[key := value]
  }

  // ---------------------------------------------------------------- atoi

  /** Whether `atoi` is positive: optional white space, an optional sign, and digits that are not
      all zero. */
  function AtoiPositive(s: string): bool {
    if s == "" then false
    else if IsSpace(s[0]) then AtoiPositive(s[1..])
    else if s[0] == '-' then false
    else if s[0] == '+' then SomeDigitNonZero(s[1..])
    else SomeDigitNonZero(s)
  }

  predicate SomeDigitNonZero(s: string) {
    s != "" && IsDigit(s[0]) && (s[0] != '0' || SomeDigitNonZero(s[1..]))
  }

  /** The state at the blank line: a positive Content-Length, or none at all, asks for a body. */
  function AtBlankLine(headers: map<string, string>): DecodeState {
    if "Content-Length" in headers && !AtoiPositive(headers["Content-Length"]) then COMPLETE else BODY
  }

  // ---------------------------------------------------------------- one step

  /** The next state, the choice at the blank line left aside. */
  function Goto(q: DecodeState, ch: char): DecodeState {
    match q
    case START =>
      if ch == CR || ch == LF || IsBlank(ch) then START else if IsUpper(ch) then METHOD else INVALID
    case METHOD =>
      if IsUpper(ch) then METHOD else if IsBlank(ch) then BEFORE_URI else INVALID_METHOD
    case BEFORE_URI =>
      if ch == '/' then IN_URI else if IsBlank(ch) then BEFORE_URI else INVALID
    case IN_URI =>
      if ch == '?' then BEFORE_URI_PARAM_KEY else if IsBlank(ch) then BEFORE_PROTOCOL else IN_URI
    case BEFORE_URI_PARAM_KEY =>
      if IsBlank(ch) || ch == LF || ch == CR then INVALID_URI else URI_PARAM_KEY
    case URI_PARAM_KEY =>
      if ch == '=' then BEFORE_URI_PARAM_VALUE else if IsBlank(ch) then INVALID_URI else URI_PARAM_KEY
    case BEFORE_URI_PARAM_VALUE =>
      if IsBlank(ch) || ch == LF || ch == CR then INVALID_URI else URI_PARAM_VALUE
    case URI_PARAM_VALUE =>
      if ch == '&' then BEFORE_URI_PARAM_KEY else if IsBlank(ch) then BEFORE_PROTOCOL else URI_PARAM_VALUE
    case BEFORE_PROTOCOL => if IsBlank(ch) then BEFORE_PROTOCOL else PROTOCOL
    case PROTOCOL => if ch == '/' then BEFORE_VERSION else PROTOCOL
    case BEFORE_VERSION => if IsDigit(ch) then VERSION else INVALID_VERSION
    case VERSION =>
      if ch == CR then WHEN_CR else if ch == '.' then VERSION_SPLIT
      else if IsDigit(ch) then VERSION else INVALID_VERSION
    case VERSION_SPLIT => if IsDigit(ch) then VERSION else INVALID_VERSION
    case HEADER_KEY =>
      if IsBlank(ch) then HEADER_BEFORE_COLON else if ch == ':' then HEADER_AFTER_COLON else HEADER_KEY
    case HEADER_BEFORE_COLON =>
      if IsBlank(ch) then HEADER_BEFORE_COLON else if ch == ':' then HEADER_AFTER_COLON else INVALID_HEADER
    case HEADER_AFTER_COLON => if IsBlank(ch) then HEADER_AFTER_COLON else HEADER_VALUE
    case HEADER_VALUE => if ch == CR then WHEN_CR else HEADER_VALUE
    case WHEN_CR => if ch == LF then CR_LF else INVALID
    case CR_LF => if ch == CR then CR_LF_CR else if IsBlank(ch) then INVALID else HEADER_KEY
    case CR_LF_CR => if ch == LF then BODY else INVALID_HEADER
    case BODY => COMPLETE
    case _ => q
  }

  /** The token pointers set at position `p`. */
  function Mark(q: DecodeState, ch: char, p: nat, t: Tokens): Tokens {
    match q
    case START => if Goto(q, ch) == METHOD then t.(verb := t.verb.(begin := At(p))) else t
    case METHOD => if IsBlank(ch) then t.(verb := t.verb.(end := At(p))) else t
    case BEFORE_URI => if ch == '/' then t.(url := t.url.(begin := At(p))) else t
    case IN_URI => if ch == '?' || IsBlank(ch) then t.(url := t.url.(end := At(p))) else t
    case BEFORE_URI_PARAM_KEY =>
      if Goto(q, ch) == URI_PARAM_KEY then t.(paramKey := t.paramKey.(begin := At(p))) else t
    case URI_PARAM_KEY => if ch == '=' then t.(paramKey := t.paramKey.(end := At(p))) else t
    case BEFORE_URI_PARAM_VALUE =>
      if Goto(q, ch) == URI_PARAM_VALUE then t.(paramValue := t.paramValue.(begin := At(p))) else t
    case URI_PARAM_VALUE =>
      if ch == '&' || IsBlank(ch) then t.(paramValue := t.paramValue.(end := At(p))) else t
    case BEFORE_PROTOCOL => if IsBlank(ch) then t else t.(protocol := t.protocol.(begin := At(p)))
    case PROTOCOL => if ch == '/' then t.(protocol := t.protocol.(end := At(p))) else t
    case BEFORE_VERSION => if IsDigit(ch) then t.(version := t.version.(begin := At(p))) else t
    case VERSION => if ch == CR then t.(version := t.version.(end := At(p))) else t
    case HEADER_KEY => if IsBlank(ch) || ch == ':' then t.(headerKey := t.headerKey.(end := At(p))) else t
    case HEADER_AFTER_COLON => if IsBlank(ch) then t else t.(headerValue := t.headerValue.(begin := At(p)))
    case HEADER_VALUE => if ch == CR then t.(headerValue := t.headerValue.(end := At(p))) else t
    case CR_LF => if Goto(q, ch) == HEADER_KEY then t.(headerKey := t.headerKey.(begin := At(p))) else t
    case _ => t
  }

  /** The fields after the harvest that the transition on `ch` makes, if it makes one. */
  function Reap(buf: string, q: DecodeState, ch: char, t: Tokens, f: Fields): Option<Fields> {
    match q
    case METHOD =>
      if IsBlank(ch) then
        (match Harvest(buf, t.verb) case None => None case Some(s) => Some(f.(verb := s)))
      else Some(f)
    case IN_URI =>
      if ch == '?' || IsBlank(ch) then
        (match Harvest(buf, t.url) case None => None case Some(s) => Some(f.(url := s)))
      else Some(f)
    case URI_PARAM_VALUE =>
      if ch == '&' || IsBlank(ch) then
        (match (Harvest(buf, t.paramKey), Harvest(buf, t.paramValue))
         case (Some(k), Some(v)) => Some(f.(params := Insert(f.params, k, v)))
         case _ => None)
      else Some(f)
    case PROTOCOL =>
      if ch == '/' then
        (match Harvest(buf, t.protocol) case None => None case Some(s) => Some(f.(protocol := s)))
      else Some(f)
    case VERSION =>
      if ch == CR then
        (match Harvest(buf, t.version) case None => None case Some(s) => Some(f.(version := s)))
      else Some(f)
    case HEADER_VALUE =>
      if ch == CR then
        (match (Harvest(buf, t.headerKey), Harvest(buf, t.headerValue))
         case (Some(k), Some(v)) => Some(f.(headers := Insert(f.headers, k, v)))
         case _ => None)
      else Some(f)
    case _ => Some(f)
  }

  /** One turn of the parser's loop. */
  function Step(buf: string, r: Run): Run
    requires r.req.nextPos < |buf|
  {
    var q, p := r.req.state, r.req.nextPos;
    var ch := buf[p];
    var toks := Mark(q, ch, p, r.toks);
    match Reap(buf, q, ch, toks, r.req.fields)
    case None => Run(r.req.(nextPos := p + 1), toks, true)
    case Some(fields) =>
      var next := if q == CR_LF_CR && ch == LF then AtBlankLine(fields.headers) else Goto(q, ch);
      Run(Request(next, p + 1, fields), toks, false)
  }

  predicate Stopped(buf: string, r: Run) {
    Terminal(r.req.state) || r.fault || r.req.nextPos >= |buf|
  }

  function Loop(buf: string, r: Run): Run
    decreases |buf| - r.req.nextPos
  {
    if Stopped(buf, r) then r else Loop(buf, Step(buf, r))
  }

  /** One call of the parser on a buffer holding `buf`. */
  function Call(buf: string, req: Request): Run {
    Loop(buf, Run(req, NO_TOKENS, false))
  }
}
