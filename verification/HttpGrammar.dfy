/** The language of the parser: request line and header fields as a document, its printed form,
    and which documents are well formed.  This is what the automaton accepts, not RFC 7230. */
module HttpGrammar {
  import opened HttpModel

  datatype Pair = Pair(key: string, value: string)

  /** A header field with the blanks around its colon. */
  datatype Header = Header(pair: Pair, before: string, after: string)

  datatype Doc = Doc(
    lead: string, verb: string, gap1: string, url: string, params: seq<Pair>, gap2: string,
    protocol: string, version: string, headers: seq<Header>)

  const NO_DOC := Doc("", "", "", "", [], "", "", "", [])

  // ---------------------------------------------------------------- printing

  /** `base` followed by "k=v&" for every parameter. */
  function Pairs(base: string, ps: seq<Pair>): string {
    if ps == [] then base
    else Pairs(base, ps[..|ps| - 1]) + ps[|ps| - 1].key + "=" + ps[|ps| - 1].value + "&"
  }

  /** `base` followed by "?k=v&k=v", or by nothing. */
  function Query(base: string, ps: seq<Pair>): string {
    if ps == [] then base
    else Pairs(base + "?", ps[..|ps| - 1]) + ps[|ps| - 1].key + "=" + ps[|ps| - 1].value
  }

  function Line(d: Doc): string {
    Query(d.lead + d.verb + d.gap1 + d.url, d.params) + d.gap2 + d.protocol + "/" + d.version
  }

  /** `base` followed by every header field with the CR LF in front of it. */
  function HeaderLines(base: string, hs: seq<Header>): string {
    if hs == [] then base
    else
      var h := hs[|hs| - 1];
      HeaderLines(base, hs[..|hs| - 1]) + [CR] + [LF] + h.pair.key + h.before + ":" + h.after + h.pair.value
  }

  function Print(d: Doc): string {
    HeaderLines(Line(d), d.headers) + [CR] + [LF] + [CR] + [LF]
  }

  // ---------------------------------------------------------------- well-formedness

  predicate All(s: string, p: char -> bool) {
    forall i :: 0 <= i < |s| ==> p(s[i])
  }

  predicate Blanks(s: string) { All(s, IsBlank) }

  predicate LeadOk(s: string) { All(s, ch => ch == CR || ch == LF || IsBlank(ch)) }

  predicate VerbOk(s: string) { s != "" && All(s, IsUpper) }

  predicate UrlOk(s: string) { s != "" && s[0] == '/' && All(s, ch => ch != '?' && !IsBlank(ch)) }

  /** The first character is neither blank nor a line end; the rest has no blank and no `=`. */
  predicate KeyOk(s: string) {
    s != "" && !IsBlank(s[0]) && s[0] != CR && s[0] != LF && All(s[1..], ch => ch != '=' && !IsBlank(ch))
  }

  predicate ValueOk(s: string) {
    s != "" && !IsBlank(s[0]) && s[0] != CR && s[0] != LF && All(s[1..], ch => ch != '&' && !IsBlank(ch))
  }

  predicate ProtocolOk(s: string) { s != "" && !IsBlank(s[0]) && All(s[1..], ch => ch != '/') }

  /** Digits, then any number of times a point and digits. */
  predicate VersionOk(s: string) {
    s != "" && IsDigit(s[0]) && IsDigit(s[|s| - 1]) && forall i :: 0 <= i < |s| ==> DigitOrPoint(s, i)
  }

  /** A digit, or a point and then a digit. */
  predicate DigitOrPoint(s: string, i: nat)
    requires i < |s|
  {
    IsDigit(s[i]) || (s[i] == '.' && i + 1 < |s| && IsDigit(s[i + 1]))
  }

  predicate HeaderKeyOk(s: string) {
    s != "" && s[0] != CR && !IsBlank(s[0]) && All(s[1..], ch => ch != ':' && !IsBlank(ch))
  }

  /** Not empty, not starting with a blank, and free of CR after the first character. */
  predicate HeaderValueOk(s: string) { s != "" && !IsBlank(s[0]) && All(s[1..], ch => ch != CR) }

  predicate PairOk(p: Pair) { KeyOk(p.key) && ValueOk(p.value) }

  predicate HeaderOk(h: Header) {
    HeaderKeyOk(h.pair.key) && Blanks(h.before) && Blanks(h.after) && HeaderValueOk(h.pair.value)
  }

  predicate PairsOk(ps: seq<Pair>) { forall i :: 0 <= i < |ps| ==> PairOk(ps[i]) }

  predicate HeadersOk(hs: seq<Header>) { forall i :: 0 <= i < |hs| ==> HeaderOk(hs[i]) }

  predicate DocOk(d: Doc) {
    && LeadOk(d.lead) && VerbOk(d.verb) && d.gap1 != "" && Blanks(d.gap1) && UrlOk(d.url)
    && PairsOk(d.params) && d.gap2 != "" && Blanks(d.gap2)
    && ProtocolOk(d.protocol) && VersionOk(d.version) && HeadersOk(d.headers)
  }

  // ---------------------------------------------------------------- what is harvested

  function HeaderPairs(hs: seq<Header>): (ps: seq<Pair>)
    ensures |ps| == |hs| && forall i :: 0 <= i < |hs| ==> ps[i] == hs[i].pair
  {
    if hs == [] then [] else HeaderPairs(hs[..|hs| - 1]) + [hs[|hs| - 1].pair]
  }

  function FirstWins(ps: seq<Pair>): map<string, string> {
    if ps == [] then map[] else Insert(FirstWins(ps[..|ps| - 1]), ps[|ps| - 1].key, ps[|ps| - 1].value)
  }

  /** A key is in the map exactly when some pair has it, and its value is that of the first one. */
  lemma {:induction false} FirstWinsIsFirst(ps: seq<Pair>, key: string)
    ensures key in FirstWins(ps) <==> exists i :: 0 <= i < |ps| && ps[i].key == key
    ensures forall i :: 0 <= i < |ps| && ps[i].key == key && (forall j :: 0 <= j < i ==> ps[j].key != key) ==>
      key in FirstWins(ps) && FirstWins(ps)[key] == ps[i].value
  {
    if ps != [] {
      var front := ps[..|ps| - 1];
      FirstWinsIsFirst(front, key);
      assert forall i :: 0 <= i < |front| ==> front[i] == ps[i];
    }
  }

  function FieldsOf(d: Doc): Fields {
    Fields(d.verb, d.url, FirstWins(d.params), d.protocol, d.version, FirstWins(HeaderPairs(d.headers)))
  }
}
