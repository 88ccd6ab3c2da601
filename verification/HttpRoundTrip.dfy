/** Requests printed as RFC 9112 (sections 2.1, 3 and 5) lays them out, and exactly which of
  them `parse_http_request` reads back unchanged; and what it makes of the others.
 */
module HttpRoundTrip {
  import opened HttpMessage
  import opened HttpParser
  import opened Option
  import opened StringSplit
  import opened Trimming

  // field-line = field-name ":" OWS field-value OWS
  datatype Field = Field(name: string, before: string, value: string, after: string)

  datatype Request = Request(
    token: string,              // the method
    resource: string,
    query: Option<string>,
    version: string,
    fields: seq<Field>,
    body: string)

  function Target(r: Request): string {
    match r.query
    case None => r.resource
    case Some(q) => r.resource + "?" + q
  }

  function StartLine(r: Request): string {
    r.token + " " + (Target(r) + " " + r.version)
  }

  function FieldLine(f: Field): string {
    f.name + ":" + (f.before + f.value + f.after)
  }

  function FieldLines(fields: seq<Field>): (lines: seq<string>)
    ensures |lines| == |fields|
  {
    if fields == [] then [] else [FieldLine(fields[0])] + FieldLines(fields[1..])
  }

  // HTTP-message = start-line CRLF *( field-line CRLF ) CRLF [ message-body ]
  function Text(r: Request): string {
    StartLine(r) + CRLF + Block(FieldLines(r.fields)) + CRLF + r.body
  }

  predicate IsOws(s: string) {
    forall k :: 0 <= k < |s| ==> s[k] == ' ' || s[k] == '\t'
  }

  predicate WellFormedField(f: Field) {
    && f.name != "" && NoneOf(f.name, " \t\r\n:")
    && IsOws(f.before) && IsOws(f.after)
    && NoneOf(f.value, "\r\n")
    && (f.value != "" ==> !IsBlank(f.value[0]) && !IsBlank(f.value[|f.value| - 1]))
  }

  predicate WellFormed(r: Request) {
    && r.token != "" && NoneOf(r.token, " \r\n")
    && NoneOf(r.resource, " \r\n?")
    && (r.query.Some? ==> NoneOf(r.query.value, " \r\n"))
    && r.version != "" && NoneOf(r.version, " \r\n")
    && forall k :: 0 <= k < |r.fields| ==> WellFormedField(r.fields[k])
  }

  // The first field of that name.
  function FirstField(fields: seq<Field>, name: string): Option<Field> {
    if fields == [] then None
    else if fields[0].name == name then Some(fields[0])
    else FirstField(fields[1..], name)
  }

  predicate AllValued(fields: seq<Field>) {
    forall k :: 0 <= k < |fields| ==> fields[k].value != ""
  }

  // Field names are case-insensitive (section 5.1 of RFC 9110).
  predicate IsHost(name: string) {
    |name| == |"Host"| && StartsWithIgnoringCase(name, "Host")
  }

  function FirstHost(fields: seq<Field>): (first: Option<Field>)
    ensures first.Some? ==> first.value in fields
  {
    if fields == [] then None
    else if IsHost(fields[0].name) then Some(fields[0])
    else FirstHost(fields[1..])
  }

  // The parser looks for the spelling "Host" only, so the first Host field that is spelt so must
  // be there if there is any Host field, and have the value of the first one.
  predicate HostSurvives(fields: seq<Field>) {
    match FirstHost(fields)
    case None => true
    case Some(first) =>
      match FirstField(fields, "Host")
      case None => false
      case Some(f) => f.value == first.value && (|f.value| == 1 ==> f.before != "")
  }

  predicate EnoughLines(r: Request) {
    |r.fields| >= if r.body == "" then 1 else 2
  }

  // What a caller can check before sending: no empty query, at least two header lines (one
  // if there is no body), no empty value, the first Host field spelt so (or one of the same
  // value), no one-character Host value right after its colon, and a body in one piece.
  predicate Parsable(r: Request) {
    && r.query != Some("")
    && EnoughLines(r)
    && AllValued(r.fields)
    && HostSurvives(r.fields)
    && BodyInOnePiece(r.body)
  }

  // The literal's letters, in either case.
  predicate BeginsGet(token: string) {
    && |token| >= 3
    && (token[0] == 'G' || token[0] == 'g')
    && (token[1] == 'E' || token[1] == 'e')
    && (token[2] == 'T' || token[2] == 't')
  }

  predicate BeginsPost(token: string) {
    && |token| >= 4
    && (token[0] == 'P' || token[0] == 'p')
    && (token[1] == 'O' || token[1] == 'o')
    && (token[2] == 'S' || token[2] == 's')
    && (token[3] == 'T' || token[3] == 't')
  }

  // The source compares as many characters as the literal has, so "getting" is a GET.
  function ExpectedMethod(token: string): Method {
    if BeginsGet(token) then GET else if BeginsPost(token) then POST else UNKNOWN
  }

  function Expected(r: Request): HttpRequest {
    var host := match FirstHost(r.fields) case None => "" case Some(f) => f.value;
    var query := match r.query case None => "" case Some(q) => q;
    HttpRequest(
      Header(ExpectedMethod(r.token), r.resource, query, r.version, host, []),
      r.body)
  }

  // What comes back of the Host fields: the value of the first one spelt "Host", unless it is
  // one character right after its colon.
  function HostBack(fields: seq<Field>): string {
    match FirstField(fields, "Host")
    case None => ""
    case Some(f) => if |f.value| == 1 && f.before == "" then "" else f.value
  }

  function HeaderBack(r: Request, enough: bool, anyMethod: Method): (bool, Header) {
    if !enough then (false, Header(anyMethod, "", "", "", "", []))
    else
      var resource := if r.query == Some("") then r.resource + "?" else r.resource;
      var query := match r.query case None => "" case Some(q) => q;
      var host := if AllValued(r.fields) then HostBack(r.fields) else "";
      (AllValued(r.fields), Header(ExpectedMethod(r.token), resource, query, r.version, host, []))
  }

  // What comes back of any well-formed request.  With too few lines nothing of the head is
  // stored, and with an empty value everything but the host; a body in pieces is dropped.
  function ReadBack(r: Request, anyMethod: Method): (bool, HttpRequest) {
    var (ok, header) := HeaderBack(r, EnoughLines(r), anyMethod);
    (ok, HttpRequest(header, if BodyInOnePiece(r.body) then r.body else ""))
  }

  // ---------------------------------------------------------------- start line

  lemma {:induction false} SplitStartLine(r: Request)
    requires WellFormed(r)
    ensures WindowSplit(StartLine(r), " ", -1) == [r.token, Target(r), r.version]
    ensures IsLine(StartLine(r))
  {
    hide LeftmostSplit;
    var m, t, v := r.token, Target(r), r.version;
    assert NoneOf(t, " \r\n") && NoneOf(m, " \r\n");
    OneCharSplit(StartLine(r), " ", -1);
    assert StartLine(r) == m + " " + (t + " " + v);
    SplitOne(m, " ", t + " " + v, -1);
    SplitOne(t, " ", v, -1);
    SplitNone(v, " ", -1);
  }

  lemma PrefixByLetters(token: string)
    ensures StartsWithIgnoringCase(token, "GET") <==> BeginsGet(token)
    ensures StartsWithIgnoringCase(token, "POST") <==> BeginsPost(token)
  {
    var get, post := "GET", "POST";
    assert get[0] == 'G' && get[1] == 'E' && get[2] == 'T';
    assert post[0] == 'P' && post[1] == 'O' && post[2] == 'S' && post[3] == 'T';
  }

  // A token is a GET or a POST exactly when it begins with those letters, in either case.
  lemma MethodByLetters(token: string)
    ensures MethodOf(token) == ExpectedMethod(token)
  {
    assert Lower('G') == 'g' && Lower('E') == 'e' && Lower('T') == 't';
    assert Lower('P') == 'p' && Lower('O') == 'o' && Lower('S') == 's';
    assert |"GET"| == 3 && |"POST"| == 4;
    PrefixByLetters(token);
  }

  // The target comes back as resource and query unless the query is there but empty.
  lemma {:induction false} SplitTarget(r: Request)
    requires WellFormed(r)
    ensures WindowSplit(Target(r), "?", 1)
            == match r.query
               case None => [r.resource]
               case Some(q) => if q == "" then [r.resource + "?"] else [r.resource, q]
  {
    hide LeftmostSplit, WindowSplit;
    OneCharSplit(Target(r), "?", 1);
    match r.query
    case None =>
      SplitNone(r.resource, "?", 1);
    case Some(q) =>
      if q == "" {
        assert Target(r) == r.resource + "?";
        FlushSeparator(r.resource, "?", 1);
      } else {
        SplitOne(r.resource, "?", q, 1);
        NoBudget(q, "?");
      }
  }

  // ---------------------------------------------------------------- header lines

  function ParsedName(f: Field): string {
    if |f.name| == 1 then "" else f.name
  }

  function ParsedValue(f: Field): string {
    if |f.value| == 1 && f.before == "" then "" else f.value
  }

  lemma FieldLineIsLine(f: Field)
    requires WellFormedField(f)
    ensures IsLine(FieldLine(f))
  {
  }

  lemma ColonEnds(f: Field)
    requires WellFormedField(f)
    ensures var core := f.name + ":"; !IsBlank(core[0]) && !IsBlank(core[|core| - 1])
    ensures f.value != "" ==>
              var core := f.name + ":" + (f.before + f.value); !IsBlank(core[0]) && !IsBlank(core[|core| - 1])
  {
  }

  lemma FieldLineStripped(f: Field)
    requires WellFormedField(f)
    ensures StripEnds(FieldLine(f)) == f.name + ":" + (if f.value == "" then "" else f.before + f.value)
    ensures IsLine(FieldLine(f))
  {
    hide StripEnds, IsLine;
    FieldLineIsLine(f);
    ColonEnds(f);
    if f.value == "" {
      var core := f.name + ":";
      assert FieldLine(f) == "" + core + (f.before + f.after);
      StripKeeps("", core, f.before + f.after);
    } else {
      var core := f.name + ":" + (f.before + f.value);
      assert FieldLine(f) == "" + core + f.after;
      StripKeeps("", core, f.after);
    }
  }

  lemma OwsIsBlank(s: string)
    requires IsOws(s)
    ensures forall k :: 0 <= k < |s| ==> IsBlank(s[k])
  {
  }

  lemma NameIsDark(name: string)
    requires name != "" && NoneOf(name, " \t\r\n:")
    ensures !IsBlank(name[0]) && !IsBlank(name[|name| - 1])
  {
  }

  lemma NameAndValueStripped(f: Field)
    requires WellFormedField(f) && f.value != ""
    ensures StripEnds(f.name) == ParsedName(f)
    ensures StripEnds(f.before + f.value) == ParsedValue(f)
  {
    hide StripEnds, IsBlank;
    NameIsDark(f.name);
    StripKeeps("", f.name, "");
    assert "" + f.name + "" == f.name && f.name + "" == f.name;
    OwsIsBlank(f.before);
    StripKeeps(f.before, f.value, "");
    assert f.before + f.value + "" == f.before + f.value && f.value + "" == f.value;
  }

  lemma {:induction false} FieldParses(f: Field)
    requires WellFormedField(f)
    ensures FieldOf(StripEnds(FieldLine(f)))
            == if f.value == "" then None else Some((ParsedName(f), ParsedValue(f)))
  {
    hide StripEnds, WindowSplit, LeftmostSplit, FieldLine, ParsedName, ParsedValue;
    FieldLineStripped(f);
    assert ':' !in f.name;
    OneCharSplit(StripEnds(FieldLine(f)), ":", 1);
    if f.value == "" {
      assert f.name + ":" + "" == f.name + ":";
      FlushSeparator(f.name, ":", 1);
    } else {
      SplitOne(f.name, ":", f.before + f.value, 1);
      NoBudget(f.before + f.value, ":");
      NameAndValueStripped(f);
    }
  }

  function Inserted(fields: seq<Field>, m: map<string, string>): map<string, string> {
    if fields == [] then m
    else Inserted(fields[1..], InsertField(m, (ParsedName(fields[0]), ParsedValue(fields[0]))))
  }

  predicate WellFormedFields(fields: seq<Field>) {
    forall k :: 0 <= k < |fields| ==> WellFormedField(fields[k])
  }

  lemma AllValuedStep(fields: seq<Field>)
    requires fields != []
    ensures AllValued(fields) <==> fields[0].value != "" && AllValued(fields[1..])
  {
  }

  lemma EmptyLineStripped()
    ensures StripEnds(CRLF) == ""
  {
  }

  // `extra` holds at most the empty line that stays behind when there is no body.
  lemma {:induction false} FieldsParse(fields: seq<Field>, extra: seq<string>, m: map<string, string>)
    requires WellFormedFields(fields) && (extra == [] || extra == [CRLF])
    ensures FieldMap(FieldLines(fields) + extra, m)
            == if AllValued(fields) then Some(Inserted(fields, m)) else None
    decreases |fields|
  {
    hide StripEnds, FieldOf;
    var lines := FieldLines(fields) + extra;
    if fields == [] {
      assert lines == extra;
      EmptyLineStripped();
      assert [CRLF][1..] == [];
    } else {
      assert lines[0] == FieldLine(fields[0]);
      assert lines[1..] == FieldLines(fields[1..]) + extra;
      AllValuedStep(fields);
      FieldParses(fields[0]);
      FieldLineStripped(fields[0]);
      var f := fields[0];
      FieldsParse(fields[1..], extra, InsertField(m, (ParsedName(f), ParsedValue(f))));
    }
  }

  lemma {:induction false} InsertedHost(fields: seq<Field>, m: map<string, string>)
    requires WellFormedFields(fields)
    ensures var all := Inserted(fields, m);
            if "Host" in m then "Host" in all && all["Host"] == m["Host"]
            else match FirstField(fields, "Host")
              case None => "Host" !in all
              case Some(f) => "Host" in all && all["Host"] == ParsedValue(f)
    decreases |fields|
  {
    if fields != [] {
      var f := fields[0];
      assert ParsedName(f) == "Host" <==> f.name == "Host";
      InsertedHost(fields[1..], InsertField(m, (ParsedName(f), ParsedValue(f))));
    }
  }

  lemma {:induction false} FieldLinesAreLines(fields: seq<Field>)
    requires WellFormedFields(fields)
    ensures AreLines(FieldLines(fields))
  {
    if fields != [] {
      FieldLineStripped(fields[0]);
      FieldLinesAreLines(fields[1..]);
    }
  }

  // ---------------------------------------------------------------- the whole request

  function AllLines(r: Request): seq<string> {
    [StartLine(r)] + FieldLines(r.fields)
  }

  // The text up to, but without, the empty line.
  function Head(r: Request): string {
    var lines := AllLines(r);
    Block(lines[..|lines| - 1]) + lines[|lines| - 1]
  }

  lemma {:induction false} LinesOf(r: Request)
    requires WellFormed(r)
    ensures var lines := AllLines(r); var n := |lines| - 1;
            AreLines(lines) && AreLines(lines[..n]) && IsLine(lines[n])
  {
    hide StartLine, FieldLine, FieldLines, IsLine;
    SplitStartLine(r);
    FieldLinesAreLines(r.fields);
  }

  lemma BlockCons(line: string, lines: seq<string>)
    ensures Block([line] + lines) == line + CRLF + Block(lines)
  {
    assert ([line] + lines)[1..] == lines;
  }

  lemma {:induction false} TextIsHeadAndBody(r: Request)
    requires WellFormed(r)
    ensures Text(r) == Head(r) + BLANK_LINE + r.body
    ensures CrLfThenText(Head(r)) && AreLines(AllLines(r))
    ensures Block(AllLines(r)) == Head(r) + CRLF
  {
    hide StartLine, FieldLine, FieldLines, IsLine, AreLines, Block, CrLfThenText, WellFormedField;
    var lines := AllLines(r);
    var n := |lines| - 1;
    LinesOf(r);
    assert lines == lines[..n] + [lines[n]];
    BlockSnoc(lines[..n], lines[n]);
    BlockCons(StartLine(r), FieldLines(r.fields));
    HeadHasNoEmptyLine(lines[..n], lines[n]);
    assert BLANK_LINE == CRLF + CRLF;
  }

  lemma LoneEmptyLine()
    ensures LeftmostSplit(CRLF, CRLF, -1) == [CRLF]
  {
  }

  // The lines the header parser sees: with a body, those of the head; without one, the whole
  // text, whose last two characters stay behind as one more piece.
  lemma {:induction false} HeaderLines(r: Request)
    requires WellFormed(r)
    ensures WindowSplit(Head(r), CRLF, -1) == AllLines(r)
    ensures WindowSplit(Head(r) + BLANK_LINE, CRLF, -1) == AllLines(r) + [CRLF]
  {
    hide LeftmostSplit, StartLine, FieldLine, FieldLines, Block;
    TextIsHeadAndBody(r);
    var lines := AllLines(r);
    var n := |lines| - 1;
    LineSplit(Head(r), -1);
    assert IsLine(lines[n]);
    SplitBlock(lines[..n], lines[n]);
    SplitNone(lines[n], CRLF, -1);
    assert lines == lines[..n] + [lines[n]];
    LineSplit(Head(r) + BLANK_LINE, -1);
    assert Head(r) + BLANK_LINE == Block(lines) + CRLF;
    SplitBlock(lines, CRLF);
    LoneEmptyLine();
  }

  lemma {:induction false} HostSpeltSo(fields: seq<Field>)
    ensures FirstField(fields, "Host").Some? ==> FirstHost(fields).Some?
  {
    if fields != [] {
      HostSpeltSo(fields[1..]);
    }
  }

  // What the header parser makes of a head (extra == []) or of a text without a body
  // (extra == [CRLF]).
  lemma {:induction false} HeaderParses(r: Request, text: string, extra: seq<string>, anyMethod: Method)
    requires WellFormed(r) && (extra == [] || extra == [CRLF])
    requires WindowSplit(text, CRLF, -1) == AllLines(r) + extra
    ensures ParsedHeader(text, Fresh(anyMethod).header) == HeaderBack(r, |r.fields| + |extra| >= 2, anyMethod)
  {
    hide WindowSplit, FieldMap, StartLine, Target, MethodOf, ExpectedMethod, AllValued, Inserted;
    var lines := AllLines(r) + extra;
    if |lines| >= 3 {
      SplitStartLine(r);
      MethodByLetters(r.token);
      SplitTarget(r);
      assert lines[0] == StartLine(r);
      assert lines[1..] == FieldLines(r.fields) + extra;
      FieldsParse(r.fields, extra, map[]);
      InsertedHost(r.fields, map[]);
    }
  }

  lemma EmptyBodyInOnePiece()
    ensures BodyInOnePiece("")
  {
  }

  // What comes back of a well-formed RFC 9112 request, whatever its method, its fields and its
  // body: exactly `ReadBack`.
  lemma {:induction false} RequestReads(r: Request, anyMethod: Method)
    requires WellFormed(r)
    ensures ParsedRequest(Text(r), Fresh(anyMethod)) == ReadBack(r, anyMethod)
  {
    hide WindowSplit, ParsedHeader, HeaderBack, Text, Head, AllValued, WellFormed, BodyInOnePiece;
    TextIsHeadAndBody(r);
    HeaderLines(r);
    if r.body == "" {
      EmptyBodyInOnePiece();
      NoSplitWithoutBody(Head(r));
      assert Head(r) + BLANK_LINE + r.body == Head(r) + BLANK_LINE;
      HeaderParses(r, Head(r) + BLANK_LINE, [CRLF], anyMethod);
    } else {
      SplitMessage(Head(r), r.body);
      assert AllLines(r) + [] == AllLines(r);
      HeaderParses(r, Head(r), [], anyMethod);
    }
  }

  lemma {:induction false} ExpectedHost(fields: seq<Field>)
    requires AllValued(fields)
    ensures var expected := match FirstHost(fields) case None => "" case Some(f) => f.value;
            HostBack(fields) == expected <==> HostSurvives(fields)
  {
    HostSpeltSo(fields);
  }

  // It comes back with exactly its method, resource, query, version, first Host value and body
  // if and only if it is Parsable.
  lemma {:induction false} RequestRoundTrip(r: Request, anyMethod: Method)
    requires WellFormed(r)
    ensures ParsedRequest(Text(r), Fresh(anyMethod)) == (true, Expected(r)) <==> Parsable(r)
  {
    hide ParsedRequest, Text, AllValued, HostSurvives, HostBack, WellFormed, BodyInOnePiece, ExpectedMethod;
    RequestReads(r, anyMethod);
    EmptyBodyInOnePiece();
    assert |r.resource + "?"| == |r.resource| + 1;
    if AllValued(r.fields) {
      ExpectedHost(r.fields);
    }
  }

  // A POST with two header lines whose body starts with CRLF: the body is lost.
  function LeadingCrlf(): Request {
    var fields := [Field("Host", " ", "ab", ""), Field("Accept", " ", "cd", "")];
    Request("POST", "/", None, "HTTP/1.1", fields, CRLF + "x")
  }

  lemma HostFieldIsWellFormed()
    ensures WellFormedField(Field("Host", " ", "ab", ""))
  {
  }

  lemma AcceptFieldIsWellFormed()
    ensures WellFormedField(Field("Accept", " ", "cd", ""))
  {
  }

  lemma {:induction false} LeadingCrlfShape()
    ensures WellFormed(LeadingCrlf()) && LeadingCrlf().body != "" && !BodyInOnePiece(LeadingCrlf().body)
  {
    hide Text, CutsAt, WellFormedField;
    var r := LeadingCrlf();
    assert r.body[..2] == CRLF;
    HostFieldIsWellFormed();
    AcceptFieldIsWellFormed();
    assert r.fields[0] == Field("Host", " ", "ab", "") && r.fields[1] == Field("Accept", " ", "cd", "");
  }

  lemma {:induction false} LeadingCrlfIsLost(anyMethod: Method)
    ensures WellFormed(LeadingCrlf()) && !Parsable(LeadingCrlf())
    ensures ParsedRequest(Text(LeadingCrlf()), Fresh(anyMethod)).1.body == "" != LeadingCrlf().body
  {
    hide LeadingCrlf, WellFormed, BodyInOnePiece, Text, ParsedRequest, HeaderBack;
    LeadingCrlfShape();
    RequestReads(LeadingCrlf(), anyMethod);
  }

  function Bare(token: string, name: string): Request {
    Request(token, "/x", None, "HTTP/1.1", [Field(name, " ", "ab", "")], "")
  }

  lemma LowerCaseHostField()
    ensures IsHost("host") && WellFormedField(Field("host", " ", "ab", ""))
  {
  }

  lemma {:induction false} BareReads(token: string, name: string, anyMethod: Method)
    requires token != "" && NoneOf(token, " \r\n") && WellFormedField(Field(name, " ", "ab", ""))
    ensures WellFormed(Bare(token, name))
    ensures ParsedRequest(Text(Bare(token, name)), Fresh(anyMethod))
            == (true, HttpRequest(Header(ExpectedMethod(token), "/x", "", "HTTP/1.1",
                                         if name == "Host" then "ab" else "", []), ""))
  {
    hide ParsedRequest, Text, WellFormedField, BodyInOnePiece, ExpectedMethod;
    var r := Bare(token, name);
    assert r.fields[0] == Field(name, " ", "ab", "") && r.fields[1..] == [];
    EmptyBodyInOnePiece();
    assert FirstField(r.fields, "Host") == if name == "Host" then Some(r.fields[0]) else None;
    RequestReads(r, anyMethod);
  }

  // A GET whose host is spelt "host": the parser finds none.
  lemma {:induction false} LowerCaseHostIsLost(anyMethod: Method)
    ensures WellFormed(Bare("GET", "host")) && Expected(Bare("GET", "host")).header.host == "ab"
    ensures ParsedRequest(Text(Bare("GET", "host")), Fresh(anyMethod)).0
    ensures ParsedRequest(Text(Bare("GET", "host")), Fresh(anyMethod)).1.header.host == ""
  {
    hide ParsedRequest, Text, WellFormedField, IsHost, WellFormed;
    LowerCaseHostField();
    BareReads("GET", "host", anyMethod);
  }

  // The parser succeeds on a DELETE and stores that the method is unknown; "get" is a GET.
  lemma {:induction false} DeleteIsUnknown(anyMethod: Method)
    ensures WellFormed(Bare("DELETE", "Host")) && WellFormed(Bare("get", "Host"))
    ensures ParsedRequest(Text(Bare("DELETE", "Host")), Fresh(anyMethod))
            == (true, HttpRequest(Header(UNKNOWN, "/x", "", "HTTP/1.1", "ab", []), ""))
    ensures ParsedRequest(Text(Bare("get", "Host")), Fresh(anyMethod))
            == (true, HttpRequest(Header(GET, "/x", "", "HTTP/1.1", "ab", []), ""))
  {
    hide ParsedRequest, Text, WellFormedField, WellFormed;
    HostFieldIsWellFormed();
    BareReads("DELETE", "Host", anyMethod);
    BareReads("get", "Host", anyMethod);
  }
}
