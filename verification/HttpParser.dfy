/** `parse_http_request_header` and `parse_http_request` (socket-server-http-select.cpp:135-222).

  Both fill a caller's struct through a reference; here the struct is passed in and returned.
  `ParsedHeader` and `ParsedRequest` say what comes back, failures with partly filled fields
  included, in terms of the pieces of `WindowSplit` and the results of `StripEnds`.
 */
module HttpParser {
  import opened Option
  import opened Trimming
  import opened StringSplit

  const CRLF := "\r\n"
  const BLANK_LINE := "\r\n\r\n"

  datatype Method = GET | POST | UNKNOWN

  datatype Header = Header(
    method_: Method,
    resource: string,
    querystring: string,
    httpversion: string,
    host: string,
    accepts: seq<string>)

  datatype HttpRequest = HttpRequest(header: Header, body: string)

  // The struct as declared: empty strings, and a method no one has set yet.
  function Fresh(anyMethod: Method): HttpRequest {
    HttpRequest(Header(anyMethod, "", "", "", "", []), "")
  }

  function Lower(ch: char): char {
    if 'A' <= ch <= 'Z' then ch - 'A' + 'a' else ch
  }

  // strncasecmp(text, literal, strlen(literal)) == 0
  predicate StartsWithIgnoringCase(text: string, literal: string) {
    |literal| <= |text| && forall k :: 0 <= k < |literal| ==> Lower(text[k]) == Lower(literal[k])
  }

  function MethodOf(token: string): Method {
    if StartsWithIgnoringCase(token, "GET") then GET
    else if StartsWithIgnoringCase(token, "POST") then POST
    else UNKNOWN
  }

  // The name and value of one header line; None when no ':' splits it.
  function FieldOf(line: string): Option<(string, string)> {
    var pair := WindowSplit(line, ":", 1);
    if |pair| < 2 then None else Some((StripEnds(pair[0]), StripEnds(pair[1])))
  }

  // std::map::insert keeps the first value of a name.
  function InsertField(m: map<string, string>, field: (string, string)): map<string, string> {
    if field.0 in m then m else m[field.0 := field.1]
  }

  function FieldMap(lines: seq<string>, m: map<string, string>): Option<map<string, string>> {
    if lines == [] then Some(m)
    else
      var val := StripEnds(lines[0]);
      if val == "" then FieldMap(lines[1..], m)
      else
        match FieldOf(val)
        case None => None
        case Some(field) => FieldMap(lines[1..], InsertField(m, field))
  }

  function WithTarget(header: Header, target: string): Header {
    var pieces := WindowSplit(target, "?", 1);
    var named := header.(resource := pieces[0]);
    if |pieces| > 1 then named.(querystring := pieces[1]) else named
  }

  function WithFields(header: Header, lines: seq<string>): (bool, Header) {
    match FieldMap(lines, map[])
    case None => (false, header)
    case Some(m) => (true, header.(host := if "Host" in m then m["Host"] else ""))
  }

  function ParsedHeader(strHead: string, header: Header): (bool, Header) {
    var lines := WindowSplit(strHead, CRLF, -1);
    if |lines| < 3 then (false, header)
    else
      var info := WindowSplit(lines[0], " ", -1);
      if |info| < 3 then (false, header)
      else
        WithFields(
          WithTarget(header.(method_ := MethodOf(info[0])), info[1]).(httpversion := info[2]),
          lines[1..])
  }

  function ParsedRequest(text: string, req: HttpRequest): (bool, HttpRequest) {
    var parts := WindowSplit(text, BLANK_LINE, -1);
    var (ok, header) := ParsedHeader(parts[0], req.header);
    (ok, HttpRequest(header, if |parts| == 2 then parts[1] else req.body))
  }

  lemma SplitFits(s: string, sep: string, budget: int)
    ensures forall k :: 0 <= k < |WindowSplit(s, sep, budget)| ==> |WindowSplit(s, sep, budget)[k]| <= |s|
  {
    PiecesFit(s, |sep|, 0, Used(Cuts(s, sep, 0), budget));
    forall k | 0 <= k < |WindowSplit(s, sep, budget)| ensures |WindowSplit(s, sep, budget)[k]| <= |s| {
      assert WindowSplit(s, sep, budget)[k] in WindowSplit(s, sep, budget);
    }
  }

  method ParseField(line: string) returns (field: Option<(string, string)>)
    requires |line| <= INT_MAX
    ensures field == FieldOf(line)
  {
    SplitFits(line, ":", 1);
    var pair, count := SplitStr([], line, ":", 1);
    assert pair == WindowSplit(line, ":", 1);
    if count < 2 {
      return None;
    }
    var name := Strip(pair[0], true);
    var value := Strip(pair[1], true);
    field := Some((name, value));
  }

  method ParseTarget(header: Header, target: string) returns (named: Header)
    requires |target| <= INT_MAX
    ensures named == WithTarget(header, target)
  {
    // splitstr always pushes at least one piece, so the test for none is never taken.
    var pieces, count := SplitStr([], target, "?", 1);
    assert pieces == WindowSplit(target, "?", 1);
    named := header;
    if count > 1 {
      named := named.(querystring := pieces[1]);
    }
    named := named.(resource := pieces[0]);
  }

  lemma StripShrinks(s: string)
    ensures |StripEnds(s)| <= |s|
  {
  }

  method ParseFields(header: Header, lines: seq<string>) returns (ok: bool, filled: Header)
    requires lines != []
    requires forall k :: 0 <= k < |lines| ==> |lines[k]| <= INT_MAX
    ensures (ok, filled) == WithFields(header, lines[1..])
  {
    hide StripEnds, FieldOf;
    var mapHeader: map<string, string> := map[];
    var i := 1;
    while i < |lines|
      invariant 1 <= i <= |lines|
      invariant FieldMap(lines[1..], map[]) == FieldMap(lines[i..], mapHeader)
    {
      assert lines[i..][0] == lines[i] && lines[i..][1..] == lines[i + 1..];
      var val := Strip(lines[i], true);
      StripShrinks(lines[i]);
      if val != "" {
        var field := ParseField(val);
        if field == None {
          return false, header;
        }
        mapHeader := InsertField(mapHeader, field.value);
      }
      i := i + 1;
    }
    ok, filled := true, header.(host := if "Host" in mapHeader then mapHeader["Host"] else "");
  }

  method ParseHttpRequestHeader(strHead: string, header: Header) returns (ok: bool, filled: Header)
    requires |strHead| <= INT_MAX
    ensures (ok, filled) == ParsedHeader(strHead, header)
  {
    hide WindowSplit, WithTarget, WithFields, MethodOf;
    filled := header;
    SplitFits(strHead, CRLF, -1);
    var lines, nLines := SplitStr([], strHead, CRLF, -1);
    assert lines == WindowSplit(strHead, CRLF, -1);
    if nLines < 3 {
      return false, filled;
    }
    SplitFits(lines[0], " ", -1);
    var info, nInfo := SplitStr([], lines[0], " ", -1);
    assert info == WindowSplit(lines[0], " ", -1);
    if nInfo < 3 {
      return false, filled;
    }
    filled := filled.(method_ := MethodOf(info[0]));
    filled := ParseTarget(filled, info[1]);
    filled := filled.(httpversion := info[2]);
    ok, filled := ParseFields(filled, lines);
  }

  method ParseHttpRequest(text: string, req: HttpRequest) returns (ok: bool, filled: HttpRequest)
    requires |text| <= INT_MAX
    ensures (ok, filled) == ParsedRequest(text, req)
  {
    hide ParsedHeader;
    SplitFits(text, BLANK_LINE, -1);
    var parts, nLen := SplitStr([], text, BLANK_LINE, -1);
    assert parts == WindowSplit(text, BLANK_LINE, -1);
    filled := req;
    if nLen == 2 {
      filled := filled.(body := parts[1]);
    }
    var header;
    ok, header := ParseHttpRequestHeader(parts[0], filled.header);
    filled := filled.(header := header);
  }
}
