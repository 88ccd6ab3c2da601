/** `GetCodeDesc` and `__make_http_response` (socket-server-http-select.cpp:224-269), and what
  `splitstr` and `strip` make of the text they print.
 */
module HttpResponse {
  import opened Decimal
  import opened HttpMessage
  import opened HttpParser
  import opened HttpRoundTrip
  import opened Option
  import opened StringSplit
  import opened Trimming

  function GetCodeDesc(status: nat): string {
    if status == 200 then "Ok"
    else if status == 400 then "Bad Request"
    else if status == 403 then "Forbidden"
    else if status == 404 then "Not Found"
    else if status == 500 then "Internal Server Error"
    else "Not Implemented"
  }

  const SERVER_LINE := "Server: " + "Select-I/O of HTTP/1.1"
  const CONNECTION_LINE := "Connection: close"

  function StatusLine(status: nat): string {
    "HTTP/1.1 " + Digits(status) + " " + GetCodeDesc(status)
  }

  function TypeLine(contentType: string): string {
    "Content-Type: " + contentType
  }

  function LengthLine(length: nat): string {
    "Content-Length: " + Digits(length)
  }

  function MakeHttpResponse(status: nat, contentType: string, content: string): string {
    StatusLine(status) + "\r\n"
    + SERVER_LINE + "\r\n"
    + TypeLine(contentType) + "\r\n"
    + LengthLine(|content|) + "\r\n"
    + CONNECTION_LINE + "\r\n"
    + "\r\n"
    + content
  }

  // The lines a client should find in the head.
  function HeadLines(status: nat, contentType: string, length: nat): seq<string> {
    [StatusLine(status), SERVER_LINE, TypeLine(contentType), LengthLine(length), CONNECTION_LINE]
  }

  lemma DigitsAreText(n: nat)
    ensures NoneOf(Digits(n), "\r\n: \t")
  {
  }

  lemma ShortTexts()
    ensures NoneOf("Ok", "\r\n") && NoneOf("Forbidden", "\r\n") && NoneOf("Not Found", "\r\n")
  {
  }

  lemma LongTexts()
    ensures NoneOf("Bad Request", "\r\n")
  {
  }

  lemma ServerErrorTexts()
    ensures NoneOf("Internal Server Error", "\r\n") && NoneOf("Not Implemented", "\r\n")
  {
  }

  lemma DescriptionIsText(status: nat)
    ensures NoneOf(GetCodeDesc(status), "\r\n")
  {
    hide NoneOf;
    ShortTexts();
    LongTexts();
    ServerErrorTexts();
  }

  lemma NoneOfJoined(a: string, b: string, c: string, d: string)
    requires a == "HTTP/1.1 " && NoneOf(b, "\r\n: \t") && c == " " && NoneOf(d, "\r\n")
    ensures NoneOf(a + b + c + d, "\r\n")
  {
    var s := a + b + c + d;
    forall k | 0 <= k < |s| ensures s[k] !in "\r\n" {
      if |a| <= k < |a| + |b| {
        assert s[k] == b[k - |a|];
      } else if |a| + |b| < k {
        assert s[k] == d[k - |a| - |b| - 1];
      }
    }
  }

  lemma StatusLineIsLine(status: nat)
    ensures IsLine(StatusLine(status))
  {
    hide Digits, GetCodeDesc, NoneOf;
    DigitsAreText(status);
    DescriptionIsText(status);
    NoneOfJoined("HTTP/1.1 ", Digits(status), " ", GetCodeDesc(status));
  }

  lemma {:induction false} HeadLinesAreLines(status: nat, contentType: string, length: nat)
    requires NoneOf(contentType, "\r\n")
    ensures AreLines(HeadLines(status, contentType, length))
  {
    hide Digits, StatusLine;
    StatusLineIsLine(status);
    DigitsAreText(length);
    assert IsLine(TypeLine(contentType));
    assert IsLine(LengthLine(length));
  }

  function Head(status: nat, contentType: string, length: nat): string {
    var lines := HeadLines(status, contentType, length);
    Block(lines[..4]) + lines[4]
  }

  lemma {:induction false} BlockOfFour(a: string, b: string, c: string, d: string)
    ensures Block([a, b, c, d]) == a + CRLF + (b + CRLF + (c + CRLF + (d + CRLF + "")))
  {
    assert [a, b, c, d][1..] == [b, c, d];
    assert [b, c, d][1..] == [c, d];
    assert [c, d][1..] == [d];
    assert [d][1..] == [];
    assert Block([d]) == d + CRLF + "";
    assert Block([c, d]) == c + CRLF + Block([d]);
    assert Block([b, c, d]) == b + CRLF + Block([c, d]);
  }

  lemma Regrouped(a: string, b: string, c: string, d: string, e: string, content: string)
    ensures a + "\r\n" + b + "\r\n" + c + "\r\n" + d + "\r\n" + e + "\r\n" + "\r\n" + content
            == (a + CRLF + (b + CRLF + (c + CRLF + (d + CRLF + "")))) + e + BLANK_LINE + content
  {
  }

  lemma {:induction false} ResponseIsHeadAndContent(status: nat, contentType: string, content: string)
    ensures MakeHttpResponse(status, contentType, content)
            == Head(status, contentType, |content|) + BLANK_LINE + content
  {
    hide StatusLine, TypeLine, LengthLine, Block;
    var lines := HeadLines(status, contentType, |content|);
    var a, b, c, d := StatusLine(status), SERVER_LINE, TypeLine(contentType), LengthLine(|content|);
    assert lines[..4] == [a, b, c, d];
    BlockOfFour(a, b, c, d);
    Regrouped(a, b, c, d, CONNECTION_LINE, content);
  }

  // The description of each code, and of every other.
  predicate Describes(status: nat, description: string) {
    && (status == 200 ==> description == "Ok")
    && (status == 400 ==> description == "Bad Request")
    && (status == 403 ==> description == "Forbidden")
    && (status == 404 ==> description == "Not Found")
    && (status == 500 ==> description == "Internal Server Error")
    && (status !in {200, 400, 403, 404, 500} ==> description == "Not Implemented")
  }

  // The status line, cut at its first two blanks: the version, the code in decimal, and the
  // description of that code.
  lemma {:induction false} StatusLineParses(status: nat)
    ensures var words := WindowSplit(StatusLine(status), " ", 2);
            && |words| == 3 && words[0] == "HTTP/1.1"
            && AllDigits(words[1]) && Value(words[1]) == status && Describes(status, words[2])
  {
    hide LeftmostSplit, Digits, Value, WindowSplit;
    var n, text := Digits(status), GetCodeDesc(status);
    DigitsAreText(status);
    DigitsRoundTrip(status);
    OneCharSplit(StatusLine(status), " ", 2);
    assert StatusLine(status) == "HTTP/1.1" + " " + (n + " " + text);
    SplitOne("HTTP/1.1", " ", n + " " + text, 2);
    SplitOne(n, " ", text, 1);
    NoBudget(text, " ");
  }

  lemma AreLinesPrefix(lines: seq<string>, n: nat)
    requires AreLines(lines) && n <= |lines|
    ensures AreLines(lines[..n])
  {
  }

  lemma FiveLines(status: nat, contentType: string, length: nat)
    ensures |HeadLines(status, contentType, length)| == 5
  {
  }

  lemma LineHasNoCr(line: string)
    requires IsLine(line)
    ensures line != "" && CRLF[0] !in line
  {
  }

  lemma {:induction false} HeadSplits(status: nat, contentType: string, length: nat)
    requires NoneOf(contentType, "\r\n")
    ensures CrLfThenText(Head(status, contentType, length))
    ensures WindowSplit(Head(status, contentType, length), CRLF, -1) == HeadLines(status, contentType, length)
  {
    hide HeadLines, Block, LeftmostSplit, WindowSplit, IsLine, CrLfThenText;
    var lines := HeadLines(status, contentType, length);
    HeadLinesAreLines(status, contentType, length);
    FiveLines(status, contentType, length);
    var head := Head(status, contentType, length);
    AreLinesPrefix(lines, 4);
    HeadHasNoEmptyLine(lines[..4], lines[4]);
    LineSplit(head, -1);
    LineHasNoCr(lines[4]);
    SplitBlock(lines[..4], lines[4]);
    SplitNone(lines[4], CRLF, -1);
    assert lines == lines[..4] + [lines[4]];
  }

  // Splitting a response once at the empty line gives its head and its content exactly when
  // there is content; an empty one leaves the response whole.
  lemma ResponseFraming(status: nat, contentType: string, content: string)
    requires NoneOf(contentType, "\r\n")
    ensures var response := MakeHttpResponse(status, contentType, content);
            WindowSplit(response, BLANK_LINE, 1)
            == if content != "" then [Head(status, contentType, |content|), content] else [response]
  {
    hide MakeHttpResponse, Head, CrLfThenText, FirstCut, Cuts;
    var head := Head(status, contentType, |content|);
    var s := head + BLANK_LINE + content;
    ResponseIsHeadAndContent(status, contentType, content);
    HeadSplits(status, contentType, |content|);
    if content != "" {
      FirstCutEndsHead(head, content);
      WindowUnfold(s, BLANK_LINE, 0, 0, 1);
      WindowDone(s, BLANK_LINE, |head| + 4, |head| + 1, 0);
      assert Piece(s, 0, |head|) == head;
      assert Piece(s, |head| + 4, |s|) == content;
    } else {
      assert s == head + BLANK_LINE;
      NoFirstCut(head);
      WindowUnfold(s, BLANK_LINE, 0, 0, 1);
      assert Piece(s, 0, |s|) == s;
    }
  }

  const SERVER := Field("Server", " ", "Select-I/O of HTTP/1.1", "")

  const CONNECTION := Field("Connection", " ", "close", "")

  // The header fields a client should find.
  function HeadFields(contentType: string, length: nat): seq<Field> {
    [SERVER, Field("Content-Type", " ", contentType, ""), Field("Content-Length", " ", Digits(length), ""), CONNECTION]
  }

  lemma {:induction false} FourLines(a: Field, b: Field, c: Field, d: Field)
    ensures FieldLines([a, b, c, d]) == [FieldLine(a), FieldLine(b), FieldLine(c), FieldLine(d)]
  {
    hide FieldLine;
    assert [a, b, c, d][1..] == [b, c, d] && [b, c, d][1..] == [c, d] && [c, d][1..] == [d] && [d][1..] == [];
    assert FieldLines([d]) == [FieldLine(d)];
    assert FieldLines([c, d]) == [FieldLine(c), FieldLine(d)];
    assert FieldLines([b, c, d]) == [FieldLine(b), FieldLine(c), FieldLine(d)];
  }

  lemma ServerText()
    ensures NoneOf("Select-I/O of HTTP/1.1", "\r\n")
  {
  }

  lemma ServerName()
    ensures NoneOf("Server", " \t\r\n:")
  {
  }

  lemma ServerField()
    ensures WellFormedField(SERVER)
  {
    assert NoneOf(SERVER.value, "\r\n") by {
      ServerText();
    }
    hide NoneOf;
    assert NoneOf("Server", " \t\r\n:") by {
      ServerName();
    }
  }

  lemma ConnectionName()
    ensures NoneOf("Connection", " \t\r\n:")
  {
  }

  lemma ConnectionField()
    ensures WellFormedField(CONNECTION)
  {
    assert NoneOf("close", "\r\n");
    hide NoneOf;
    ConnectionName();
  }

  lemma TextLine(name: string, front: string, value: string)
    requires name + ": " == front
    ensures FieldLine(Field(name, " ", value, "")) == front + value
  {
    assert name + ":" + (" " + value + "") == name + (":" + " ") + value;
    assert ":" + " " == ": ";
  }

  lemma ServerLine()
    ensures FieldLine(SERVER) == SERVER_LINE
  {
    hide FieldLine;
    TextLine("Server", "Server: ", SERVER.value);
  }

  lemma ConnectionLine()
    ensures FieldLine(CONNECTION) == CONNECTION_LINE
  {
  }

  lemma TypeField(contentType: string)
    requires NoneOf(contentType, "\r\n")
    requires contentType != "" ==> !IsBlank(contentType[0]) && !IsBlank(contentType[|contentType| - 1])
    ensures WellFormedField(Field("Content-Type", " ", contentType, ""))
  {
  }

  lemma LengthField(length: nat)
    ensures WellFormedField(Field("Content-Length", " ", Digits(length), ""))
  {
    hide Digits;
    DigitsAreText(length);
  }

  lemma {:induction false} LinesAreFields(contentType: string, length: nat)
    ensures FieldLines(HeadFields(contentType, length))
            == [SERVER_LINE, TypeLine(contentType), LengthLine(length), CONNECTION_LINE]
  {
    hide FieldLines, FieldLine, Digits;
    var f := HeadFields(contentType, length);
    FourLines(f[0], f[1], f[2], f[3]);
    ServerLine();
    ConnectionLine();
    assert FieldLine(f[1]) == TypeLine(contentType) by {
      TextLine("Content-Type", "Content-Type: ", contentType);
    }
    assert FieldLine(f[2]) == LengthLine(length) by {
      TextLine("Content-Length", "Content-Length: ", Digits(length));
    }
  }

  lemma {:induction false} FourInserted(a: Field, b: Field, c: Field, d: Field)
    requires |a.name| > 1 && |b.name| > 1 && |c.name| > 1 && |d.name| > 1
    requires a.before != "" && b.before != "" && c.before != "" && d.before != ""
    requires a.name != b.name && a.name != c.name && a.name != d.name
    requires b.name != c.name && b.name != d.name && c.name != d.name
    ensures Inserted([a, b, c, d], map[])
            == map[a.name := a.value, b.name := b.value, c.name := c.value, d.name := d.value]
  {
    assert [a, b, c, d][1..] == [b, c, d] && [b, c, d][1..] == [c, d] && [c, d][1..] == [d] && [d][1..] == [];
    var m := map[a.name := a.value, b.name := b.value, c.name := c.value];
    assert Inserted([d], m) == m[d.name := d.value];
    assert Inserted([c, d], map[a.name := a.value, b.name := b.value]) == m[d.name := d.value];
  }

  // The head splits into its status line and four header fields, and those read back, with this
  // program's own field loop, as name and value: the length in decimal, the type as given.  An
  // empty type cannot be read back.
  lemma {:induction false} HeadParses(status: nat, contentType: string, content: string)
    requires NoneOf(contentType, "\r\n")
    requires contentType != "" ==> !IsBlank(contentType[0]) && !IsBlank(contentType[|contentType| - 1])
    ensures var lines := WindowSplit(Head(status, contentType, |content|), CRLF, -1);
            && |lines| == 5 && lines[0] == StatusLine(status)
            && AllDigits(Digits(|content|)) && Value(Digits(|content|)) == |content|
            && FieldMap(lines[1..], map[])
               == if contentType == "" then None
                  else Some(map["Server" := "Select-I/O of HTTP/1.1", "Content-Type" := contentType,
                                "Content-Length" := Digits(|content|), "Connection" := "close"])
  {
    hide WindowSplit, Digits, Value, Head, NoneOf, FieldMap, Inserted, FieldLines, TypeLine, LengthLine, StatusLine,
         WellFormedField;
    HeadSplits(status, contentType, |content|);
    DigitsRoundTrip(|content|);
    ServerField();
    ConnectionField();
    TypeField(contentType);
    LengthField(|content|);
    LinesAreFields(contentType, |content|);
    var f := HeadFields(contentType, |content|);
    assert FieldLines(f) + [] == FieldLines(f) == HeadLines(status, contentType, |content|)[1..];
    FieldsParse(f, [], map[]);
    FourInserted(f[0], f[1], f[2], f[3]);
  }
}
