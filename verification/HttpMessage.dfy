/** Lines, heads and bodies: how `splitstr` cuts a text made of CRLF-ended lines, an empty line
  and a body (RFC 9112, section 2.1).
 */
module HttpMessage {
  import opened HttpParser
  import opened StringSplit

  predicate NoneOf(s: string, banned: string) {
    forall k :: 0 <= k < |s| ==> s[k] !in banned
  }

  // Every line followed by CRLF.
  function Block(lines: seq<string>): string {
    if lines == [] then "" else lines[0] + CRLF + Block(lines[1..])
  }

  // A body that splits off in one piece: it does not start with CRLF (a body that is only
  // CRLF is fine), and has no empty line except at its very end.
  predicate BodyInOnePiece(body: string) {
    && !(2 < |body| && body[..2] == CRLF)
    && forall p :: 0 <= p < |body| ==> !CutsAt(body, BLANK_LINE, p)
  }

  // A separator flush with the end is not split off.
  lemma FlushSeparator(s: string, sep: string, budget: int)
    requires |sep| == 1 && sep[0] !in s
    ensures LeftmostSplit(s + sep, sep, budget) == [s + sep]
  {
  }

  lemma NoBudget(s: string, sep: string)
    requires sep != ""
    ensures LeftmostSplit(s, sep, 0) == [s]
  {
  }

  // ---------------------------------------------------------------- lines

  lemma OneCharSplit(s: string, sep: string, budget: int)
    requires |sep| == 1
    ensures WindowSplit(s, sep, budget) == LeftmostSplit(s, sep, budget)
  {
    NoOverlapNoTrouble(s, sep, budget);
  }

  lemma LineSplit(s: string, budget: int)
    ensures WindowSplit(s, CRLF, budget) == LeftmostSplit(s, CRLF, budget)
  {
    assert !BorderAt(CRLF, 1) by {
      assert CRLF[1..][0] == '\n' && CRLF[..1][0] == '\r';
    }
    NoOverlapNoTrouble(s, CRLF, budget);
  }

  // The separator of head and body does overlap itself.
  lemma BlankLineOverlaps()
    ensures SelfOverlapping(BLANK_LINE)
  {
    assert BorderAt(BLANK_LINE, 2);
  }

  predicate IsLine(line: string) {
    line != "" && NoneOf(line, "\r\n")
  }

  predicate AreLines(lines: seq<string>) {
    forall k :: 0 <= k < |lines| ==> IsLine(lines[k])
  }

  lemma ConsAppend(lines: seq<string>, rest: seq<string>)
    requires lines != []
    ensures [lines[0]] + (lines[1..] + rest) == lines + rest
  {
  }

  lemma {:induction false} SplitBlock(lines: seq<string>, final: string)
    requires AreLines(lines) && final != ""
    ensures LeftmostSplit(Block(lines) + final, CRLF, -1) == lines + LeftmostSplit(final, CRLF, -1)
  {
    hide LeftmostSplit;
    if lines == [] {
      assert Block(lines) + final == final;
    } else {
      var rest := Block(lines[1..]) + final;
      assert Block(lines) + final == lines[0] + CRLF + rest;
      assert IsLine(lines[0]);
      SplitOne(lines[0], CRLF, rest, -1);
      SplitBlock(lines[1..], final);
      ConsAppend(lines, LeftmostSplit(final, CRLF, -1));
    }
  }

  lemma {:induction false} BlockSnoc(lines: seq<string>, last: string)
    ensures Block(lines + [last]) == Block(lines) + last + CRLF
  {
    if lines == [] {
      assert lines + [last] == [last];
      assert Block([last][1..]) == "";
    } else {
      assert (lines + [last])[1..] == lines[1..] + [last];
      BlockSnoc(lines[1..], last);
    }
  }

  // Every CR of a head is followed by LF and then by something else than CR.
  predicate CrLfThenText(head: string) {
    forall p :: 0 <= p < |head| && head[p] == '\r' ==> p + 2 < |head| && head[p + 2] != '\r'
  }

  lemma {:induction false} HeadHasNoEmptyLine(lines: seq<string>, last: string)
    requires AreLines(lines) && IsLine(last)
    ensures CrLfThenText(Block(lines) + last)
    ensures (Block(lines) + last)[0] != '\r' && Block(lines) + last != ""
  {
    if lines == [] {
      assert Block(lines) + last == last;
    } else {
      var rest := Block(lines[1..]) + last;
      HeadHasNoEmptyLine(lines[1..], last);
      var line := lines[0];
      assert IsLine(line);
      var head := line + CRLF + rest;
      assert Block(lines) + last == head;
      forall p | 0 <= p < |head| && head[p] == '\r' ensures p + 2 < |head| && head[p + 2] != '\r' {
        if p >= |line| + 2 {
          assert head[p] == rest[p - |line| - 2];
        }
      }
    }
  }

  // ---------------------------------------------------------------- head and body

  lemma BlankLineChars(s: string, p: nat)
    requires CutsAt(s, BLANK_LINE, p)
    ensures p + 4 < |s| && s[p] == '\r' && s[p + 1] == '\n' && s[p + 2] == '\r' && s[p + 3] == '\n'
  {
  }

  lemma NoCutInHead(head: string, rest: string, p: nat)
    requires CrLfThenText(head) && p < |head|
    ensures !CutsAt(head + rest, BLANK_LINE, p)
  {
    var s := head + rest;
    if CutsAt(s, BLANK_LINE, p) {
      BlankLineChars(s, p);
    }
  }

  lemma NoCutAfterHead(head: string, body: string, p: nat)
    requires |head| < p && p != |head| + 2 && p < |head| + 4
    ensures !CutsAt(head + BLANK_LINE + body, BLANK_LINE, p)
  {
    var s := head + BLANK_LINE + body;
    if CutsAt(s, BLANK_LINE, p) {
      BlankLineChars(s, p);
    }
  }

  lemma CutAcrossBodyStart(head: string, body: string)
    ensures CutsAt(head + BLANK_LINE + body, BLANK_LINE, |head| + 2) <==> 2 < |body| && body[..2] == CRLF
  {
    var s, p := head + BLANK_LINE + body, |head| + 2;
    if 2 < |body| {
      assert s[p..p + 4] == CRLF + body[..2];
      assert BLANK_LINE == CRLF + CRLF;
      assert s[p..p + 4][2..] == body[..2] && BLANK_LINE[2..] == CRLF;
    }
  }

  lemma CutInBody(head: string, body: string, q: nat)
    ensures CutsAt(head + BLANK_LINE + body, BLANK_LINE, |head| + 4 + q) <==> CutsAt(body, BLANK_LINE, q)
  {
  }

  lemma {:induction false} CutsBeyondHead(head: string, body: string)
    ensures Cuts(head + BLANK_LINE + body, BLANK_LINE, |head| + 1) == [] <==> BodyInOnePiece(body)
  {
    hide CutsAt;
    var s, from := head + BLANK_LINE + body, |head| + 1;
    CutsAreTheOccurrences(s, BLANK_LINE, from);
    CutAcrossBodyStart(head, body);
    var cuts := Cuts(s, BLANK_LINE, from);
    if BodyInOnePiece(body) {
      forall p | from <= p < |s| ensures !CutsAt(s, BLANK_LINE, p) {
        if p >= |head| + 4 {
          CutInBody(head, body, p - |head| - 4);
        } else if p != |head| + 2 {
          NoCutAfterHead(head, body, p);
        }
      }
      NoCuts(s, BLANK_LINE, from);
    } else if 2 < |body| && body[..2] == CRLF {
      var two: nat := |head| + 2;
      assert two in cuts;
    } else {
      var q: nat :| q < |body| && CutsAt(body, BLANK_LINE, q);
      CutInBody(head, body, q);
      var at: nat := |head| + 4 + q;
      assert at in cuts;
    }
  }

  lemma FirstCutEndsHead(head: string, body: string)
    requires CrLfThenText(head) && body != ""
    ensures FirstCut(head + BLANK_LINE + body, BLANK_LINE, 0) == |head|
  {
    hide CrLfThenText;
    var s := head + BLANK_LINE + body;
    forall p | 0 <= p < |head| ensures !CutsAt(s, BLANK_LINE, p) {
      NoCutInHead(head, BLANK_LINE + body, p);
      assert s == head + (BLANK_LINE + body);
    }
    assert s[|head|..|head| + 4] == BLANK_LINE;
    assert CutsAt(s, BLANK_LINE, |head|);
  }

  // With a body, the first part is the head, and there are two parts exactly when the body is
  // in one piece; the second is then the body.
  lemma SplitMessage(head: string, body: string)
    requires CrLfThenText(head) && body != ""
    ensures var parts := WindowSplit(head + BLANK_LINE + body, BLANK_LINE, -1);
            && parts[0] == head
            && (if BodyInOnePiece(body) then parts == [head, body] else |parts| > 2)
  {
    hide CrLfThenText, BodyInOnePiece, Cuts, FirstCut;
    var s := head + BLANK_LINE + body;
    FirstCutEndsHead(head, body);
    WindowUnfold(s, BLANK_LINE, 0, 0, -1);
    CutsBeyondHead(head, body);
    assert Piece(s, 0, |head|) == head;
    assert Piece(s, |head| + 4, |s|) == body;
  }

  // Without a body the empty line is flush with the end, and nothing is split off.
  lemma NoFirstCut(head: string)
    requires CrLfThenText(head)
    ensures FirstCut(head + BLANK_LINE, BLANK_LINE, 0) == |head + BLANK_LINE|
  {
    hide CrLfThenText;
    forall p | 0 <= p < |head| ensures !CutsAt(head + BLANK_LINE, BLANK_LINE, p) {
      NoCutInHead(head, BLANK_LINE, p);
    }
  }

  lemma NoSplitWithoutBody(head: string)
    requires CrLfThenText(head)
    ensures WindowSplit(head + BLANK_LINE, BLANK_LINE, -1) == [head + BLANK_LINE]
  {
    hide Cuts, FirstCut;
    var s := head + BLANK_LINE;
    NoFirstCut(head);
    WindowUnfold(s, BLANK_LINE, 0, 0, -1);
    assert Piece(s, 0, |s|) == s;
  }
}
