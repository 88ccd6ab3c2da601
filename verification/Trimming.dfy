/** `strip` (socket-server-http-select.cpp:63-107): both the trimming mode and the mode that
  drops every blank.

  The trimming loop records the first non-blank in `start` and every later one in `end`, so
  `end` stays -1 when there is only one; the count passed to substr is then zero or wraps.
 */
module Trimming {
  import opened StringSplit

  const INT_MAX := 0x7fff_ffff

  predicate IsBlank(ch: char) {
    ch == ' ' || ch == '\n' || ch == '\r' || ch == '\t'
  }

  // Index of the first non-blank; |s| when there is none.
  function First(s: string): (i: nat)
    ensures i <= |s| && (i < |s| ==> !IsBlank(s[i]))
    ensures forall k :: 0 <= k < i ==> IsBlank(s[k])
  {
    if s == "" || !IsBlank(s[0]) then 0 else 1 + First(s[1..])
  }

  // Index of the last non-blank; -1 when there is none.
  function Last(s: string): (i: int)
    ensures -1 <= i < |s| && (0 <= i ==> !IsBlank(s[i]))
    ensures forall k :: i < k < |s| ==> IsBlank(s[k])
  {
    if s == "" || !IsBlank(s[|s| - 1]) then |s| - 1 else Last(s[..|s| - 1])
  }

  // What the trimming mode leaves.
  function StripEnds(s: string): string {
    var first, last := First(s), Last(s);
    if first < last then s[first..last + 1]
    else if first == 0 then ""
    else s[first..]
  }

  function WithoutBlanks(s: string): string {
    if s == "" then ""
    else if IsBlank(s[0]) then WithoutBlanks(s[1..])
    else [s[0]] + WithoutBlanks(s[1..])
  }

  lemma {:induction false} WithoutBlanksSnoc(s: string, ch: char)
    ensures WithoutBlanks(s + [ch]) == WithoutBlanks(s) + if IsBlank(ch) then "" else [ch]
  {
    if s == "" {
      assert s + [ch] == [ch];
      assert WithoutBlanks([ch][1..]) == "";
    } else {
      assert (s + [ch])[1..] == s[1..] + [ch];
      WithoutBlanksSnoc(s[1..], ch);
    }
  }

  lemma {:induction false} FirstLastSnoc(s: string, ch: char)
    ensures Last(s + [ch]) == if IsBlank(ch) then Last(s) else |s|
    ensures First(s + [ch]) == if First(s) < |s| || !IsBlank(ch) then First(s) else |s| + 1
  {
    var t := s + [ch];
    assert t[..|t| - 1] == s;
    assert forall k :: 0 <= k < |s| ==> t[k] == s[k];
    assert t[|s|] == ch;
    var f := First(t);
    assert f < |t| ==> !IsBlank(t[f]);
    assert First(s) < |s| ==> !IsBlank(t[First(s)]);
  }

  lemma {:induction false} SubstrOfStrip(s: string, start: nat, end: int)
    requires |s| <= INT_MAX
    requires start == if First(s) < |s| then First(s) else 0
    requires end == if First(s) < Last(s) then Last(s) else -1
    ensures start <= |s| && Substr(s, start, WrapSize(end - start + 1)) == StripEnds(s)
  {
    hide First, Last, WrapSize, Substr;
    SubstrWrapped(s, start, end - start + 1);
  }

  method Strip(source: string, bothEnds: bool) returns (result: string)
    requires |source| <= INT_MAX
    ensures result == if bothEnds then StripEnds(source) else WithoutBlanks(source)
  {
    if bothEnds {
      var start, end := -1, -1;
      var i := 0;
      while i < |source|
        invariant 0 <= i <= |source|
        invariant start == if First(source[..i]) < i then First(source[..i]) else -1
        invariant end == if First(source[..i]) < Last(source[..i]) then Last(source[..i]) else -1
      {
        var ch := source[i];
        assert source[..i + 1] == source[..i] + [ch];
        FirstLastSnoc(source[..i], ch);
        if IsBlank(ch) {
        } else if start == -1 {
          start := i;
        } else {
          end := i;
        }
        i := i + 1;
      }
      assert source[..i] == source;
      start := if start == -1 then 0 else start;
      SubstrOfStrip(source, start, end);
      result := Substr(source, start, WrapSize(end - start + 1));
    } else {
      result := "";
      var i := 0;
      while i < |source|
        invariant 0 <= i <= |source|
        invariant result == WithoutBlanks(source[..i])
      {
        var ch := source[i];
        assert source[..i + 1] == source[..i] + [ch];
        WithoutBlanksSnoc(source[..i], ch);
        if !IsBlank(ch) {
          result := result + [ch];
        }
        i := i + 1;
      }
      assert source[..i] == source;
    }
  }

  // The other mode drops the four blanks and keeps everything else, in order.
  lemma {:induction false} DropsBlanksOnly(a: string, b: string, ch: char)
    ensures WithoutBlanks(a + b) == WithoutBlanks(a) + WithoutBlanks(b)
    ensures WithoutBlanks([ch]) == if ch == ' ' || ch == '\t' || ch == '\r' || ch == '\n' then "" else [ch]
  {
    assert [ch][1..] == "";
    if a == "" {
      assert a + b == b;
    } else {
      DropsBlanksOnly(a[1..], b, ch);
      assert (a + b)[1..] == a[1..] + b;
    }
  }

  // ---------------------------------------------------------------- what strip should do

  function TrimLeft(s: string): string {
    if s != "" && IsBlank(s[0]) then TrimLeft(s[1..]) else s
  }

  function TrimRight(s: string): string {
    if s != "" && IsBlank(s[|s| - 1]) then TrimRight(s[..|s| - 1]) else s
  }

  function Trim(s: string): string {
    TrimRight(TrimLeft(s))
  }

  lemma {:induction false} TrimLeftIsDrop(s: string)
    ensures TrimLeft(s) == s[First(s)..]
  {
    if s != "" && IsBlank(s[0]) {
      TrimLeftIsDrop(s[1..]);
      assert s[1..][First(s[1..])..] == s[First(s)..];
    }
  }

  lemma {:induction false} TrimRightIsTake(s: string)
    ensures TrimRight(s) == s[..Last(s) + 1]
  {
    if s != "" && IsBlank(s[|s| - 1]) {
      TrimRightIsTake(s[..|s| - 1]);
      assert s[..|s| - 1][..Last(s) + 1] == s[..Last(s) + 1];
    }
  }

  lemma LastOfTail(s: string, first: nat)
    requires first <= Last(s)
    ensures Last(s[first..]) == Last(s) - first
  {
  }

  lemma {:induction false} TrimIsSlice(s: string)
    ensures Trim(s) == if First(s) == |s| then "" else s[First(s)..Last(s) + 1]
  {
    hide First, Last, TrimLeft, TrimRight;
    var first := First(s);
    var tail := s[first..];
    TrimLeftIsDrop(s);
    TrimRightIsTake(tail);
    if first < |s| {
      assert first <= Last(s);
      LastOfTail(s, first);
      assert tail[..Last(tail) + 1] == s[first..Last(s) + 1];
    } else {
      assert tail == "";
    }
  }

  function NonBlankCount(s: string): nat {
    if s == "" then 0 else (if IsBlank(s[0]) then 0 else 1) + NonBlankCount(s[1..])
  }

  lemma {:induction false} CountVersusEnds(s: string)
    ensures NonBlankCount(s) == 0 <==> First(s) == |s|
    ensures NonBlankCount(s) == 1 <==> First(s) == Last(s)
    ensures First(s) == |s| <==> Last(s) == -1
  {
    if s != "" {
      CountVersusEnds(s[1..]);
      assert forall k :: 0 <= k < |s| - 1 ==> s[1..][k] == s[k + 1];
      var t := Last(s[1..]);
      assert 0 <= t ==> !IsBlank(s[t + 1]);
      assert Last(s) == if 0 <= t then t + 1 else if IsBlank(s[0]) then -1 else 0;
    }
  }

  // strip trims both ends exactly when the text does not hold a single non-blank, or holds
  // one that is last but not first.
  lemma {:induction false} StripTrimsExactly(s: string)
    ensures StripEnds(s) == Trim(s)
            <==> NonBlankCount(s) != 1 || (IsBlank(s[0]) && !IsBlank(s[|s| - 1]))
  {
    CountVersusEnds(s);
    TrimIsSlice(s);
    if NonBlankCount(s) == 1 {
      assert s != "";
      assert |Trim(s)| == 1;
    }
  }

  lemma LoneCharacterIsLost()
    ensures StripEnds("a") == "" && Trim("a") == "a"
  {
    assert First("a") == 0 && Last("a") == 0;
    TrimIsSlice("a");
  }

  // A text that starts and ends with a non-blank is left alone, unless it is one character.
  lemma {:induction false} StripKeeps(before: string, core: string, after: string)
    requires forall k :: 0 <= k < |before| ==> IsBlank(before[k])
    requires forall k :: 0 <= k < |after| ==> IsBlank(after[k])
    requires core != "" && !IsBlank(core[0]) && !IsBlank(core[|core| - 1])
    ensures First(before + core + after) == |before|
    ensures Last(before + core + after) == |before| + |core| - 1
    ensures |core| > 1 ==> StripEnds(before + core + after) == core
    ensures |core| == 1 ==> StripEnds(before + core + after) == if before == "" then "" else core + after
  {
    var s := before + core + after;
    assert s[|before|] == core[0];
    assert s[|before| + |core| - 1] == core[|core| - 1];
    assert forall k :: 0 <= k < |before| ==> s[k] == before[k];
    assert forall k :: |before| + |core| <= k < |s| ==> s[k] == after[k - |before| - |core|];
    assert s[|before|..|before| + |core|] == core;
    assert s[|before|..] == core + after;
  }
}
