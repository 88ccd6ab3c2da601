/** Text handed on as a C string ends at its first NUL. */
module CString {

  function UpToNul(s: string): (r: string)
    ensures r <= s
    ensures '\0' !in r
    ensures r == s || s[|r|] == '\0'
  {
    if s == "" || s[0] == '\0' then "" else [s[0]] + UpToNul(s[1..])
  }

  // strchr, as an index; the length for a null pointer.
  function FirstIndex(s: string, ch: char): (i: nat)
    ensures i <= |s| && (i < |s| ==> s[i] == ch)
    ensures forall k :: 0 <= k < i ==> s[k] != ch
  {
    if s == "" || s[0] == ch then 0 else 1 + FirstIndex(s[1..], ch)
  }

  lemma {:induction false} UpToFirstNul(s: string)
    ensures UpToNul(s) == s[..FirstIndex(s, '\0')]
  {
    if s != "" && s[0] != '\0' {
      UpToFirstNul(s[1..]);
    }
  }

  // Whatever follows the first NUL is cut off.
  lemma {:induction false} CutAtNul(s: string, tail: string)
    requires '\0' !in s && (tail != "" ==> tail[0] == '\0')
    ensures UpToNul(s + tail) == s
  {
    if s == "" {
      assert s + tail == tail;
    } else {
      assert (s + tail)[1..] == s[1..] + tail;
      CutAtNul(s[1..], tail);
    }
  }

  lemma {:induction false} NoNulNoCut(s: string)
    requires '\0' !in s
    ensures UpToNul(s) == s
  {
    if s != "" {
      NoNulNoCut(s[1..]);
    }
  }
}
