/** The sliding-window splitter `splitstr` (socket-server-http-select.cpp:109-133).

  The window is compared with the separator just before the next character enters it, so an
  occurrence counts only when at least one character follows it, and the window is not emptied
  after a match, so overlapping occurrences all count.  `Cuts` and `Pieces` describe that
  behaviour for every input; the lemmas say when it is the usual leftmost split.
 */
module StringSplit {
  import opened Ordering

  // size_t is 64 bits wide.
  const SIZE_T := 0x1_0000_0000_0000_0000

  function WrapSize(x: int): nat {
    x % SIZE_T
  }

  // std::string::substr: the count is clamped to what is left.
  function Substr(s: string, pos: nat, count: nat): string
    requires pos <= |s|
  {
    if pos + count <= |s| then s[pos..pos + count] else s[pos..]
  }

  // A negative count wraps and takes the rest.
  lemma SubstrWrapped(s: string, pos: nat, count: int)
    requires pos <= |s| < SIZE_T && 0 <= pos + count && count < SIZE_T
    ensures Substr(s, pos, WrapSize(count))
            == if 0 <= count && pos + count <= |s| then s[pos..pos + count] else s[pos..]
  {
  }

  // An occurrence of `sep` that is not flush with the end of `s`.
  predicate CutsAt(s: string, sep: string, p: int) {
    0 <= p && p + |sep| < |s| && s[p..p + |sep|] == sep
  }

  // All such occurrences that start at `from` or later, in ascending order.
  function Cuts(s: string, sep: string, from: nat): seq<nat>
    decreases |s| - from
  {
    if |s| <= from then []
    else if CutsAt(s, sep, from) then [from] + Cuts(s, sep, from + 1)
    else Cuts(s, sep, from + 1)
  }

  lemma {:induction false} CutsAreTheOccurrences(s: string, sep: string, from: nat)
    ensures forall p: nat :: p in Cuts(s, sep, from) <==> from <= p && CutsAt(s, sep, p)
    ensures Ascending(Cuts(s, sep, from))
    decreases |s| - from
  {
    if from < |s| {
      hide CutsAt;
      CutsAreTheOccurrences(s, sep, from + 1);
      AscendingCons(from, Cuts(s, sep, from + 1));
    }
  }

  // A negative budget is no limit.
  function Spend(budget: int): int {
    if budget > 0 then budget - 1 else budget
  }

  function Used(cuts: seq<nat>, budget: int): seq<nat> {
    if 0 <= budget < |cuts| then cuts[..budget] else cuts
  }

  // A cut that starts before the end of the previous one makes the size_t subtraction wrap,
  // and substr then takes the whole rest.
  function Piece(s: string, pos: nat, cut: nat): string {
    if pos <= cut <= |s| then s[pos..cut] else if pos <= |s| then s[pos..] else ""
  }

  // What the loop pushes for the given cuts.
  function Pieces(s: string, width: nat, pos: nat, cuts: seq<nat>): (pieces: seq<string>)
    ensures |pieces| == |cuts| + 1
    decreases |cuts|
  {
    if cuts == [] then [Piece(s, pos, |s|)]
    else [Piece(s, pos, cuts[0])] + Pieces(s, width, cuts[0] + width, cuts[1..])
  }

  // The pieces still to come when the current piece starts at `pos` and the window at `from`.
  function WindowFrom(s: string, sep: string, pos: nat, from: nat, budget: int): (pieces: seq<string>)
    ensures pieces != []
  {
    Pieces(s, |sep|, pos, Used(Cuts(s, sep, from), budget))
  }

  function WindowSplit(s: string, sep: string, budget: int): seq<string> {
    WindowFrom(s, sep, 0, 0, budget)
  }

  lemma UsedFirst(first: nat, rest: seq<nat>, budget: int)
    ensures Used([first] + rest, budget) == if budget == 0 then [] else [first] + Used(rest, Spend(budget))
  {
  }

  lemma WindowStep(s: string, sep: string, pos: nat, from: nat, budget: int)
    requires from < |s| && budget != 0
    ensures WindowFrom(s, sep, pos, from, budget) ==
            if CutsAt(s, sep, from)
            then [Piece(s, pos, from)] + WindowFrom(s, sep, from + |sep|, from + 1, Spend(budget))
            else WindowFrom(s, sep, pos, from + 1, budget)
  {
    if CutsAt(s, sep, from) {
      var rest := Cuts(s, sep, from + 1);
      UsedFirst(from, rest, budget);
      var used := [from] + Used(rest, Spend(budget));
      assert used[1..] == Used(rest, Spend(budget));
    }
  }

  lemma WindowTests(s: string, sep: string, from: nat)
    requires from + |sep| < |s|
    ensures s[from..from + |sep|] == sep <==> CutsAt(s, sep, from)
  {
  }

  lemma {:induction false} NoCuts(s: string, sep: string, from: nat)
    requires forall p :: from <= p < |s| ==> !CutsAt(s, sep, p)
    ensures Cuts(s, sep, from) == []
    decreases |s| - from
  {
    if from < |s| {
      NoCuts(s, sep, from + 1);
    }
  }

  lemma WindowDone(s: string, sep: string, pos: nat, from: nat, budget: int)
    requires budget == 0 || from + |sep| >= |s|
    ensures WindowFrom(s, sep, pos, from, budget) == [Piece(s, pos, |s|)]
  {
    if from + |sep| >= |s| {
      NoCuts(s, sep, from);
    }
    assert Used(Cuts(s, sep, from), budget) == [];
  }

  lemma {:induction false} PiecesFit(s: string, width: nat, pos: nat, cuts: seq<nat>)
    ensures forall x :: x in Pieces(s, width, pos, cuts) ==> |x| <= |s|
    decreases |cuts|
  {
    if cuts != [] {
      PiecesFit(s, width, cuts[0] + width, cuts[1..]);
    }
  }

  lemma SubstrIsPiece(s: string, pos: nat, i: nat, width: nat)
    requires pos <= i <= |s| < SIZE_T && width <= i
    ensures Substr(s, pos, WrapSize(i - pos - width)) == Piece(s, pos, i - width)
  {
  }

  lemma SubstrRest(s: string, pos: nat)
    requires pos <= |s|
    ensures Substr(s, pos, |s| - pos) == Piece(s, pos, |s|) == s[pos..]
  {
  }

  lemma Slide(s: string, from: nat, i: nat)
    requires from < i < |s|
    ensures s[from..i][1..] + [s[i]] == s[from + 1..i + 1]
  {
  }

  lemma MoveFirst(done: seq<string>, x: string, rest: seq<string>)
    ensures done + ([x] + rest) == (done + [x]) + rest
  {
  }

  method SplitStr(prior: seq<string>, strSource: string, strSep: string, budget: int)
    returns (results: seq<string>, count: nat)
    requires strSep != "" && |strSource| < SIZE_T
    ensures results == prior + WindowSplit(strSource, strSep, budget)
    ensures count == |results|
  {
    hide Cuts, Pieces, WindowFrom, CutsAt, Piece, Substr, WrapSize;
    results := prior;
    var nMatch := budget;
    var poslast: nat := 0;
    var window: string := [];
    var i := 0;
    ghost var from: nat := 0;
    ghost var rest := WindowSplit(strSource, strSep, budget);
    while i < |strSource| && nMatch != 0
      invariant 0 <= i <= |strSource| && poslast <= i
      invariant from == if i < |strSep| then 0 else i - |strSep|
      invariant window == strSource[from..i]
      invariant rest == WindowFrom(strSource, strSep, poslast, from, nMatch)
      invariant results + rest == prior + WindowSplit(strSource, strSep, budget)
    {
      if |window| < |strSep| {
        window := window + [strSource[i]];
      } else {
        WindowStep(strSource, strSep, poslast, from, nMatch);
        WindowTests(strSource, strSep, from);
        if window == strSep {
          var piece := Substr(strSource, poslast, WrapSize(i - poslast - |strSep|));
          SubstrIsPiece(strSource, poslast, i, |strSep|);
          rest := WindowFrom(strSource, strSep, from + |strSep|, from + 1, Spend(nMatch));
          MoveFirst(results, piece, rest);
          results := results + [piece];
          poslast := i;
          if nMatch > 0 {
            nMatch := nMatch - 1;
          }
        }
        Slide(strSource, from, i);
        window := window[1..] + [strSource[i]];
        from := from + 1;
      }
      i := i + 1;
    }
    WindowDone(strSource, strSep, poslast, from, nMatch);
    SubstrRest(strSource, poslast);
    results := results + [Substr(strSource, poslast, |strSource| - poslast)];
    count := |results|;
  }

  // ---------------------------------------------------------------- leftmost split

  // The first occurrence at `from` or later that is not flush with the end; |s| if none.
  function FirstCut(s: string, sep: string, from: nat): (p: nat)
    requires from <= |s|
    ensures from <= p <= |s|
    ensures p < |s| ==> CutsAt(s, sep, p)
    ensures forall q :: from <= q < p ==> !CutsAt(s, sep, q)
    decreases |s| - from
  {
    if from == |s| || CutsAt(s, sep, from) then from else FirstCut(s, sep, from + 1)
  }

  // Find the first separator, cut there, and go on with the rest and one match less.
  function LeftmostSplit(s: string, sep: string, budget: int): (pieces: seq<string>)
    requires sep != ""
    ensures pieces != []
  {
    var p := FirstCut(s, sep, 0);
    if budget == 0 || p == |s| then [s]
    else [s[..p]] + LeftmostSplit(s[p + |sep|..], sep, Spend(budget))
  }

  // No two cuts are closer than the separator is long.
  predicate Disjoint(cuts: seq<nat>, width: nat) {
    forall j, k :: 0 <= j < k < |cuts| ==> cuts[j] + width <= cuts[k]
  }

  lemma DisjointStep(cuts: seq<nat>, width: nat)
    requires cuts != []
    ensures Disjoint(cuts, width)
            <==> Disjoint(cuts[1..], width) && (|cuts| > 1 ==> cuts[0] + width <= cuts[1])
    decreases |cuts|
  {
  }

  lemma {:induction false} CutsFirst(s: string, sep: string, from: nat)
    requires from <= |s|
    ensures var p := FirstCut(s, sep, from);
            Cuts(s, sep, from) == if p == |s| then [] else [p] + Cuts(s, sep, p + 1)
    decreases |s| - from
  {
    hide CutsAt;
    if from < |s| && !CutsAt(s, sep, from) {
      CutsFirst(s, sep, from + 1);
    }
  }

  lemma CutsAtSuffix(s: string, sep: string, pos: nat, p: nat)
    requires pos <= |s|
    ensures CutsAt(s[pos..], sep, p) <==> CutsAt(s, sep, pos + p)
  {
  }

  // Searching the rest of the text is searching the text from there on.
  lemma FirstCutSuffix(s: string, sep: string, pos: nat)
    requires pos <= |s|
    ensures pos + FirstCut(s[pos..], sep, 0) == FirstCut(s, sep, pos)
  {
    var p, q := FirstCut(s[pos..], sep, 0), FirstCut(s, sep, pos);
    CutsAtSuffix(s, sep, pos, p);
    CutsAtSuffix(s, sep, pos, q - pos);
  }

  lemma WindowUnfold(s: string, sep: string, pos: nat, from: nat, budget: int)
    requires from <= |s|
    ensures var p := FirstCut(s, sep, from);
            Used(Cuts(s, sep, from), budget)
            == (if p == |s| || budget == 0 then [] else [p] + Used(Cuts(s, sep, p + 1), Spend(budget)))
    ensures var p := FirstCut(s, sep, from);
            WindowFrom(s, sep, pos, from, budget)
            == if p == |s| || budget == 0 then [Piece(s, pos, |s|)]
               else [Piece(s, pos, p)] + WindowFrom(s, sep, p + |sep|, p + 1, Spend(budget))
  {
    CutsFirst(s, sep, from);
    var p := FirstCut(s, sep, from);
    if p != |s| {
      var rest := Cuts(s, sep, p + 1);
      UsedFirst(p, rest, budget);
      assert ([p] + Used(rest, Spend(budget)))[1..] == Used(rest, Spend(budget));
    }
  }

  // The cuts the window uses from `from` on are disjoint, and none starts before `pos`.
  predicate Clean(s: string, sep: string, pos: nat, from: nat, budget: int) {
    var used := Used(Cuts(s, sep, from), budget);
    Disjoint(used, |sep|) && (used != [] ==> pos <= used[0])
  }

  lemma NoneDisjoint(width: nat)
    ensures Disjoint([], width)
  {
  }

  lemma {:induction false} CleanStep(s: string, sep: string, pos: nat, from: nat, budget: int)
    requires pos <= |s| && from <= |s|
    ensures var p := FirstCut(s, sep, from);
            Clean(s, sep, pos, from, budget)
            <==> p == |s| || budget == 0 || (pos <= p && Clean(s, sep, p + |sep|, p + 1, Spend(budget)))
  {
    hide Cuts, CutsAt, FirstCut, WindowFrom, Used, Disjoint;
    WindowUnfold(s, sep, pos, from, budget);
    var p, used := FirstCut(s, sep, from), Used(Cuts(s, sep, from), budget);
    if p == |s| || budget == 0 {
      NoneDisjoint(|sep|);
    } else {
      assert used[1..] == Used(Cuts(s, sep, p + 1), Spend(budget));
      DisjointStep(used, |sep|);
    }
  }

  lemma CutEndsInside(s: string, sep: string, p: nat)
    requires CutsAt(s, sep, p)
    ensures p + |sep| < |s|
  {
  }

  lemma FirstCutSame(s: string, sep: string, from: nat, pos: nat)
    requires from <= |s| && from <= pos <= FirstCut(s, sep, from)
    ensures FirstCut(s, sep, pos) == FirstCut(s, sep, from)
  {
  }

  lemma {:induction false} LeftmostUnfold(s: string, sep: string, pos: nat, budget: int)
    requires sep != "" && pos <= |s|
    ensures var p := FirstCut(s, sep, pos);
            LeftmostSplit(s[pos..], sep, budget)
            == if p == |s| || budget == 0 then [s[pos..]]
               else [s[pos..p]] + LeftmostSplit(s[p + |sep|..], sep, Spend(budget))
  {
    hide FirstCut, CutsAt;
    FirstCutSuffix(s, sep, pos);
    var p := FirstCut(s, sep, pos);
    if p != |s| {
      assert s[pos..][..p - pos] == s[pos..p];
      CutEndsInside(s, sep, p);
      assert s[pos..][p - pos + |sep|..] == s[p + |sep|..];
    }
  }

  lemma LeftmostShorter(s: string, sep: string, budget: int)
    requires sep != ""
    ensures LeftmostSplit(s, sep, budget) == [s] || |LeftmostSplit(s, sep, budget)[0]| < |s|
  {
  }

  lemma ConsEqual(x: string, a: seq<string>, b: seq<string>)
    ensures [x] + a == [x] + b <==> a == b
  {
    assert ([x] + a)[1..] == a && ([x] + b)[1..] == b;
  }

  // (`from` is where the window starts looking, `pos` where the current piece starts; after a
  // cut at p they are p + 1 and p + |sep|.)
  lemma {:induction false} WindowVersusLeftmost(s: string, sep: string, pos: nat, from: nat, budget: int)
    requires sep != "" && from <= pos <= |s|
    ensures WindowFrom(s, sep, pos, from, budget) == LeftmostSplit(s[pos..], sep, budget)
            <==> Clean(s, sep, pos, from, budget)
    decreases |s| - from
  {
    hide Cuts, Pieces, WindowFrom, LeftmostSplit, Clean, FirstCut, CutsAt;
    LeftmostUnfold(s, sep, pos, budget);
    WindowUnfold(s, sep, pos, from, budget);
    CleanStep(s, sep, pos, from, budget);
    var m, p, rest := |sep|, FirstCut(s, sep, from), s[pos..];
    assert Piece(s, pos, |s|) == rest;
    if p < |s| && budget != 0 {
      var tail := WindowFrom(s, sep, p + m, p + 1, Spend(budget));
      if pos <= p {
        FirstCutSame(s, sep, from, pos);
        CutEndsInside(s, sep, p);
        WindowVersusLeftmost(s, sep, p + m, p + 1, Spend(budget));
        ConsEqual(s[pos..p], tail, LeftmostSplit(s[p + m..], sep, Spend(budget)));
      } else {
        LeftmostShorter(rest, sep, budget);
        assert ([rest] + tail)[0] == rest && |[rest] + tail| > 1;
      }
    }
  }

  // For every source, separator and budget, the window agrees with the leftmost split exactly
  // when the cuts it uses are disjoint.
  lemma WindowIsLeftmostExactly(s: string, sep: string, budget: int)
    requires sep != ""
    ensures WindowSplit(s, sep, budget) == LeftmostSplit(s, sep, budget)
            <==> Disjoint(Used(Cuts(s, sep, 0), budget), |sep|)
  {
    assert s[0..] == s;
    WindowVersusLeftmost(s, sep, 0, 0, budget);
  }

  // Some proper prefix of the separator is also a suffix of it.
  predicate BorderAt(sep: string, d: int) {
    0 < d < |sep| && sep[d..] == sep[..|sep| - d]
  }

  ghost predicate SelfOverlapping(sep: string) {
    exists d :: BorderAt(sep, d)
  }

  lemma CloseCutsMakeBorder(s: string, sep: string, p: nat, q: nat)
    requires CutsAt(s, sep, p) && CutsAt(s, sep, q) && p < q < p + |sep|
    ensures BorderAt(sep, q - p)
  {
  }

  lemma BorderOverlaps(sep: string, d: int)
    requires BorderAt(sep, d)
    ensures SelfOverlapping(sep)
  {
  }

  lemma NoOverlapNoTrouble(s: string, sep: string, budget: int)
    requires sep != "" && !SelfOverlapping(sep)
    ensures Disjoint(Used(Cuts(s, sep, 0), budget), |sep|)
    ensures WindowSplit(s, sep, budget) == LeftmostSplit(s, sep, budget)
  {
    hide Cuts, CutsAt, SelfOverlapping, WindowSplit, LeftmostSplit, BorderAt;
    var cuts := Cuts(s, sep, 0);
    var used := Used(cuts, budget);
    CutsAreTheOccurrences(s, sep, 0);
    assert forall k :: 0 <= k < |used| ==> used[k] == cuts[k] && cuts[k] in cuts;
    forall j, k | 0 <= j < k < |used| ensures used[j] + |sep| <= used[k] {
      if used[k] < used[j] + |sep| {
        CloseCutsMakeBorder(s, sep, used[j], used[k]);
        BorderOverlaps(sep, used[k] - used[j]);
      }
    }
    WindowIsLeftmostExactly(s, sep, budget);
  }

  // Two copies of the separator laid over each other, and one more character.
  function Overlaid(sep: string, d: nat): string
    requires d <= |sep|
  {
    sep + sep[|sep| - d..] + "x"
  }

  lemma OverlaidOccurrences(sep: string, d: nat)
    requires BorderAt(sep, d)
    ensures CutsAt(Overlaid(sep, d), sep, 0) && CutsAt(Overlaid(sep, d), sep, d)
  {
  }

  lemma CloseCutsNotDisjoint(s: string, sep: string, p: nat, q: nat)
    requires CutsAt(s, sep, p) && CutsAt(s, sep, q) && p < q < p + |sep|
    ensures !Disjoint(Cuts(s, sep, 0), |sep|)
  {
    CutsAreTheOccurrences(s, sep, 0);
    var cuts := Cuts(s, sep, 0);
    assert p in cuts && q in cuts;
    var j :| 0 <= j < |cuts| && cuts[j] == p;
    var k :| 0 <= k < |cuts| && cuts[k] == q;
    assert j < k;
  }

  lemma OverlapCounterexample(sep: string, d: nat)
    requires BorderAt(sep, d)
    ensures WindowSplit(Overlaid(sep, d), sep, -1) != LeftmostSplit(Overlaid(sep, d), sep, -1)
  {
    hide Cuts, CutsAt, Disjoint, WindowSplit, LeftmostSplit, Overlaid;
    OverlaidOccurrences(sep, d);
    CloseCutsNotDisjoint(Overlaid(sep, d), sep, 0, d);
    WindowIsLeftmostExactly(Overlaid(sep, d), sep, -1);
  }

  // The separators for which splitstr is a leftmost split on every source and budget are
  // exactly those that do not overlap themselves.
  lemma LeftmostForEverySource(sep: string)
    requires sep != ""
    ensures (forall s, budget :: WindowSplit(s, sep, budget) == LeftmostSplit(s, sep, budget))
            <==> !SelfOverlapping(sep)
  {
    if SelfOverlapping(sep) {
      var d :| BorderAt(sep, d);
      OverlapCounterexample(sep, d);
    } else {
      forall s, budget ensures WindowSplit(s, sep, budget) == LeftmostSplit(s, sep, budget) {
        NoOverlapNoTrouble(s, sep, budget);
      }
    }
  }

  // ---------------------------------------------------------------- joining the pieces

  function Join(pieces: seq<string>, sep: string): string {
    if pieces == [] then ""
    else if |pieces| == 1 then pieces[0]
    else pieces[0] + sep + Join(pieces[1..], sep)
  }

  lemma JoinCons(head: string, tail: seq<string>, sep: string)
    requires tail != []
    ensures Join([head] + tail, sep) == head + sep + Join(tail, sep)
  {
  }

  lemma AppendEqual(head: string, a: string, b: string)
    ensures head + a == head + b <==> a == b
  {
    assert (head + a)[|head|..] == a && (head + b)[|head|..] == b;
  }

  lemma JoinSingle(x: string, sep: string)
    ensures Join([x], sep) == x
  {
  }

  lemma CutApart(s: string, sep: string, pos: nat, p: nat)
    requires pos <= p && CutsAt(s, sep, p)
    ensures p + |sep| < |s| && Piece(s, pos, p) == s[pos..p]
    ensures s[pos..] == (s[pos..p] + sep) + s[p + |sep|..]
  {
  }

  lemma {:induction false} JoinWindow(s: string, sep: string, pos: nat, from: nat, budget: int)
    requires sep != "" && from <= |s| && pos <= |s|
    ensures Join(WindowFrom(s, sep, pos, from, budget), sep) == s[pos..] <==> Clean(s, sep, pos, from, budget)
    ensures |Join(WindowFrom(s, sep, pos, from, budget), sep)| >= |s| - pos
    decreases |s| - from
  {
    hide Cuts, Pieces, WindowFrom, Clean, FirstCut, CutsAt, Join, Piece;
    WindowUnfold(s, sep, pos, from, budget);
    CleanStep(s, sep, pos, from, budget);
    var m, p := |sep|, FirstCut(s, sep, from);
    SubstrRest(s, pos);
    JoinSingle(s[pos..], sep);
    if p < |s| && budget != 0 {
      var tail := WindowFrom(s, sep, p + m, p + 1, Spend(budget));
      CutEndsInside(s, sep, p);
      JoinCons(Piece(s, pos, p), tail, sep);
      JoinWindow(s, sep, p + m, p + 1, Spend(budget));
      if pos <= p {
        CutApart(s, sep, pos, p);
        AppendEqual(s[pos..p] + sep, Join(tail, sep), s[p + m..]);
      }
    }
  }

  // Joining undoes splitting exactly when the cuts used are disjoint.
  lemma JoinRestoresExactly(s: string, sep: string, budget: int)
    requires sep != ""
    ensures Join(WindowSplit(s, sep, budget), sep) == s
            <==> Disjoint(Used(Cuts(s, sep, 0), budget), |sep|)
  {
    JoinWindow(s, sep, 0, 0, budget);
    assert s[0..] == s;
  }

  predicate OccursAt(piece: string, sep: string, p: nat) {
    p + |sep| <= |piece| && piece[p..p + |sep|] == sep
  }

  ghost predicate OccursIn(piece: string, sep: string) {
    exists p :: OccursAt(piece, sep, p)
  }

  lemma SliceOfSlice(s: string, lo: nat, hi: nat, a: nat, b: nat)
    requires lo <= hi <= |s| && a <= b <= hi - lo
    ensures s[lo..hi][a..b] == s[lo + a..lo + b]
  {
    var x, y := s[lo..hi][a..b], s[lo + a..lo + b];
    assert |x| == |y| && forall i :: 0 <= i < |x| ==> x[i] == y[i];
  }

  lemma {:induction false} PieceIsSeparatorFree(s: string, sep: string, pos: nat, p: nat)
    requires sep != "" && pos <= p <= |s| && CutsAt(s, sep, p)
    requires forall q :: pos <= q < p ==> !CutsAt(s, sep, q)
    ensures !OccursIn(s[pos..p], sep)
  {
    var head := s[pos..p];
    if OccursIn(head, sep) {
      var q: nat :| OccursAt(head, sep, q);
      SliceOfSlice(s, pos, p, q, q + |sep|);
      assert CutsAt(s, sep, pos + q);
    }
  }

  ghost predicate SeparatorFreeButLast(pieces: seq<string>, sep: string) {
    forall k :: 0 <= k < |pieces| - 1 ==> !OccursIn(pieces[k], sep)
  }

  lemma {:induction false} CleanPiecesAreSeparatorFree(s: string, sep: string, pos: nat, from: nat, budget: int)
    requires sep != "" && from <= pos <= |s| && Clean(s, sep, pos, from, budget)
    ensures SeparatorFreeButLast(WindowFrom(s, sep, pos, from, budget), sep)
    decreases |s| - from
  {
    hide Cuts, Pieces, WindowFrom, Clean;
    WindowUnfold(s, sep, pos, from, budget);
    CleanStep(s, sep, pos, from, budget);
    var p := FirstCut(s, sep, from);
    if p < |s| && budget != 0 {
      PieceIsSeparatorFree(s, sep, pos, p);
      CleanPiecesAreSeparatorFree(s, sep, p + |sep|, p + 1, Spend(budget));
    }
  }

  // With disjoint cuts: joining restores the source, a budget n >= 0 gives at most n + 1
  // pieces, and no piece but the last contains the separator.
  lemma SplitJoinIdentity(s: string, sep: string, budget: int)
    requires sep != "" && Disjoint(Used(Cuts(s, sep, 0), budget), |sep|)
    ensures var pieces := WindowSplit(s, sep, budget);
            && Join(pieces, sep) == s
            && (budget >= 0 ==> |pieces| <= budget + 1)
            && SeparatorFreeButLast(pieces, sep)
  {
    JoinRestoresExactly(s, sep, budget);
    CleanPiecesAreSeparatorFree(s, sep, 0, 0, budget);
  }

  // ---------------------------------------------------------------- splitting a joined text

  lemma NoCutBefore(s: string, sep: string, p: nat)
    requires sep != "" && p < |s| && s[p] != sep[0]
    ensures !CutsAt(s, sep, p)
  {
  }

  // A piece free of the separator's first character is cut off right before the separator.
  lemma FirstCutAfter(piece: string, sep: string, rest: string)
    requires sep != "" && rest != "" && sep[0] !in piece
    ensures FirstCut(piece + sep + rest, sep, 0) == |piece|
  {
    var s := piece + sep + rest;
    assert s[|piece|..|piece| + |sep|] == sep;
    assert CutsAt(s, sep, |piece|);
    forall q | 0 <= q < |piece| ensures !CutsAt(s, sep, q) {
      assert s[q] == piece[q];
      NoCutBefore(s, sep, q);
    }
  }

  lemma SplitOne(piece: string, sep: string, rest: string, budget: int)
    requires sep != "" && rest != "" && sep[0] !in piece && budget != 0
    ensures LeftmostSplit(piece + sep + rest, sep, budget) == [piece] + LeftmostSplit(rest, sep, Spend(budget))
  {
    var s := piece + sep + rest;
    FirstCutAfter(piece, sep, rest);
    assert s[|piece| + |sep|..] == rest && s[..|piece|] == piece;
  }

  lemma SplitNone(s: string, sep: string, budget: int)
    requires sep != "" && sep[0] !in s
    ensures LeftmostSplit(s, sep, budget) == [s]
  {
  }
}
