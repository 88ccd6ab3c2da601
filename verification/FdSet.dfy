/** std::set<int> as the select servers use it: its elements in ascending order. */
module FdSet {
  import opened Ordering

  function Insert(fds: seq<int>, fd: int): seq<int> {
    if fds == [] then [fd]
    else if fd < fds[0] then [fd] + fds
    else if fd == fds[0] then fds
    else [fds[0]] + Insert(fds[1..], fd)
  }

  lemma {:induction false} InsertAdds(fds: seq<int>, fd: int)
    ensures forall x :: x in Insert(fds, fd) <==> x in fds || x == fd
  {
    if fds != [] && fd > fds[0] {
      InsertAdds(fds[1..], fd);
      assert fds == [fds[0]] + fds[1..];
    }
  }

  lemma {:induction false} InsertKeepsOrder(fds: seq<int>, fd: int)
    requires Ascending(fds)
    ensures Ascending(Insert(fds, fd))
  {
    if fds != [] && fd > fds[0] {
      InsertKeepsOrder(fds[1..], fd);
      InsertAdds(fds[1..], fd);
      assert forall x :: x in fds[1..] ==> fds[0] < x;
      AscendingCons(fds[0], Insert(fds[1..], fd));
    }
  }

  lemma Without(fds: seq<int>, i: nat)
    requires Ascending(fds) && i < |fds|
    ensures var r := fds[..i] + fds[i + 1..];
            Ascending(r) && forall x :: x in r <==> x in fds && x != fds[i]
  {
  }
}
