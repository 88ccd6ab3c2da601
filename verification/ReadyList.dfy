/** The growable list of ready descriptors (terminal-io-epoll-et.c:24-115).  Allocation is taken
  to succeed.
 */
module ReadyList {

  datatype Event = Event(fd: int, events: int)

  predicate HasFd(list: seq<Event>, fd: int) {
    exists i :: 0 <= i < |list| && list[i].fd == fd
  }

  predicate DistinctFds(list: seq<Event>) {
    forall i, j :: 0 <= i < j < |list| ==> list[i].fd != list[j].fd
  }

  function Added(list: seq<Event>, event: Event): seq<Event> {
    if HasFd(list, event.fd) then list else list + [event]
  }

  function IndexOf(list: seq<Event>, fd: int): (i: nat)
    ensures i <= |list| && (i < |list| <==> HasFd(list, fd))
    ensures i < |list| ==> list[i].fd == fd
    ensures forall j :: 0 <= j < i ==> list[j].fd != fd
  {
    if list == [] then 0
    else if list[0].fd == fd then
      assert HasFd(list, fd);
      0
    else
      assert HasFd(list, fd) <==> HasFd(list[1..], fd) by {
        if i :| 0 <= i < |list| && list[i].fd == fd {
          assert list[1..][i - 1].fd == fd;
        }
        if i :| 0 <= i < |list[1..]| && list[1..][i].fd == fd {
          assert list[i + 1].fd == fd;
        }
      }
      1 + IndexOf(list[1..], fd)
  }

  // Removal keeps every survivor at its old index and shortens the list by one, so a hole is
  // whatever the new block happens to hold there, and the last place falls off.
  function Removed(list: seq<Event>, fd: int, block: int -> Event): seq<Event> {
    if HasFd(list, fd) then
      seq(|list| - 1, i requires 0 <= i < |list| - 1 => if list[i].fd == fd then block(i) else list[i])
    else list
  }

  function Without(list: seq<Event>, fd: int): seq<Event> {
    if list == [] then []
    else (if list[0].fd == fd then [] else [list[0]]) + Without(list[1..], fd)
  }

  lemma {:induction false} WithoutShorter(list: seq<Event>, fd: int)
    ensures |Without(list, fd)| <= |list|
    ensures !HasFd(list, fd) ==> Without(list, fd) == list
    ensures HasFd(list, fd) ==> |Without(list, fd)| < |list|
  {
    if list != [] {
      WithoutShorter(list[1..], fd);
      assert forall i :: 1 <= i < |list| ==> list[1..][i - 1] == list[i];
    }
  }

  lemma {:induction false} WithoutPrefix(list: seq<Event>, fd: int, k: nat)
    requires k <= |list| && forall j :: 0 <= j < k ==> list[j].fd != fd
    ensures Without(list, fd) == list[..k] + Without(list[k..], fd)
  {
    if k > 0 {
      WithoutPrefix(list[1..], fd, k - 1);
      assert list[1..][k - 1..] == list[k..];
      assert list[..k] == [list[0]] + list[1..][..k - 1];
    }
  }

  // Up to its first match a list stays, and the match goes.
  lemma {:induction false} WithoutFrom(list: seq<Event>, fd: int, k: nat)
    requires k < |list| && list[k].fd == fd && forall j :: 0 <= j < k ==> list[j].fd != fd
    ensures Without(list, fd) == list[..k] + Without(list[k + 1..], fd)
    ensures k == |list| - 1 ==> Without(list, fd) == list[..k]
  {
    WithoutPrefix(list, fd, k);
    assert list[k..][0] == list[k] && list[k..][1..] == list[k + 1..];
  }

  lemma {:induction false} RemovedLast(list: seq<Event>, fd: int, block: int -> Event)
    requires HasFd(list, fd) && IndexOf(list, fd) == |list| - 1
    ensures Removed(list, fd, block) == list[..|list| - 1]
  {
    hide HasFd, IndexOf;
  }

  // A block with which removing a match before the last entry goes wrong.
  lemma {:induction false} RemovedElsewhere(list: seq<Event>, fd: int, k: nat) returns (block: int -> Event)
    requires HasFd(list, fd) && k < |list| - 1 && list[k].fd == fd
    requires Without(list, fd) == list[..k] + Without(list[k + 1..], fd)
    ensures Removed(list, fd, block) != Without(list, fd)
  {
    hide HasFd, Without;
    var rest := list[k + 1..];
    block := (i: int) => Event(rest[0].fd + 1, 0);
    WithoutShorter(rest, fd);
    if HasFd(rest, fd) {
      assert |Without(list, fd)| < |list| - 1;
    } else {
      assert Removed(list, fd, block)[k] == block(k);
      assert Without(list, fd)[k] == rest[0];
    }
  }

  // Whatever the new block holds, removal deletes exactly the entries asked for: this is so
  // when the descriptor is in the last entry and in no other, and in no other case.
  lemma {:induction false} RemovalIsExactForLast(list: seq<Event>, fd: int)
    requires HasFd(list, fd)
    ensures (forall block :: Removed(list, fd, block) == Without(list, fd)) <==> IndexOf(list, fd) == |list| - 1
  {
    hide Without, Removed, HasFd;
    var k, n := IndexOf(list, fd), |list|;
    WithoutFrom(list, fd, k);
    if k == n - 1 {
      forall block ensures Removed(list, fd, block) == Without(list, fd) {
        RemovedLast(list, fd, block);
      }
    } else {
      var block := RemovedElsewhere(list, fd, k);
      assert Removed(list, fd, block) != Without(list, fd);
    }
  }

  predicate PowerOfTwo(n: nat)
    decreases n
  {
    n == 1 || (n > 1 && n % 2 == 0 && PowerOfTwo(n / 2))
  }

  lemma AddedMeans(list: seq<Event>, event: Event)
    ensures Added(list, event) == if HasFd(list, event.fd) then list else list + [event]
    ensures DistinctFds(list) ==> DistinctFds(Added(list, event))
  {
  }

  lemma SomeEntry(list: seq<Event>, fd: int)
    requires HasFd(list, fd)
    ensures list != []
  {
  }

  class ReadyFds {
    var size: int
    var capacity: int
    var curpos: int
    var epEvents: array?<Event>
    ghost var added: nat        // successful adds so far
    ghost var copied: nat       // entries copied by regrowth so far

    ghost predicate Shaped()
      reads this, epEvents
    {
      && 0 <= size <= capacity
      && (if epEvents == null then capacity == 0
          else capacity == epEvents.Length && capacity % 2 == 0 && PowerOfTwo(capacity))
    }

    ghost function Contents(): seq<Event>
      reads this, epEvents
      requires Shaped()
    {
      if epEvents == null then [] else epEvents[..size]
    }

    // Regrowth from c entries to 2c copies c, and c adds went before.
    ghost predicate Valid()
      reads this, epEvents
    {
      && Shaped()
      && copied == (if capacity == 0 then 0 else capacity - 2)
      && capacity <= 2 * added && size <= added
    }

    constructor ()
      ensures Valid() && Contents() == [] && added == 0 && copied == 0
    {
      size, capacity, curpos, epEvents := 0, 0, 0, null;
      added, copied := 0, 0;
    }

    method FdExistList(fd: int) returns (found: bool)
      requires Shaped()
      ensures found <==> HasFd(Contents(), fd)
    {
      var i := 0;
      while i < size
        invariant 0 <= i <= size
        invariant forall j :: 0 <= j < i ==> Contents()[j].fd != fd
      {
        if epEvents[i].fd == fd {
          assert Contents()[i].fd == fd;
          return true;
        }
        i := i + 1;
      }
      found := false;
    }

    // The block grows to twice its capacity, and to 2 at first; entries keep their places.
    method Grow()
      requires Valid() && capacity <= size
      modifies this, epEvents
      ensures Shaped() && capacity == (if old(capacity) == 0 then 2 else 2 * old(capacity))
      ensures Contents() == old(Contents()) && size == old(size) < capacity
      ensures epEvents != null && fresh(epEvents)
      ensures added == old(added) && curpos == old(curpos)
      ensures copied == old(copied) + size
    {
      if capacity == 0 && size == 0 {
        capacity := 1;
      }
      capacity := capacity * 2;
      var tempFds := new Event[capacity](_ => Event(0, 0));
      var i := 0;
      while i < size
        invariant 0 <= i <= size
        invariant forall j :: 0 <= j < i ==> tempFds[j] == epEvents[j]
        modifies tempFds
      {
        tempFds[i] := epEvents[i];
        i := i + 1;
      }
      assert PowerOfTwo(1);
      assert PowerOfTwo(capacity / 2);
      assert PowerOfTwo(capacity);
      epEvents := tempFds;
      copied := copied + size;
    }

    method AddFdToList(event: Event) returns (result: int)
      requires Valid()
      modifies this, epEvents
      ensures Valid()
      ensures Contents() == Added(old(Contents()), event)
      ensures DistinctFds(old(Contents())) ==> DistinctFds(Contents())
      ensures result == if HasFd(old(Contents()), event.fd) then 0 else size
      ensures added == old(added) + if HasFd(old(Contents()), event.fd) then 0 else 1
      ensures curpos == old(curpos) && (epEvents == old(epEvents) || fresh(epEvents))
      ensures added > 0 ==> copied < 2 * added
    {
      hide PowerOfTwo, HasFd, DistinctFds;
      ghost var list := Contents();
      AddedMeans(list, event);
      var found := FdExistList(event.fd);
      if found {
        return 0;
      }
      if capacity <= size {
        Grow();
      }
      epEvents[size] := event;
      size := size + 1;
      added := added + 1;
      assert Contents() == list + [event];
      result := size;
    }

    // A new block with every survivor at its old index.
    method CopySurvivors(fd: int, block: int -> Event) returns (tempFds: array<Event>)
      requires Shaped() && capacity > 0
      ensures fresh(tempFds) && tempFds.Length == capacity
      ensures forall j :: 0 <= j < size ==>
                tempFds[j] == if Contents()[j].fd == fd then block(j) else Contents()[j]
    {
      hide PowerOfTwo;
      tempFds := new Event[capacity](j => block(j));
      var i := 0;
      while i < size
        invariant 0 <= i <= size
        invariant forall j :: 0 <= j < i ==> tempFds[j] == if Contents()[j].fd == fd then block(j) else Contents()[j]
        invariant forall j :: i <= j < capacity ==> tempFds[j] == block(j)
        modifies tempFds
      {
        assert epEvents[i] == Contents()[i];
        if epEvents[i].fd != fd {
          tempFds[i] := epEvents[i];
        }
        i := i + 1;
      }
    }

    // `block` is what the new block holds before anything is copied into it.
    method RemoveFileDescriptor(fd: int, block: int -> Event) returns (result: int)
      requires Valid()
      modifies this
      ensures Valid()
      ensures Contents() == Removed(old(Contents()), fd, block)
      ensures result == if HasFd(old(Contents()), fd) then 0 else 1
      ensures capacity == old(capacity) && added == old(added) && copied == old(copied)
      ensures curpos == if HasFd(old(Contents()), fd) && old(curpos) == size then 0 else old(curpos)
      ensures epEvents == old(epEvents) || fresh(epEvents)
    {
      hide PowerOfTwo, HasFd;
      ghost var list := Contents();
      var found := FdExistList(fd);
      if !found {
        return 1;
      }
      SomeEntry(list, fd);
      var tempFds := CopySurvivors(fd, block);
      epEvents := tempFds;
      size := size - 1;
      if curpos == size {
        curpos := 0;
      }
      assert Contents() == Removed(list, fd, block);
      result := 0;
    }
  }
}
