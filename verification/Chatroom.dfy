/** The loop of the chat server (chatroom_server.c:45-123): a table from address keys to socket
  descriptors, the array of descriptors and their number, and the broadcast of every datagram.
 */
module Chatroom {
  import opened AddressKey
  import opened CString
  import opened HashFunction
  import opened HashTable
  import opened Option
  import opened TableModel

  const MAX_MSG_LEN := 1024
  const MAX_CLIENTS := 100

  datatype Send = Send(fd: int, to: Address, message: string)

  type Member = (Address, int)

  function KeyOf(m: Member): Pair {
    (Key(m.0), m.1)
  }

  function Pairs(members: seq<Member>): (pairs: seq<Pair>)
    ensures |pairs| == |members| && forall i :: 0 <= i < |members| ==> pairs[i] == KeyOf(members[i])
  {
    seq(|members|, i requires 0 <= i < |members| => KeyOf(members[i]))
  }

  // strncat(message, msg, len) stops at a NUL.
  function ChatText(from: Address, payload: string): string {
    Dotted(from) + "> " + UpToNul(payload)
  }

  // A receiver can tell who wrote what: up to the first '>' stands the sender's address, and
  // after "> " the payload up to its first NUL.
  predicate ReadsBack(text: string, from: Address, payload: string) {
    var k, m := FirstIndex(text, '>'), FirstIndex(payload, '\0');
    && InetAddr(text[..k]) == Some((from.a, from.b, from.c, from.d))
    && k + 2 <= |text| && text[k] == '>' && text[k + 1] == ' '
    && text[k + 2..] == payload[..m]
  }

  lemma {:induction false} ChatTextReadsBack(from: Address, payload: string)
    ensures ReadsBack(ChatText(from, payload), from, payload)
  {
    hide Dotted, InetAddr, UpToNul;
    DottedParses(from);
    UpToFirstNul(payload);
    var text, name := ChatText(from, payload), Dotted(from);
    var k := FirstIndex(text, '>');
    assert text[|name|] == '>' && text[|name| + 1] == ' ';
    assert k == |name| by {
      assert forall i :: 0 <= i < |name| ==> text[i] == name[i] != '>';
    }
    assert text[..k] == name;
    assert text[k + 2..] == UpToNul(payload);
  }

  // What one turn of the broadcast loop sends, from the key and descriptor in the table.
  function Delivery(text: string, entry: Pair): Send {
    match ParseKey(entry.0)
    case Some(to) => Send(entry.1, to, text)
    case None => Send(entry.1, Address(0, 0, 0, 0, 0), text)
  }

  function Deliveries(text: string, entries: seq<Pair>): (sends: seq<Send>)
    ensures |sends| == |entries|
    ensures forall i :: 0 <= i < |entries| ==> sends[i] == Delivery(text, entries[i])
  {
    seq(|entries|, i requires 0 <= i < |entries| => Delivery(text, entries[i]))
  }

  lemma DeliveriesInsert(text: string, front: seq<Pair>, x: Pair, back: seq<Pair>)
    ensures multiset(Deliveries(text, front + [x] + back))
            == multiset(Deliveries(text, front + back)) + multiset{Delivery(text, x)}
  {
    hide Delivery;
    var f, b := Deliveries(text, front), Deliveries(text, back);
    assert Deliveries(text, front + [x] + back) == f + [Delivery(text, x)] + b;
    assert Deliveries(text, front + back) == f + b;
  }

  lemma SplitMultiset(front: seq<Pair>, x: Pair, back: seq<Pair>)
    ensures multiset(front + [x] + back) == multiset(front + back) + multiset{x}
  {
  }

  lemma Cancel(a: multiset<Pair>, b: multiset<Pair>, x: Pair)
    requires a + multiset{x} == b + multiset{x}
    ensures a == b
  {
    assert a == a + multiset{x} - multiset{x} == b + multiset{x} - multiset{x} == b;
  }

  lemma SameLength(xs: seq<Pair>, ys: seq<Pair>)
    requires multiset(xs) == multiset(ys)
    ensures |xs| == |ys|
  {
    assert |multiset(xs)| == |xs| && |multiset(ys)| == |ys|;
  }

  // The same entries in another order give the same datagrams in another order.
  lemma {:induction false} DeliveriesPermute(text: string, xs: seq<Pair>, ys: seq<Pair>)
    requires multiset(xs) == multiset(ys)
    ensures multiset(Deliveries(text, xs)) == multiset(Deliveries(text, ys))
    decreases |xs|
  {
    hide Delivery, Deliveries;
    SameLength(xs, ys);
    if xs == [] {
      assert ys == [];
    } else {
      var n := |xs| - 1;
      var x, earlier := xs[n], xs[..n];
      assert x in multiset(xs);
      var j :| 0 <= j < |ys| && ys[j] == x;
      var front, back := ys[..j], ys[j + 1..];
      assert ys == front + [x] + back;
      assert xs == earlier + [x] + [] && earlier + [] == earlier;
      SplitMultiset(front, x, back);
      SplitMultiset(earlier, x, []);
      Cancel(multiset(earlier), multiset(front + back), x);
      DeliveriesInsert(text, earlier, x, []);
      DeliveriesInsert(text, front, x, back);
      DeliveriesPermute(text, earlier, front + back);
    }
  }

  // One datagram for every member.
  function ToEveryone(members: seq<Member>, text: string): (sends: seq<Send>)
    ensures |sends| == |members|
    ensures forall i :: 0 <= i < |members| ==> sends[i] == Send(members[i].1, members[i].0, text)
  {
    seq(|members|, i requires 0 <= i < |members| => Send(members[i].1, members[i].0, text))
  }

  predicate Registered(members: seq<Member>, x: Address) {
    exists i :: 0 <= i < |members| && members[i].0 == x
  }

  // Addresses and descriptors are all different, and descriptors are positive.
  predicate Distinct(members: seq<Member>) {
    && (forall i :: 0 <= i < |members| ==> members[i].1 > 0)
    && forall i, j :: 0 <= i < j < |members| ==> members[i].0 != members[j].0 && members[i].1 != members[j].1
  }

  // The table holds exactly the members' keys and descriptors.
  predicate Tabulated(entries: Buckets, members: seq<Member>) {
    WellFormed(entries) && multiset(Flatten(entries)) == multiset(Pairs(members))
  }

  lemma EntriesAreMembers(entries: Buckets, members: seq<Member>, p: Pair)
    requires Tabulated(entries, members)
    ensures p in Flatten(entries) <==> exists i :: 0 <= i < |members| && KeyOf(members[i]) == p
  {
    hide Flatten, KeyOf, WellFormed;
    assert p in Flatten(entries) <==> p in multiset(Flatten(entries));
    assert p in Pairs(members) <==> p in multiset(Pairs(members));
    assert p in Pairs(members) <==> exists i :: 0 <= i < |members| && Pairs(members)[i] == p;
  }

  // A lookup finds a value exactly for the registered addresses.
  lemma LookupFindsMembers(entries: Buckets, members: seq<Member>, x: Address)
    requires Tabulated(entries, members) && Distinct(members)
    ensures Get(entries, Key(x)) != NULL <==> Registered(members, x)
    ensures !Registered(members, x) ==> !HasKey(entries[Hash(Key(x))], Key(x))
  {
    hide Key, Flatten, Get, Hash, WellFormed, HasKey, Contents;
    ContentsAreEntries(entries);
    GetIsLookup(entries, Key(x));
    if Key(x) in Contents(entries) {
      var p := (Key(x), Contents(entries)[Key(x)]);
      assert p in Flatten(entries);
      EntriesAreMembers(entries, members, p);
      var i :| 0 <= i < |members| && KeyOf(members[i]) == p;
      KeysAreDistinct(members[i].0, x);
    }
    if i :| 0 <= i < |members| && members[i].0 == x {
      EntriesAreMembers(entries, members, KeyOf(members[i]));
      assert KeyOf(members[i]) in Flatten(entries);
    }
  }

  lemma StillDistinct(members: seq<Member>, x: Address, fd: int)
    requires Distinct(members) && !Registered(members, x) && fd > 0
    requires forall i :: 0 <= i < |members| ==> members[i].1 != fd
    ensures Distinct(members + [(x, fd)])
  {
  }

  lemma RegisterTabulates(entries: Buckets, members: seq<Member>, x: Address, fd: int)
    requires Tabulated(entries, members) && Distinct(members) && !Registered(members, x)
    ensures Tabulated(Put(entries, Key(x), fd), members + [(x, fd)])
  {
    hide Key, Flatten, Put;
    LookupFindsMembers(entries, members, x);
    PutKeepsWellFormed(entries, Key(x), fd);
    PutNewKey(entries, Key(x), fd);
    assert Pairs(members + [(x, fd)]) == Pairs(members) + [(Key(x), fd)];
  }

  lemma DeliveryToMember(m: Member, text: string)
    ensures Delivery(text, KeyOf(m)) == Send(m.1, m.0, text)
  {
    KeyRoundTrip(m.0);
  }

  lemma DeliveriesToMembers(members: seq<Member>, text: string)
    ensures Deliveries(text, Pairs(members)) == ToEveryone(members, text)
  {
    hide Delivery, KeyOf;
    forall i | 0 <= i < |members| ensures Deliveries(text, Pairs(members))[i] == ToEveryone(members, text)[i] {
      DeliveryToMember(members[i], text);
    }
  }

  // Going through the table sends to every member once, whatever the order of the buckets.
  lemma BroadcastReachesMembers(entries: Buckets, members: seq<Member>, text: string)
    requires Tabulated(entries, members)
    ensures multiset(Deliveries(text, Flatten(entries))) == multiset(ToEveryone(members, text))
  {
    hide Flatten;
    DeliveriesPermute(text, Flatten(entries), Pairs(members));
    DeliveriesToMembers(members, text);
  }

  // In the list for everyone, each member's datagram occurs once.
  lemma OnlyAt(all: seq<Send>, i: nat)
    requires i < |all| && forall j :: 0 <= j < |all| && j != i ==> all[j] != all[i]
    ensures multiset(all)[all[i]] == 1
  {
    assert all == all[..i] + [all[i]] + all[i + 1..];
    assert all[i] !in all[..i];
    assert all[i] !in all[i + 1..];
  }

  lemma OnceEach(members: seq<Member>, text: string, i: nat)
    requires Distinct(members) && i < |members|
    ensures multiset(ToEveryone(members, text))[Send(members[i].1, members[i].0, text)] == 1
  {
    hide ToEveryone;
    var all := ToEveryone(members, text);
    var one := Send(members[i].1, members[i].0, text);
    forall j | 0 <= j < |all| && j != i ensures all[j] != one {
      if j < i {
        assert members[j].0 != members[i].0;
      } else {
        assert members[i].0 != members[j].0;
      }
    }
    OnlyAt(all, i);
  }

  // The table's keys number as many as the members, and each maps to its member's descriptor.
  lemma TableAgrees(entries: Buckets, members: seq<Member>)
    requires Tabulated(entries, members)
    ensures |Contents(entries)| == |members|
    ensures forall i :: 0 <= i < |members| ==>
              Key(members[i].0) in Contents(entries) && Contents(entries)[Key(members[i].0)] == members[i].1
    ensures forall k :: k in Contents(entries) ==>
              exists i :: 0 <= i < |members| && KeyOf(members[i]) == (k, Contents(entries)[k])
  {
    hide Key, Flatten, Contents;
    ContentsAreEntries(entries);
    assert |Flatten(entries)| == |multiset(Flatten(entries))| == |Pairs(members)|;
    forall i | 0 <= i < |members|
      ensures Key(members[i].0) in Contents(entries) && Contents(entries)[Key(members[i].0)] == members[i].1
    {
      EntriesAreMembers(entries, members, KeyOf(members[i]));
    }
    forall k | k in Contents(entries)
      ensures exists i :: 0 <= i < |members| && KeyOf(members[i]) == (k, Contents(entries)[k])
    {
      EntriesAreMembers(entries, members, (k, Contents(entries)[k]));
    }
  }

  lemma EveryMemberOnce(entries: Buckets, members: seq<Member>, text: string, sent: seq<Send>)
    requires Tabulated(entries, members) && Distinct(members)
    requires sent == Deliveries(text, Flatten(entries))
    ensures |sent| == |members| && multiset(sent) == multiset(ToEveryone(members, text))
    ensures forall i :: 0 <= i < |members| ==> multiset(sent)[Send(members[i].1, members[i].0, text)] == 1
  {
    hide Key, Flatten, Delivery, ToEveryone, Distinct, Contents;
    BroadcastReachesMembers(entries, members, text);
    TableAgrees(entries, members);
    ContentsAreEntries(entries);
    forall i | 0 <= i < |members| ensures multiset(sent)[Send(members[i].1, members[i].0, text)] == 1 {
      OnceEach(members, text, i);
    }
  }

  lemma StartsTabulated()
    ensures Tabulated(Empty(), [])
  {
    var none := Empty();
    FlattenEmpty(none, 0, HASH_SIZE);
    assert none[..HASH_SIZE] == none;
  }

  class Server {
    const hashtable: Table
    const clientFds: array<int>
    var numClients: nat
    ghost var members: seq<Member>      // in the order they registered

    ghost predicate Valid()
      reads this, hashtable, hashtable.buckets, hashtable.nodes, clientFds
    {
      && hashtable.Valid()
      && clientFds.Length == MAX_CLIENTS
      && numClients == |members| <= MAX_CLIENTS
      && (forall i :: 0 <= i < numClients ==> clientFds[i] == members[i].1)
      && Distinct(members)
      && Tabulated(hashtable.entries, members)
    }

    constructor ()
      ensures Valid() && members == []
      ensures fresh(hashtable) && fresh(hashtable.buckets) && fresh(hashtable.nodes) && fresh(clientFds)
    {
      hashtable := new Table();
      clientFds := new int[MAX_CLIENTS](i => 0);
      numClients := 0;
      members := [];
      new;
      StartsTabulated();
    }

    method Register(from: Address, sock: int)
      requires Valid()
      requires sock > 0 && forall i :: 0 <= i < |members| ==> members[i].1 != sock
      modifies this, hashtable, hashtable.buckets, hashtable.nodes, clientFds
      ensures Valid() && fresh(hashtable.nodes - old(hashtable.nodes))
      ensures members == if old(|members|) < MAX_CLIENTS && !Registered(old(members), from)
                         then old(members) + [(from, sock)] else old(members)
    {
      hide Tabulated, Put, Get, Key, Distinct, Registered, Table.Valid, HasKey, Hash;
      var key := Key(from);
      LookupFindsMembers(hashtable.entries, members, from);
      var found := hashtable.HashTableGet(key);
      if numClients < MAX_CLIENTS && found == NULL {
        RegisterTabulates(hashtable.entries, members, from, sock);
        StillDistinct(members, from, sock);
        hashtable.HashTablePut(key, sock);
        clientFds[numClients] := sock;
        numClients := numClients + 1;
        members := members + [(from, sock)];
      }
    }

    method Broadcast(message: string) returns (sent: seq<Send>)
      requires Valid()
      ensures sent == Deliveries(message, Flatten(hashtable.entries))
    {
      hide Flatten, Delivery, Cursor.At, Table.Valid, Tabulated, Distinct;
      ghost var all := Flatten(hashtable.entries);
      sent := [];
      var iter := hashtable.Begin();
      var ended := hashtable.End(iter);
      iter.Place(hashtable, 0);
      assert all[..0] == [];
      while !ended
        invariant iter.At(hashtable, |sent|) && (ended <==> iter.currentNode == null)
        invariant |sent| <= |all| && (ended <==> |sent| == |all|)
        invariant sent == Deliveries(message, all[..|sent|])
        decreases |all| - |sent|
      {
        var entry := hashtable.CurrentValue(iter, |sent|);
        hashtable.Next(iter, |sent|);
        iter.Place(hashtable, |sent| + 1);
        assert all[..|sent| + 1] == all[..|sent|] + [entry];
        sent := sent + [Delivery(message, entry)];
        ended := hashtable.End(iter);
      }
      assert all[..|sent|] == all;
    }

    // One datagram: register its sender if it is new and there is room, on the fresh socket
    // `sock`, then send the text to everyone registered.
    method Receive(from: Address, payload: string, sock: int) returns (sent: seq<Send>)
      requires Valid() && |payload| < MAX_MSG_LEN
      requires sock > 0 && forall i :: 0 <= i < |members| ==> members[i].1 != sock
      modifies this, hashtable, hashtable.buckets, hashtable.nodes, clientFds
      ensures Valid() && fresh(hashtable.nodes - old(hashtable.nodes))
      ensures members == if old(|members|) < 100 && !Registered(old(members), from)
                         then old(members) + [(from, sock)] else old(members)
      ensures |sent| == numClients
      ensures forall s :: s in sent ==> ReadsBack(s.message, from, payload)
      ensures multiset(sent) == multiset(ToEveryone(members, ChatText(from, payload)))
      ensures forall i :: 0 <= i < numClients ==>
                multiset(sent)[Send(clientFds[i], members[i].0, ChatText(from, payload))] == 1
    {
      hide Tabulated, ChatText, Flatten, ToEveryone, ReadsBack, ParseKey;
      Register(from, sock);
      sent := Broadcast(ChatText(from, payload));
      EveryMemberOnce(hashtable.entries, members, ChatText(from, payload), sent);
      ChatTextReadsBack(from, payload);
    }
  }
}
