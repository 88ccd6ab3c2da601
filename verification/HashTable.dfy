/** The chained hash table on the heap and its external cursor (common_hashtable_dll.c:20-131). */
module HashTable {
  import opened HashFunction
  import opened TableModel

  class Node {
    const key: string
    var value: int
    var next: Node?

    constructor (key: string, value: int)
      ensures this.key == key && this.value == value && next == null
    {
      this.key, this.value, next := key, value, null;
    }
  }

  // A chain of nodes hangs off `head` in the given order and ends there.
  ghost predicate Linked(head: Node?, chain: seq<Node>)
    reads chain
  {
    && head == (if chain == [] then null else chain[0])
    && (forall i {:trigger chain[i].next} :: 0 <= i < |chain| - 1 ==> chain[i].next == chain[i + 1])
    && (chain != [] ==> chain[|chain| - 1].next == null)
  }

  ghost predicate Holds(chain: seq<Node>, entries: Chain)
    reads chain
  {
    && |chain| == |entries|
    && forall i :: 0 <= i < |chain| ==> chain[i].key == entries[i].0 && chain[i].value == entries[i].1
  }

  class Table {
    const buckets: array<Node?>
    ghost var chains: seq<seq<Node>>
    ghost var entries: Buckets
    ghost var nodes: set<Node>

    ghost predicate ChainValid(h: nat)
      requires h < buckets.Length && h < |chains| && h < |entries|
      reads this, buckets, nodes
    {
      && (forall n :: n in chains[h] ==> n in nodes)
      && Linked(buckets[h], chains[h])
      && Holds(chains[h], entries[h])
    }

    // Every bucket heads an acyclic chain whose nodes hold the bucket's entries; the entries
    // are in the bucket their key hashes to, with no key twice, so no two chains share a node.
    ghost predicate Valid()
      reads this, buckets, nodes
    {
      && buckets.Length == |chains| == HASH_SIZE
      && WellFormed(entries)
      && forall h :: 0 <= h < HASH_SIZE ==> ChainValid(h)
    }

    // hash_table_init
    constructor ()
      ensures Valid() && entries == Empty() && fresh(buckets) && nodes == {}
    {
      buckets := new Node?[HASH_SIZE];
      chains := seq(HASH_SIZE, h => []);
      entries := Empty();
      nodes := {};
      new;
      var i := 0;
      while i < HASH_SIZE
        invariant 0 <= i <= HASH_SIZE
        invariant forall h :: 0 <= h < i ==> buckets[h] == null
        modifies buckets
      {
        buckets[i] := null;
        i := i + 1;
      }
    }

    // What Valid says about one node.
    lemma NodeAt(h: nat, i: nat)
      requires Valid() && h < HASH_SIZE && i < |chains[h]|
      ensures |chains[h]| == |entries[h]| && chains[h][i] in nodes
      ensures chains[h][i].key == entries[h][i].0 && chains[h][i].value == entries[h][i].1
      ensures chains[h][i].next == if i + 1 < |chains[h]| then chains[h][i + 1] else null
    {
      assert ChainValid(h);
    }

    // What Valid says about one bucket.
    lemma BucketAt(h: nat)
      requires Valid() && h < HASH_SIZE
      ensures |chains[h]| == |entries[h]|
      ensures buckets[h] == if chains[h] == [] then null else chains[h][0]
    {
      assert ChainValid(h);
    }

    // No node occurs twice, in one chain or in two.
    lemma NodesApart(g: nat, i: nat, h: nat, j: nat)
      requires Valid() && g < HASH_SIZE && h < HASH_SIZE && i < |chains[g]| && j < |chains[h]|
      requires g != h || i != j
      ensures chains[g][i] != chains[h][j]
    {
      assert ChainValid(g) && ChainValid(h);
      assert ChainOk(entries[g], g) && ChainOk(entries[h], h);
    }

    lemma PutAt(h: nat, i: nat, key: string, value: int)
      requires Valid() && h == Hash(key) && i < |chains[h]| && chains[h][i].key == key
      ensures WellFormed(entries) && WellFormed(Put(entries, key, value)) && |entries| == HASH_SIZE
      ensures i < |entries[h]| && Put(entries, key, value) == entries[h := entries[h][i := (key, value)]]
    {
      assert ChainValid(h) && ChainOk(entries[h], h);
      ChainPutShape(entries[h], key, value, i);
      PutKeepsWellFormed(entries, key, value);
    }

    method SetValue(ghost h: nat, ghost i: nat, node: Node, key: string, value: int)
      requires Valid() && h == Hash(key) && i < |chains[h]|
      requires chains[h][i] == node && node.key == key
      modifies node`value, this`entries
      ensures Valid()
      ensures entries == Put(old(entries), key, value)
    {
      hide Put, ChainPut, WellFormed, Hash, ChainOk;
      PutAt(h, i, key, value);
      forall g, j | 0 <= g < HASH_SIZE && 0 <= j < |chains[g]| && (g != h || j != i)
        ensures chains[g][j] != node
      {
        NodesApart(g, j, h, i);
      }
      node.value := value;
      entries := Put(entries, key, value);
      forall g | 0 <= g < HASH_SIZE ensures ChainValid(g) {
        assert old(ChainValid(g));
      }
    }

    // A chain none of whose nodes has changed is as good as before.
    twostate lemma ChainKept(g: nat)
      requires buckets.Length == |chains| == |entries| == |old(chains)| == |old(entries)| == HASH_SIZE
      requires g < HASH_SIZE && old(ChainValid(g)) && old(nodes) <= nodes
      requires buckets[g] == old(buckets[g]) && chains[g] == old(chains[g]) && entries[g] == old(entries[g])
      requires forall j :: 0 <= j < |chains[g]| ==>
                 chains[g][j].next == old(chains[g][j].next) && chains[g][j].value == old(chains[g][j].value)
      ensures ChainValid(g)
    {
    }

    lemma PutAtEnd(key: string, value: int)
      requires Valid() && !HasKey(entries[Hash(key)], key)
      ensures WellFormed(entries) && WellFormed(Put(entries, key, value)) && |entries| == HASH_SIZE
      ensures Put(entries, key, value)
              == entries[Hash(key) := entries[Hash(key)] + [(key, value)]]
    {
      PutKeepsWellFormed(entries, key, value);
      ChainPutShape(entries[Hash(key)], key, value, |entries[Hash(key)]|);
    }

    lemma LastApart(h: nat)
      requires Valid() && h < HASH_SIZE && chains[h] != []
      ensures var last := |chains[h]| - 1;
              forall g, j :: 0 <= g < HASH_SIZE && 0 <= j < |chains[g]| && (g != h || j != last)
                             ==> chains[g][j] != chains[h][last]
    {
      forall g, j | 0 <= g < HASH_SIZE && 0 <= j < |chains[g]| && (g != h || j != |chains[h]| - 1)
        ensures chains[g][j] != chains[h][|chains[h]| - 1]
      {
        NodesApart(g, j, h, |chains[h]| - 1);
      }
    }

    // Hang a new node at the end of a chain that does not have the key.
    method Append(h: nat, last: Node?, key: string, value: int)
      requires Valid() && h == Hash(key) && !HasKey(entries[h], key)
      requires last == if chains[h] == [] then null else chains[h][|chains[h]| - 1]
      modifies this, buckets, nodes
      ensures Valid() && fresh(nodes - old(nodes)) && old(nodes) <= nodes
      ensures entries == Put(old(entries), key, value)
    {
      hide Put, ChainPut, WellFormed, HasKey, Hash;
      PutAtEnd(key, value);
      assert ChainValid(h);
      var node := new Node(key, value);
      if last == null {
        buckets[h] := node;
      } else {
        LastApart(h);
        last.next := node;
      }
      ghost var chain, entry := chains[h], (key, value);
      chains := chains[h := chain + [node]];
      entries := Put(entries, key, value);
      nodes := nodes + {node};
      forall g | 0 <= g < HASH_SIZE && g != h ensures ChainValid(g) {
        ChainKept(g);
      }
      assert old(Linked(buckets[h], chain) && Holds(chain, entries[h]));
      assert Linked(buckets[h], chains[h]);
      assert Holds(chains[h], old(entries)[h] + [entry]);
    }

    lemma KeyMissing(h: nat, key: string)
      requires Valid() && h < HASH_SIZE && forall j :: 0 <= j < |chains[h]| ==> chains[h][j].key != key
      ensures !HasKey(entries[h], key)
    {
      assert ChainValid(h);
    }

    method HashTablePut(key: string, value: int)
      requires Valid()
      modifies this, buckets, nodes
      ensures Valid() && fresh(nodes - old(nodes)) && old(nodes) <= nodes
      ensures entries == Put(old(entries), key, value)
    {
      var hash := HashFunc(key);
      assert ChainValid(hash);
      var node := buckets[hash];
      if node == null {
        Append(hash, null, key, value);
      } else {
        ghost var i := 0;
        while node.next != null
          invariant Valid() && entries == old(entries) && nodes == old(nodes)
          invariant i < |chains[hash]| && node == chains[hash][i]
          invariant forall j :: 0 <= j < i ==> chains[hash][j].key != key
          decreases |chains[hash]| - i
        {
          NodeAt(hash, i);
          if node.key == key {
            SetValue(hash, i, node, key, value);
            return;
          }
          node := node.next;
          i := i + 1;
        }
        NodeAt(hash, i);
        if node.key == key {
          SetValue(hash, i, node, key, value);
        } else {
          KeyMissing(hash, key);
          Append(hash, node, key, value);
        }
      }
    }

    method HashTableGet(key: string) returns (value: int)
      requires Valid()
      ensures value == Get(entries, key)
    {
      var hash := HashFunc(key);
      assert ChainValid(hash);
      var node := buckets[hash];
      ghost var i := 0;
      while node != null
        invariant i <= |chains[hash]|
        invariant node == if i < |chains[hash]| then chains[hash][i] else null
        invariant forall j :: 0 <= j < i ==> entries[hash][j].0 != key
        decreases |chains[hash]| - i
      {
        if node.key == key {
          ChainGetShape(entries[hash], key, i);
          return node.value;
        }
        node := node.next;
        i := i + 1;
      }
      ChainGetShape(entries[hash], key, i);
      value := NULL;
    }

    // The first non-empty bucket from `start` on; -1 when there is none.
    method NextNode(start: nat) returns (index: int)
      requires Valid()
      ensures -1 <= index < HASH_SIZE
      ensures index >= 0 ==> start <= index && entries[index] != []
      ensures forall h :: start <= h < (if index >= 0 then index else HASH_SIZE) ==> entries[h] == []
    {
      if start >= HASH_SIZE {
        return -1;
      }
      var i := start;
      while i < HASH_SIZE
        invariant start <= i <= HASH_SIZE
        invariant forall h :: start <= h < i ==> entries[h] == []
      {
        assert ChainValid(i);
        if buckets[i] != null {
          return i;
        }
        i := i + 1;
      }
      index := -1;
    }

    lemma NothingBefore()
      ensures Flatten(entries[..0]) == []
    {
    }

    lemma AllBuckets()
      requires Valid()
      ensures |entries| == HASH_SIZE && entries[..HASH_SIZE] == entries
    {
    }

    method Begin() returns (cursor: Cursor)
      requires Valid()
      ensures fresh(cursor) && cursor.At(this, 0)
    {
      hide Flatten, WellFormed, Table.ChainValid;
      AllBuckets();
      cursor := new Cursor();
      cursor.bucketIndex := NextNode(0);
      cursor.depth := 0;
      if cursor.bucketIndex != -1 {
        cursor.currentNode := buckets[cursor.bucketIndex];
        BucketAt(cursor.bucketIndex);
        NothingBefore();
        FlattenEmpty(entries, 0, cursor.bucketIndex);
        FlattenAt(entries, cursor.bucketIndex, 0);
      } else {
        cursor.currentNode := null;
        NothingBefore();
        FlattenEmpty(entries, 0, HASH_SIZE);
      }
    }

    method End(cursor: Cursor) returns (ended: bool)
      ensures ended <==> cursor.currentNode == null
    {
      ended := cursor.currentNode == null;
    }

    method Next(cursor: Cursor, ghost pos: nat)
      requires Valid() && cursor.At(this, pos) && cursor.currentNode != null
      modifies cursor
      ensures cursor.At(this, pos + 1)
    {
      hide Flatten, WellFormed, Table.ChainValid;
      ghost var h := cursor.bucketIndex;
      AllBuckets();
      NodeAt(h, cursor.depth);
      FlattenStep(entries, h);
      if cursor.currentNode.next == null {
        cursor.bucketIndex := NextNode(cursor.bucketIndex + 1);
        cursor.depth := 0;
        if cursor.bucketIndex == -1 || cursor.bucketIndex >= HASH_SIZE {
          cursor.currentNode := null;
          FlattenEmpty(entries, h + 1, HASH_SIZE);
        } else {
          cursor.currentNode := buckets[cursor.bucketIndex];
          BucketAt(cursor.bucketIndex);
          FlattenEmpty(entries, h + 1, cursor.bucketIndex);
          FlattenAt(entries, cursor.bucketIndex, 0);
        }
      } else {
        cursor.currentNode := cursor.currentNode.next;
        cursor.depth := cursor.depth + 1;
        FlattenAt(entries, h, cursor.depth);
      }
    }

    method CurrentValue(cursor: Cursor, ghost pos: nat) returns (entry: Pair)
      requires Valid() && cursor.At(this, pos) && cursor.currentNode != null
      ensures pos < |Flatten(entries)| && entry == Flatten(entries)[pos]
    {
      assert ChainValid(cursor.bucketIndex);
      FlattenAt(entries, cursor.bucketIndex, cursor.depth);
      entry := (cursor.currentNode.key, cursor.currentNode.value);
    }

    // begin, then next until end: every entry once, bucket by bucket and chain by chain.
    method Enumerate() returns (visited: seq<Pair>)
      requires Valid()
      ensures visited == Flatten(entries)
    {
      hide Flatten, Table.Valid, Cursor.At;
      visited := [];
      var cursor := Begin();
      var ended := End(cursor);
      ghost var all := Flatten(entries);
      cursor.Place(this, 0);
      while !ended
        invariant cursor.At(this, |visited|)
        invariant ended <==> cursor.currentNode == null
        invariant |visited| <= |all| && visited == all[..|visited|] && (ended <==> |visited| == |all|)
        decreases |all| - |visited|
      {
        var entry := CurrentValue(cursor, |visited|);
        Next(cursor, |visited|);
        cursor.Place(this, |visited| + 1);
        visited := visited + [entry];
        ended := End(cursor);
      }
    }
  }

  class Cursor {
    var bucketIndex: int
    var currentNode: Node?
    ghost var depth: nat

    constructor ()
    {
      bucketIndex, currentNode, depth := -1, null, 0;
    }

    // The cursor stands before the entry at `pos` of the flattened table, or past the last.
    ghost predicate At(table: Table, pos: nat)
      reads this, table, table.buckets, table.nodes
    {
      && table.Valid()
      && (if currentNode == null then pos == |Flatten(table.entries)|
          else
            && 0 <= bucketIndex < HASH_SIZE
            && depth < |table.chains[bucketIndex]|
            && currentNode == table.chains[bucketIndex][depth]
            && pos == |Flatten(table.entries[..bucketIndex])| + depth
            && pos < |Flatten(table.entries)|)
    }

    lemma Place(table: Table, pos: nat)
      requires At(table, pos)
      ensures pos <= |Flatten(table.entries)| && (currentNode == null <==> pos == |Flatten(table.entries)|)
    {
    }
  }
}
