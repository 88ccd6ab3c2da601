/** What the chained table holds, bucket by bucket and chain by chain, and the map it stands
  for (common_hashtable_dll.c:40-73).
 */
module TableModel {
  import opened HashFunction

  type Pair = (string, int)
  type Chain = seq<Pair>
  type Buckets = seq<Chain>

  // The NULL that `hash_table_get` returns when there is no such key.
  const NULL := 0

  function ChainPut(chain: Chain, key: string, value: int): Chain {
    if chain == [] then [(key, value)]
    else if chain[0].0 == key then [(key, value)] + chain[1..]
    else [chain[0]] + ChainPut(chain[1..], key, value)
  }

  function ChainGet(chain: Chain, key: string): int {
    if chain == [] then NULL
    else if chain[0].0 == key then chain[0].1
    else ChainGet(chain[1..], key)
  }

  function Put(b: Buckets, key: string, value: int): Buckets
    requires |b| == HASH_SIZE
  {
    b[Hash(key) := ChainPut(b[Hash(key)], key, value)]
  }

  function Get(b: Buckets, key: string): int
    requires |b| == HASH_SIZE
  {
    ChainGet(b[Hash(key)], key)
  }

  function Empty(): Buckets {
    seq(HASH_SIZE, h => [])
  }

  // Every entry is in the bucket of its key's hash, and no key occurs twice in a chain.
  predicate ChainOk(chain: Chain, h: nat) {
    && (forall i :: 0 <= i < |chain| ==> Hash(chain[i].0) == h)
    && forall i, j :: 0 <= i < j < |chain| ==> chain[i].0 != chain[j].0
  }

  predicate WellFormed(b: Buckets) {
    |b| == HASH_SIZE && forall h :: 0 <= h < HASH_SIZE ==> ChainOk(b[h], h)
  }

  predicate HasKey(chain: Chain, key: string) {
    exists i :: 0 <= i < |chain| && chain[i].0 == key
  }

  lemma PutBehind(chain: Chain, i: nat, entry: Pair)
    requires 0 < i <= |chain|
    ensures i < |chain| ==> [chain[0]] + chain[1..][i - 1 := entry] == chain[i := entry]
    ensures [chain[0]] + (chain[1..] + [entry]) == chain + [entry]
  {
  }

  lemma {:induction false} ChainPutShape(chain: Chain, key: string, value: int, i: nat)
    requires i <= |chain| && forall j :: 0 <= j < i ==> chain[j].0 != key
    requires i < |chain| ==> chain[i].0 == key
    ensures ChainPut(chain, key, value)
            == if i < |chain| then chain[i := (key, value)] else chain + [(key, value)]
  {
    if i > 0 {
      var tail := chain[1..];
      assert ChainPut(chain, key, value) == [chain[0]] + ChainPut(tail, key, value);
      hide ChainPut;
      assert forall j :: 0 <= j < |tail| ==> tail[j] == chain[j + 1];
      ChainPutShape(tail, key, value, i - 1);
      PutBehind(chain, i, (key, value));
    } else if chain != [] {
      assert chain[0 := (key, value)] == [(key, value)] + chain[1..];
    }
  }

  lemma {:induction false} ChainGetShape(chain: Chain, key: string, i: nat)
    requires i <= |chain| && forall j :: 0 <= j < i ==> chain[j].0 != key
    requires i < |chain| ==> chain[i].0 == key
    ensures ChainGet(chain, key) == if i < |chain| then chain[i].1 else NULL
  {
    if i > 0 {
      var tail := chain[1..];
      assert forall j :: 0 <= j < |tail| ==> tail[j] == chain[j + 1];
      ChainGetShape(tail, key, i - 1);
    }
  }

  // The first position of a key, or the chain's length.
  function IndexOf(chain: Chain, key: string): (i: nat)
    ensures i <= |chain| && (i < |chain| ==> chain[i].0 == key)
    ensures forall j :: 0 <= j < i ==> chain[j].0 != key
  {
    if chain == [] || chain[0].0 == key then 0 else 1 + IndexOf(chain[1..], key)
  }

  lemma ChainPutOk(chain: Chain, h: nat, key: string, value: int)
    requires ChainOk(chain, h) && Hash(key) == h
    ensures ChainOk(ChainPut(chain, key, value), h)
  {
    ChainPutShape(chain, key, value, IndexOf(chain, key));
  }

  lemma ChainGetPut(chain: Chain, key: string, value: int, other: string)
    ensures ChainGet(ChainPut(chain, key, value), other) == if other == key then value else ChainGet(chain, other)
  {
  }

  lemma PutKeepsWellFormed(b: Buckets, key: string, value: int)
    requires WellFormed(b)
    ensures WellFormed(Put(b, key, value))
  {
    ChainPutOk(b[Hash(key)], Hash(key), key, value);
  }

  lemma GetAfterPut(b: Buckets, key: string, value: int, other: string)
    requires WellFormed(b)
    ensures Get(Put(b, key, value), other) == if other == key then value else Get(b, other)
  {
    ChainGetPut(b[Hash(key)], key, value, other);
  }

  // ---------------------------------------------------------------- runs of puts

  function Run(puts: seq<Pair>): (b: Buckets)
    ensures |b| == HASH_SIZE
  {
    if puts == [] then Empty()
    else Put(Run(puts[..|puts| - 1]), puts[|puts| - 1].0, puts[|puts| - 1].1)
  }

  function LastValue(puts: seq<Pair>, key: string): int {
    if puts == [] then NULL
    else if puts[|puts| - 1].0 == key then puts[|puts| - 1].1
    else LastValue(puts[..|puts| - 1], key)
  }

  // After any sequence of puts the table is well formed and `get` returns the value put last.
  lemma {:induction false} RunRefinesLastValue(puts: seq<Pair>, key: string)
    ensures WellFormed(Run(puts))
    ensures Get(Run(puts), key) == LastValue(puts, key)
  {
    if puts != [] {
      var n := |puts| - 1;
      RunRefinesLastValue(puts[..n], key);
      PutKeepsWellFormed(Run(puts[..n]), puts[n].0, puts[n].1);
      GetAfterPut(Run(puts[..n]), puts[n].0, puts[n].1, key);
    }
  }

  // ---------------------------------------------------------------- all entries in a row

  function Flatten(b: Buckets): seq<Pair> {
    if b == [] then [] else Flatten(b[..|b| - 1]) + b[|b| - 1]
  }

  lemma {:induction false} FlattenPrefix(b: Buckets, h: nat)
    requires h <= |b|
    ensures Flatten(b[..h]) <= Flatten(b)
    decreases |b|
  {
    if h < |b| {
      var n := |b| - 1;
      FlattenPrefix(b[..n], h);
      assert b[..n][..h] == b[..h];
    } else {
      assert b[..h] == b;
    }
  }

  lemma {:induction false} FlattenStep(b: Buckets, h: nat)
    requires h < |b|
    ensures Flatten(b[..h + 1]) == Flatten(b[..h]) + b[h]
  {
    assert b[..h + 1][..h] == b[..h];
  }

  lemma {:induction false} FlattenAt(b: Buckets, h: nat, i: nat)
    requires h < |b| && i < |b[h]|
    ensures |Flatten(b[..h])| + i < |Flatten(b)|
    ensures Flatten(b)[|Flatten(b[..h])| + i] == b[h][i]
  {
    FlattenStep(b, h);
    FlattenPrefix(b, h + 1);
    assert Flatten(b)[|Flatten(b[..h])| + i] == Flatten(b[..h + 1])[|Flatten(b[..h])| + i];
  }

  lemma {:induction false} FlattenEmpty(b: Buckets, lo: nat, hi: nat)
    requires lo <= hi <= |b| && forall h :: lo <= h < hi ==> b[h] == []
    ensures Flatten(b[..hi]) == Flatten(b[..lo])
    decreases hi - lo
  {
    if lo < hi {
      FlattenEmpty(b, lo, hi - 1);
      FlattenStep(b, hi - 1);
    }
  }

  lemma MoreEntries(x: seq<Pair>, x': seq<Pair>, y: seq<Pair>, y': seq<Pair>, extra: Pair)
    requires multiset(x') + multiset(y') == multiset(x) + multiset(y) + multiset{extra}
    ensures multiset(x' + y') == multiset(x + y) + multiset{extra}
  {
  }

  lemma FlattenLast(b: Buckets)
    requires b != []
    ensures Flatten(b) == Flatten(b[..|b| - 1]) + b[|b| - 1]
  {
  }

  lemma UpdatedBuckets(b: Buckets, h: nat, chain: Chain)
    requires h < |b|
    ensures var n := |b| - 1; var c := b[h := chain];
            if h == n then c[..n] == b[..n] && c[n] == chain else c[..n] == b[..n][h := chain] && c[n] == b[n]
  {
  }

  lemma {:induction false} FlattenUpdate(b: Buckets, h: nat, chain: Chain, extra: Pair)
    requires h < |b| && multiset(chain) == multiset(b[h]) + multiset{extra}
    ensures multiset(Flatten(b[h := chain])) == multiset(Flatten(b)) + multiset{extra}
  {
    hide Flatten;
    var n := |b| - 1;
    var c := b[h := chain];
    FlattenLast(b);
    FlattenLast(c);
    UpdatedBuckets(b, h, chain);
    if h == n {
      MoreEntries(Flatten(b[..n]), Flatten(b[..n]), b[n], chain, extra);
    } else {
      FlattenUpdate(b[..n], h, chain, extra);
      MoreEntries(Flatten(b[..n]), Flatten(c[..n]), b[n], b[n], extra);
    }
  }

  // A put of a new key adds one entry and keeps every other.
  lemma PutNewKey(b: Buckets, key: string, value: int)
    requires WellFormed(b) && !HasKey(b[Hash(key)], key)
    ensures multiset(Flatten(Put(b, key, value))) == multiset(Flatten(b)) + multiset{(key, value)}
  {
    var h := Hash(key);
    assert IndexOf(b[h], key) == |b[h]| by {
      if IndexOf(b[h], key) < |b[h]| {
        assert HasKey(b[h], key);
      }
    }
    ChainPutShape(b[h], key, value, |b[h]|);
    FlattenUpdate(b, h, ChainPut(b[h], key, value), (key, value));
  }

  // ---------------------------------------------------------------- the map

  predicate DistinctKeys(pairs: seq<Pair>) {
    forall i, j :: 0 <= i < j < |pairs| ==> pairs[i].0 != pairs[j].0
  }

  lemma {:induction false} FlattenFrom(b: Buckets, p: Pair)
    ensures p in Flatten(b) <==> exists h :: 0 <= h < |b| && p in b[h]
  {
    if b != [] {
      var n := |b| - 1;
      FlattenFrom(b[..n], p);
      if h :| 0 <= h < |b| && p in b[h] {
        assert h < n ==> p in b[..n][h];
      }
      if h :| 0 <= h < n && p in b[..n][h] {
        assert p in b[h];
      }
    }
  }

  lemma {:induction false} FlattenDistinct(b: Buckets)
    requires |b| <= HASH_SIZE && forall h :: 0 <= h < |b| ==> ChainOk(b[h], h)
    ensures DistinctKeys(Flatten(b))
  {
    if b != [] {
      var n := |b| - 1;
      FlattenDistinct(b[..n]);
      var earlier := Flatten(b[..n]);
      forall i | 0 <= i < |earlier| ensures Hash(earlier[i].0) < n {
        FlattenFrom(b[..n], earlier[i]);
        var h :| 0 <= h < n && earlier[i] in b[..n][h];
        var k :| 0 <= k < |b[h]| && b[h][k] == earlier[i];
        assert ChainOk(b[h], h);
      }
      assert ChainOk(b[n], n);
    }
  }

  function MapOf(pairs: seq<Pair>): map<string, int> {
    if pairs == [] then map[]
    else MapOf(pairs[..|pairs| - 1])[pairs[|pairs| - 1].0 := pairs[|pairs| - 1].1]
  }

  // The map the table stands for.
  function Contents(b: Buckets): map<string, int> {
    MapOf(Flatten(b))
  }

  predicate Represents(m: map<string, int>, pairs: seq<Pair>) {
    && |m| == |pairs|
    && (forall k :: k in m ==> (k, m[k]) in pairs)
    && forall p :: p in pairs ==> p.0 in m && m[p.0] == p.1
  }

  lemma RepresentsMore(m: map<string, int>, pairs: seq<Pair>, p: Pair)
    requires Represents(m, pairs) && forall q :: q in pairs ==> q.0 != p.0
    ensures Represents(m[p.0 := p.1], pairs + [p])
  {
  }

  lemma EmptyRepresents()
    ensures Represents(map[], [])
  {
  }

  lemma {:induction false} MapOfDistinct(pairs: seq<Pair>)
    requires DistinctKeys(pairs)
    ensures Represents(MapOf(pairs), pairs)
  {
    hide Represents;
    if pairs == [] {
      EmptyRepresents();
    } else {
      var n := |pairs| - 1;
      MapOfDistinct(pairs[..n]);
      assert pairs == pairs[..n] + [pairs[n]];
      RepresentsMore(MapOf(pairs[..n]), pairs[..n], pairs[n]);
    }
  }

  // The table's map has one binding for each entry, and no key has two.
  lemma ContentsAreEntries(b: Buckets)
    requires WellFormed(b)
    ensures |Contents(b)| == |Flatten(b)| && DistinctKeys(Flatten(b))
    ensures forall p: Pair :: p in Flatten(b) <==> p.0 in Contents(b) && Contents(b)[p.0] == p.1
  {
    FlattenDistinct(b);
    MapOfDistinct(Flatten(b));
  }

  lemma EntryInItsBucket(b: Buckets, p: Pair)
    requires WellFormed(b)
    ensures p in Flatten(b) <==> p in b[Hash(p.0)]
  {
    FlattenFrom(b, p);
    if h :| 0 <= h < |b| && p in b[h] {
      assert ChainOk(b[h], h);
    }
  }

  lemma GetIsLookup(b: Buckets, key: string)
    requires WellFormed(b)
    ensures Get(b, key) == if key in Contents(b) then Contents(b)[key] else NULL
    ensures key in Contents(b) <==> HasKey(b[Hash(key)], key)
  {
    hide Flatten, Contents, ChainGet, Hash;
    var h := Hash(key);
    var i := IndexOf(b[h], key);
    ContentsAreEntries(b);
    ChainGetShape(b[h], key, i);
    if key in Contents(b) {
      var p := (key, Contents(b)[key]);
      EntryInItsBucket(b, p);
      var j :| 0 <= j < |b[h]| && b[h][j] == p;
      assert i <= j;
    }
    if i < |b[h]| {
      EntryInItsBucket(b, b[h][i]);
      assert b[h][i] in b[h];
    }
  }

  lemma HasKeyAfterPut(chain: Chain, key: string, value: int, other: string)
    ensures HasKey(ChainPut(chain, key, value), other) <==> other == key || HasKey(chain, other)
  {
    var i := IndexOf(chain, key);
    ChainPutShape(chain, key, value, i);
    var chain' := ChainPut(chain, key, value);
    if HasKey(chain, other) {
      var j :| 0 <= j < |chain| && chain[j].0 == other;
      assert chain'[j].0 == other;
    }
    assert chain'[i].0 == key;
  }

  lemma HasKeyInBuckets(b: Buckets, key: string, value: int, other: string)
    requires WellFormed(b)
    ensures |b| == HASH_SIZE && |Put(b, key, value)| == HASH_SIZE
    ensures HasKey(Put(b, key, value)[Hash(other)], other) <==> other == key || HasKey(b[Hash(other)], other)
  {
    hide HasKey, ChainPut, Hash;
    HasKeyAfterPut(b[Hash(key)], key, value, other);
  }

  lemma PutAndLookUp(b: Buckets, key: string, value: int, other: string)
    requires WellFormed(b)
    ensures |b| == HASH_SIZE
    ensures var m := Contents(Put(b, key, value));
            && (other in m <==> other == key || other in Contents(b))
            && (other in m ==> m[other] == if other == key then value else Contents(b)[other])
  {
    assert |b| == HASH_SIZE;
    hide WellFormed, Contents, Put, Get, Hash, HasKey;
    PutKeepsWellFormed(b, key, value);
    GetIsLookup(b, other);
    GetIsLookup(Put(b, key, value), other);
    GetAfterPut(b, key, value, other);
    HasKeyInBuckets(b, key, value, other);
  }

  // A put is a map update.
  lemma PutIsUpdate(b: Buckets, key: string, value: int)
    requires WellFormed(b)
    ensures WellFormed(Put(b, key, value))
    ensures Contents(Put(b, key, value)) == Contents(b)[key := value]
  {
    assert |b| == HASH_SIZE;
    hide WellFormed, Contents, Put;
    PutKeepsWellFormed(b, key, value);
    var m := Contents(Put(b, key, value));
    forall other ensures other in m <==> other == key || other in Contents(b)
      ensures other in m ==> m[other] == if other == key then value else Contents(b)[other]
    {
      PutAndLookUp(b, key, value, other);
    }
  }
}
