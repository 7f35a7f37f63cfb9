/**
 The chained hash table every soft-state table of the daemon sits on: an array of
 bucket pointers, each the head of a singly linked chain. The same code is compiled
 twice in the system, for 128-bit and for 32-bit keys; here the key type and its hash
 are parameters.
 */
module HashTable {
  import opened Bits
  import opened Bytes

  /** One round of the key hash: fold a byte in, then shift left in 32 bits. */
  function HashStep(h: u32, b: byte): u32 {
    2 * BitXor(h, b) % 0x1_0000_0000
  }

  function HashOf(key: seq<byte>): u32 {
    if key == [] then 0 else HashStep(HashOf(key[..|key| - 1]), key[|key| - 1])
  }

  /** The byte loop of the hash, most significant byte first. */
  method Hash(key: seq<byte>) returns (h: u32)
    ensures h == HashOf(key)
  {
    h := 0;
    var n := 0;
    while n < |key|
      invariant 0 <= n <= |key|
      invariant h == HashOf(key[..n])
    {
      h := HashStep(h, key[n]);
      assert key[..n + 1][..n] == key[..n];
      n := n + 1;
    }
    assert key[..n] == key;
  }

  /** The parity, over the bytes of a key, of the bit that ends up at place `i`: each byte moves up once for itself and once for every byte behind it. */
  function Parity(key: seq<byte>, i: nat): nat {
    if key == [] then 0
    else ((if i >= |key| then Bit(key[0], i - |key|) else 0) + Parity(key[1..], i)) % 2
  }

  lemma {:induction false} ParityLast(key: seq<byte>, x: byte, i: nat)
    ensures Parity(key + [x], i) == if i == 0 then 0 else (Parity(key, i - 1) + Bit(x, i - 1)) % 2
  {
    if key == [] {
      assert key + [x] == [x] && [x][1..] == [];
    } else {
      assert (key + [x])[1..] == key[1..] + [x] && (key + [x])[0] == key[0];
      ParityLast(key[1..], x, i);
    }
  }

  /** The hash of a key without its rounds, bit by bit. */
  lemma {:induction false} HashByBit(key: seq<byte>, i: nat)
    requires i < 32
    ensures Bit(HashOf(key), i) == Parity(key, i)
  {
    if key == [] {
      BitOfZero(i);
    } else {
      var front, last := key[..|key| - 1], key[|key| - 1];
      assert key == front + [last];
      hide Bit, BitXor, Parity;
      ParityLast(front, last, i);
      BitOfShift(BitXor(HashOf(front), last), i);
      if i > 0 {
        HashByBit(front, i - 1);
        BitOfXor(HashOf(front), last, i - 1);
      }
    }
  }

  class Bucket<K, V> {
    const nid: K
    var data: V
    var next: Bucket?<K, V>

    constructor (nid: K, data: V, next: Bucket?<K, V>)
      ensures this.nid == nid && this.data == data && this.next == next
    {
      this.nid, this.data, this.next := nid, data, next;
    }
  }

  /** `c` lists, in order, exactly the buckets met by following `next` from `head`. */
  ghost predicate IsChain<K, V>(head: Bucket?<K, V>, c: seq<Bucket<K, V>>)
    reads c`next
  {
    if c == [] then head == null
    else
      && head == c[0]
      && c[|c| - 1].next == null
      && forall j | 0 <= j < |c| - 1 :: c[j].next == c[j + 1]
  }

  ghost function RemoveAt<T>(s: seq<T>, j: nat): (r: seq<T>)
    requires j < |s|
    ensures |r| == |s| - 1
    ensures forall m | 0 <= m < j :: r[m] == s[m]
    ensures forall m | j <= m < |r| :: r[m] == s[m + 1]
  {
    s[..j] + s[j + 1..]
  }

  /** `k` is the key of a bucket of `c`. */
  ghost predicate HasKey<K, V>(c: seq<Bucket<K, V>>, k: K) {
    exists j :: 0 <= j < |c| && c[j].nid == k
  }

  ghost predicate DistinctKeys<K, V>(c: seq<Bucket<K, V>>) {
    forall j, l | 0 <= j < l < |c| :: c[j].nid != c[l].nid
  }

  ghost predicate Within<K, V>(c: seq<Bucket<K, V>>, buckets: set<Bucket<K, V>>) {
    forall j | 0 <= j < |c| :: c[j] in buckets
  }

  /** Every bucket of `c` carries the data `m` has for its key. */
  ghost predicate Stores<K, V>(c: seq<Bucket<K, V>>, m: map<K, V>)
    reads c`data
  {
    forall j | 0 <= j < |c| :: c[j].nid in m && m[c[j].nid] == c[j].data
  }

  lemma HasKeyPush<K, V>(b: Bucket<K, V>, c: seq<Bucket<K, V>>, k: K)
    requires k == b.nid || HasKey(c, k)
    ensures HasKey([b] + c, k)
  {
    if k == b.nid {
      assert ([b] + c)[0].nid == k;
    } else {
      var j :| 0 <= j < |c| && c[j].nid == k;
      assert ([b] + c)[j + 1].nid == k;
    }
  }

  lemma PushKeeps<K, V>(b: Bucket<K, V>, c: seq<Bucket<K, V>>, m: map<K, V>)
    requires DistinctKeys(c) && Stores(c, m) && b.nid !in m
    ensures DistinctKeys([b] + c) && Stores([b] + c, m[b.nid := b.data])
  {
    var d := [b] + c;
    forall j, l | 0 <= j < l < |d|
      ensures d[j].nid != d[l].nid
    {
      assert d[l] == c[l - 1] && c[l - 1].nid in m;
      assert j > 0 ==> d[j] == c[j - 1];
    }
  }

  lemma HasKeyRemove<K, V>(c: seq<Bucket<K, V>>, j: nat, k: K)
    requires j < |c| && c[j].nid != k && HasKey(c, k)
    ensures HasKey(RemoveAt(c, j), k)
  {
    var m :| 0 <= m < |c| && c[m].nid == k;
    assert RemoveAt(c, j)[if m < j then m else m - 1].nid == k;
  }

  class HashTable<K(==), V> {
    const size: nat
    const hashOf: K -> u32
    const table: array<Bucket?<K, V>>
    /** The chain of every slot, head first. */
    ghost var chains: seq<seq<Bucket<K, V>>>
    /** The finite map this table stands for. */
    ghost var Contents: map<K, V>
    ghost var buckets: set<Bucket<K, V>>
    ghost var Repr: set<object>

    function Slot(k: K): (i: nat)
      requires size > 0
      ensures i < size
    {
      hashOf(k) % size
    }

    /** All the keys of chain `c` hash to slot `i`. */
    ghost predicate InSlot(i: nat, c: seq<Bucket<K, V>>)
      requires size > 0
    {
      forall j | 0 <= j < |c| :: Slot(c[j].nid) == i
    }

    ghost predicate SlotValid(i: nat)
      requires size > 0 && i < |chains| && i < table.Length
      reads this, table, chains[i]
    {
      && IsChain(table[i], chains[i])
      && DistinctKeys(chains[i])
      && InSlot(i, chains[i])
      && Stores(chains[i], Contents)
    }

    /** The links follow `cs`, slot by slot, through buckets among `buckets`. */
    ghost predicate Linked(cs: seq<seq<Bucket<K, V>>>, buckets: set<Bucket<K, V>>)
      reads table, buckets`next
    {
      && table.Length == |cs|
      && forall i | 0 <= i < |cs| :: Within(cs[i], buckets) && IsChain(table[i], cs[i])
    }

    /** What `Valid` says of chains `cs` and contents `m` apart from the links. */
    ghost predicate Parts(cs: seq<seq<Bucket<K, V>>>, m: map<K, V>, buckets: set<Bucket<K, V>>)
      reads buckets`data
    {
      && size > 0 && |cs| == size
      && (forall i | 0 <= i < size :: Within(cs[i], buckets))
      && (forall i | 0 <= i < size :: DistinctKeys(cs[i]) && InSlot(i, cs[i]) && Stores(cs[i], m))
      && (forall k | k in m :: HasKey(cs[Slot(k)], k))
    }

    ghost predicate Valid()
      reads this, Repr
      ensures Valid() ==> this in Repr && table in Repr && buckets <= Repr && size > 0
    {
      && this in Repr && table in Repr && buckets <= Repr
      && 0 < size == |chains| == table.Length
      && Linked(chains, buckets)
      && Parts(chains, Contents, buckets)
    }

    constructor (size: nat, hashOf: K -> u32)
      requires size > 0
      ensures Valid() && fresh(Repr)
      ensures this.size == size && this.hashOf == hashOf
      ensures Contents == map[]
    {
      this.size, this.hashOf := size, hashOf;
      this.table := new Bucket?<K, V>[size](_ => null);
      this.chains := seq(size, _ => []);
      this.Contents := map[];
      new;
      buckets := {};
      Repr := {this, table};
    }

    /** The invariant, slot by slot and key by key. */
    lemma SlotFacts()
      requires Valid()
      ensures |chains| == table.Length == size
      ensures forall i | 0 <= i < size :: SlotValid(i) && Within(chains[i], buckets)
      ensures forall i, j | 0 <= i < size && 0 <= j < |chains[i]| :: hashOf(chains[i][j].nid) % size == i
      ensures forall k | k in Contents :: HasKey(chains[Slot(k)], k)
    {
    }

    /** No bucket occurs twice, in one chain or in two: chains are disjoint and acyclic. */
    lemma BucketsDistinct(i: nat, j: nat, i': nat, j': nat)
      requires Valid()
      requires i < size && j < |chains[i]| && i' < size && j' < |chains[i']|
      requires (i, j) != (i', j')
      ensures chains[i][j] != chains[i'][j']
    {
      assert SlotValid(i) && SlotValid(i');
      if i == i' {
        assert chains[i][j].nid != chains[i][j'].nid;
      } else {
        assert Slot(chains[i][j].nid) != Slot(chains[i'][j'].nid);
      }
    }

    /** The traversal shared by insert, lookup and delete. */
    method Walk(k: K) returns (last: Bucket?<K, V>, ptr: Bucket?<K, V>, ghost j: nat)
      requires Valid()
      ensures j <= |chains[Slot(k)]|
      ensures ptr == null <==> j == |chains[Slot(k)]|
      ensures ptr == null <==> k !in Contents
      ensures ptr != null ==> ptr == chains[Slot(k)][j] && ptr.nid == k
      ensures last == if j == 0 then null else chains[Slot(k)][j - 1]
      ensures last != null ==> last in buckets
    {
      last, ptr, j := null, table[Slot(k)], 0;
      ghost var c := chains[Slot(k)];
      assert SlotValid(Slot(k)) && Within(c, buckets);
      while ptr != null && ptr.nid != k
        invariant j <= |c|
        invariant ptr == if j < |c| then c[j] else null
        invariant last == if j == 0 then null else c[j - 1]
        invariant forall m | 0 <= m < j :: c[m].nid != k
        decreases |c| - j
      {
        last, ptr, j := ptr, ptr.next, j + 1;
      }
    }

    method Lookup(k: K) returns (r: Option<V>)
      requires Valid()
      ensures r == if k in Contents then Some(Contents[k]) else None
    {
      var _, ptr, _ := Walk(k);
      assert SlotValid(Slot(k));
      r := if ptr == null then None else Some(ptr.data);
    }

    /** Returns the data replaced; on a fresh key, the data just stored. */
    method Insert(k: K, v: V) returns (r: V)
      requires Valid()
      modifies Repr
      ensures Valid() && fresh(Repr - old(Repr))
      ensures Contents == old(Contents)[k := v]
      ensures r == if k in old(Contents) then old(Contents)[k] else v
      ensures k in old(Contents) ==> chains == old(chains)
      ensures k !in old(Contents) ==>
                exists b :: fresh(b) && chains == old(chains)[Slot(k) := [b] + old(chains)[Slot(k)]]
    {
      var _, ptr, j := Walk(k);
      assert SlotValid(Slot(k));
      if ptr != null {
        r := ptr.data;
        StoreData(k, v, ptr, j);
      } else {
        var b := PushHead(k, v);
        assert fresh(b);
        r := v;
      }
    }

    /** Overwrites the data of the bucket that holds `k`. */
    method StoreData(k: K, v: V, ptr: Bucket<K, V>, ghost j: nat)
      requires Valid() && k in Contents
      requires j < |chains[Slot(k)]| && ptr == chains[Slot(k)][j] && ptr.nid == k
      modifies Repr
      ensures Valid() && Repr == old(Repr) && chains == old(chains)
      ensures Contents == old(Contents)[k := v]
    {
      assert Within(chains[Slot(k)], buckets);
      forall i | 0 <= i < size
        ensures DistinctKeys(chains[i]) && InSlot(i, chains[i]) && Stores(chains[i], Contents)
      {
        assert SlotValid(i);
      }
      hide Linked;
      ptr.data := v;
      Contents := Contents[k := v];
      forall i | 0 <= i < size
        ensures Stores(chains[i], Contents)
      {
        assert InSlot(i, chains[i]) && DistinctKeys(chains[i]);
        assert forall l | 0 <= l < |chains[i]| :: chains[i][l] == ptr || chains[i][l].nid != k;
      }
    }

    /** Allocates a bucket for a key that is not in the table and makes it the head of its chain. */
    method PushHead(k: K, v: V) returns (b: Bucket<K, V>)
      requires Valid() && k !in Contents
      modifies Repr
      ensures Valid() && fresh(Repr - old(Repr))
      ensures Contents == old(Contents)[k := v]
      ensures fresh(b) && chains == old(chains)[Slot(k) := [b] + old(chains)[Slot(k)]]
    {
      hide Parts, Linked;
      b := NewHead(k, v);
      PushedParts(chains, Contents, buckets, b);
      chains := chains[Slot(k) := [b] + chains[Slot(k)]];
      Contents := Contents[k := v];
      buckets := buckets + {b};
      Repr := Repr + {b};
    }

    /** The allocation and the one pointer write of an insertion. */
    method NewHead(k: K, v: V) returns (b: Bucket<K, V>)
      requires Valid()
      modifies table
      ensures fresh(b) && b.nid == k && b.data == v
      ensures Linked(chains[Slot(k) := [b] + chains[Slot(k)]], buckets + {b})
    {
      hide Parts;
      b := new Bucket(k, v, table[Slot(k)]);
      table[Slot(k)] := b;
    }

    /** Adding one bucket in front of its chain, and its key to the contents. */
    lemma PushedParts(cs: seq<seq<Bucket<K, V>>>, m: map<K, V>, buckets: set<Bucket<K, V>>, b: Bucket<K, V>)
      requires Parts(cs, m, buckets) && b.nid !in m
      ensures Parts(cs[Slot(b.nid) := [b] + cs[Slot(b.nid)]], m[b.nid := b.data], buckets + {b})
    {
      var s := Slot(b.nid);
      var cs', m' := cs[s := [b] + cs[s]], m[b.nid := b.data];
      PushKeeps(b, cs[s], m);
      forall i | 0 <= i < size
        ensures DistinctKeys(cs'[i]) && InSlot(i, cs'[i]) && Stores(cs'[i], m')
      {
        assert DistinctKeys(cs[i]) && InSlot(i, cs[i]) && Stores(cs[i], m);
      }
      forall k | k in m'
        ensures HasKey(cs'[Slot(k)], k)
      {
        if Slot(k) == s {
          HasKeyPush(b, cs[s], k);
        }
      }
    }

    /** Unlinks the bucket of `k`, at the head or after its predecessor. */
    method Del(k: K) returns (r: Option<V>)
      requires Valid()
      modifies Repr
      ensures Valid() && Repr == old(Repr)
      ensures Contents == old(Contents) - {k}
      ensures r == if k in old(Contents) then Some(old(Contents)[k]) else None
      ensures k !in old(Contents) ==> chains == old(chains)
      ensures k in old(Contents) ==> exists j ::
                  && 0 <= j < |old(chains)[Slot(k)]| && old(chains)[Slot(k)][j].nid == k
                  && chains == old(chains)[Slot(k) := RemoveAt(old(chains)[Slot(k)], j)]
    {
      var last, ptr, j := Walk(k);
      assert SlotValid(Slot(k));
      if ptr == null {
        assert Contents - {k} == Contents;
        r := None;
      } else {
        r := Some(ptr.data);
        Unlink(k, last, ptr, j);
      }
    }

    lemma OnlyHere(i: nat, j: nat)
      requires Valid() && i < size && j < |chains[i]|
      ensures forall l | 0 <= l < size && l != i :: chains[i][j] !in chains[l]
    {
      forall l, m | 0 <= l < size && l != i && 0 <= m < |chains[l]|
        ensures chains[i][j] != chains[l][m]
      {
        BucketsDistinct(i, j, l, m);
      }
    }

    /** Deletion at the head of a chain: the slot takes over the second bucket. */
    method DetachHead(i: nat, ptr: Bucket<K, V>)
      requires Valid() && i < size && 0 < |chains[i]| && ptr == chains[i][0]
      modifies table
      ensures Linked(chains[i := RemoveAt(chains[i], 0)], buckets)
    {
      hide Parts;
      table[i] := ptr.next;
    }

    /** Deletion further down: the predecessor links past the bucket. */
    method DetachAfter(i: nat, last: Bucket<K, V>, ptr: Bucket<K, V>, ghost j: nat)
      requires Valid() && i < size && 0 < j < |chains[i]| && ptr == chains[i][j] && last == chains[i][j - 1]
      modifies last`next
      ensures Linked(chains[i := RemoveAt(chains[i], j)], buckets)
    {
      assert DistinctKeys(chains[i]);
      OnlyHere(i, j - 1);
      hide Parts;
      LinkPast(chains[i], last, ptr, j);
    }

    static method LinkPast(ghost c: seq<Bucket<K, V>>, last: Bucket<K, V>, ptr: Bucket<K, V>, ghost j: nat)
      requires 0 < j < |c| && IsChain(c[0], c) && DistinctKeys(c)
      requires last == c[j - 1] && ptr == c[j]
      modifies last`next
      ensures IsChain(c[0], RemoveAt(c, j))
    {
      assert forall m | 0 <= m < |c| && m != j - 1 :: c[m].nid != last.nid;
      last.next := ptr.next;
    }

    method Unlink(k: K, last: Bucket?<K, V>, ptr: Bucket<K, V>, ghost j: nat)
      requires Valid() && k in Contents
      requires j < |chains[Slot(k)]| && ptr == chains[Slot(k)][j] && ptr.nid == k
      requires last == if j == 0 then null else chains[Slot(k)][j - 1]
      requires last != null ==> last in buckets
      modifies Repr
      ensures Valid() && Repr == old(Repr)
      ensures Contents == old(Contents) - {k}
      ensures chains == old(chains)[Slot(k) := RemoveAt(old(chains)[Slot(k)], j)]
    {
      hide Parts, Linked;
      if last != null {
        DetachAfter(Slot(k), last, ptr, j);
      } else {
        DetachHead(Slot(k), ptr);
      }
      RemovedParts(chains, Contents, buckets, k, j);
      chains := chains[Slot(k) := RemoveAt(chains[Slot(k)], j)];
      Contents := Contents - {k};
    }

    /** Dropping one key from chains and contents alike. */
    lemma RemovedParts(cs: seq<seq<Bucket<K, V>>>, m: map<K, V>, buckets: set<Bucket<K, V>>, k: K, j: nat)
      requires Parts(cs, m, buckets)
      requires j < |cs[Slot(k)]| && cs[Slot(k)][j].nid == k
      ensures Parts(cs[Slot(k) := RemoveAt(cs[Slot(k)], j)], m - {k}, buckets)
    {
      var s := Slot(k);
      var cs', m' := cs[s := RemoveAt(cs[s], j)], m - {k};
      forall i | 0 <= i < size
        ensures DistinctKeys(cs'[i]) && InSlot(i, cs'[i]) && Stores(cs'[i], m')
      {
        assert DistinctKeys(cs[i]) && InSlot(i, cs[i]) && Stores(cs[i], m);
        if i == s {
          assert forall l | 0 <= l < |cs[s]| && l != j :: cs[s][l].nid != k;
        }
      }
      forall k' | k' in m'
        ensures HasKey(cs'[Slot(k')], k')
      {
        if Slot(k') == s {
          HasKeyRemove(cs[s], j, k');
        }
      }
    }
  }
}
