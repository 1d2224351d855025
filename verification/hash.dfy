/**
 lib/hash.cc: a chained hash table that is walked by a cursor kept in the table itself, so that links may
 be removed, and joined, in the middle of a walk.
 */
module HashTables {
  import opened Basics

  type Key(!new)

  class Link {
    const key: Key
    var next: Link?

    constructor (key: Key)
      ensures this.key == key && next == null
    {
      this.key, next := key, null;
    }
  }

  type Chain = seq<Link>

  /** The links of the buckets from `i` on, in bucket order. */
  ghost function Flat(chains: seq<Chain>, i: nat): Chain
    decreases |chains| - i
  {
    if i >= |chains| then [] else chains[i] + Flat(chains, i + 1)
  }

  ghost function At(c: Chain, j: nat): Link? {
    if j < |c| then c[j] else null
  }

  lemma AtIs(c: Chain, j: nat)
    ensures At(c, j) == if j < |c| then c[j] else null
  {
  }

  /** `s` without its first `x`. */
  ghost function Without(s: Chain, x: Link): Chain {
    if s == [] then [] else if s[0] == x then s[1..] else [s[0]] + Without(s[1..], x)
  }

  lemma {:induction false} WithoutPast(a: Chain, b: Chain, x: Link)
    requires x !in a
    ensures Without(a + b, x) == a + Without(b, x)
  {
    if a == [] {
      assert a + b == b;
    } else {
      assert (a + b)[1..] == a[1..] + b;
      WithoutPast(a[1..], b, x);
    }
  }

  lemma {:induction false} WithoutNone(s: Chain, x: Link)
    requires x !in s
    ensures Without(s, x) == s
  {
    assert s + [] == s;
    WithoutPast(s, [], x);
  }

  lemma {:induction false} WithoutAt(s: Chain, j: nat, rest: Chain)
    requires j < |s| && s[j] !in s[..j]
    ensures Without(s + rest, s[j]) == s[..j] + s[j + 1..] + rest
  {
    assert s + rest == s[..j] + (s[j..] + rest);
    WithoutPast(s[..j], s[j..] + rest, s[j]);
    assert (s[j..] + rest)[1..] == s[j + 1..] + rest;
  }

  /** All links occur once in the whole table. */
  ghost predicate AllDistinct(chains: seq<Chain>) {
    forall i, j, i', j' | 0 <= i < |chains| && 0 <= i' < |chains| && 0 <= j < |chains[i]| && 0 <= j' < |chains[i']| ::
      chains[i][j] == chains[i'][j'] ==> i == i' && j == j'
  }

  lemma FlatIs(chains: seq<Chain>, k: nat)
    requires k < |chains|
    ensures Flat(chains, k) == chains[k] + Flat(chains, k + 1)
  {
  }

  lemma {:induction false} FlatIn(chains: seq<Chain>, k: nat, i: nat, x: Link)
    requires k <= i < |chains| && x in chains[i]
    ensures x in Flat(chains, k)
    decreases i - k
  {
    hide Flat;
    FlatIs(chains, k);
    if k < i { FlatIn(chains, k + 1, i, x); }
  }

  lemma {:induction false} FlatFrom(chains: seq<Chain>, k: nat, x: Link) returns (i: nat)
    requires x in Flat(chains, k)
    ensures k <= i < |chains| && x in chains[i]
    decreases |chains| - k
  {
    i := k;
    if x !in chains[k] { i := FlatFrom(chains, k + 1, x); }
  }

  lemma OnePosition(chains: seq<Chain>, i: nat, j: nat)
    requires AllDistinct(chains) && i < |chains| && j < |chains[i]|
    ensures chains[i][j] !in chains[i][..j]
  {
  }

  lemma OneBucket(chains: seq<Chain>, i: nat, j: nat, k: nat)
    requires AllDistinct(chains) && k < i < |chains| && j < |chains[i]|
    ensures chains[i][j] !in chains[k]
  {
  }

  /** A bucket that loses a link loses it from the whole. */
  lemma {:induction false} FlatWithout(chains: seq<Chain>, i: nat, j: nat, k: nat)
    requires AllDistinct(chains) && k <= i < |chains| && j < |chains[i]|
    ensures Flat(chains[i := chains[i][..j] + chains[i][j + 1..]], k) == Without(Flat(chains, k), chains[i][j])
    decreases i - k
  {
    hide Without, AllDistinct, Flat;
    var c' := chains[i][..j] + chains[i][j + 1..];
    var chains' := chains[i := c'];
    FlatIs(chains, k);
    FlatIs(chains', k);
    if k == i {
      FlatSame(chains, chains', i + 1);
      OnePosition(chains, i, j);
      WithoutAt(chains[i], j, Flat(chains, i + 1));
    } else {
      FlatWithout(chains, i, j, k + 1);
      OneBucket(chains, i, j, k);
      WithoutPast(chains[k], Flat(chains, k + 1), chains[i][j]);
    }
  }

  lemma {:induction false} FlatSame(chains: seq<Chain>, chains': seq<Chain>, k: nat)
    requires |chains'| == |chains| && forall i :: k <= i < |chains| ==> chains'[i] == chains[i]
    ensures Flat(chains', k) == Flat(chains, k)
    decreases |chains| - k
  {
    if k < |chains| { FlatSame(chains, chains', k + 1); }
  }

  lemma PutInIs(a: Chain, x: Link, b: Chain)
    ensures PutIn(a + b, x, a + [x] + b)
  {
    var s := a + b;
    assert s[..|a|] == a && s[|a|..] == b;
  }

  lemma PutInFirst(s: Chain, x: Link)
    ensures PutIn(s, x, [x] + s)
  {
    assert [x] + s == s[..0] + [x] + s[0..];
  }

  lemma PutInAfter(a: Chain, s: Chain, x: Link, s': Chain)
    requires PutIn(s, x, s')
    ensures PutIn(a + s, x, a + s')
  {
    var p :| 0 <= p <= |s| && s' == s[..p] + [x] + s[p..];
    PutInIs(a + s[..p], x, s[p..]);
    assert a + s == (a + s[..p]) + s[p..];
    assert a + s' == (a + s[..p]) + [x] + s[p..];
  }

  /** A link put at the head of a bucket is put into the whole. */
  lemma {:induction false} FlatWith(chains: seq<Chain>, i: nat, x: Link, k: nat)
    requires k <= i < |chains|
    ensures PutIn(Flat(chains, k), x, Flat(chains[i := [x] + chains[i]], k))
    decreases i - k
  {
    hide Flat, PutIn;
    var chains' := chains[i := [x] + chains[i]];
    FlatIs(chains, k);
    FlatIs(chains', k);
    if k == i {
      FlatSame(chains, chains', i + 1);
      PutInFirst(Flat(chains, i), x);
      assert Flat(chains', i) == [x] + Flat(chains, i);
    } else {
      FlatWith(chains, i, x, k + 1);
      PutInAfter(chains[k], Flat(chains, k + 1), x, Flat(chains', k + 1));
    }
  }

  // ---------- the cursor ----------

  ghost predicate CursorAt(chains: seq<Chain>, slot: nat, pos: nat, next: Link?) {
    next == null || (slot < |chains| && pos < |chains[slot]| && next == chains[slot][pos])
  }

  ghost function RemainingOf(chains: seq<Chain>, slot: nat, pos: nat, next: Link?): Chain {
    if next == null || slot >= |chains| || pos > |chains[slot]| then []
    else chains[slot][pos..] + Flat(chains, slot + 1)
  }

  // ---------- the table ----------

  class HashTable {
    const size: nat
    const hash: Key -> nat
    const cmp: (Key, Key) -> int
    const buckets: array<Link?>
    var currentSlot: nat
    var next: Link?
    var count: int
    ghost var chains: seq<Chain>
    ghost var links: set<Link>
    ghost var pos: nat

    /** Every link is in the bucket its key hashes to, once. */
    ghost predicate Placed()
      reads this`chains, this`links
    {
      && 0 < size && |chains| == size && buckets.Length == size && AllDistinct(chains)
      && (forall k :: hash(k) < size)
      && (forall i, x :: 0 <= i < size && x in chains[i] ==> x in links && hash(x.key) == i)
      && (forall x :: x in links ==> x in chains[hash(x.key)])
    }

    ghost predicate Chained()
      reads this`chains, this`links, buckets, links
    {
      && Placed()
      && (forall i :: 0 <= i < size ==> buckets[i] == At(chains[i], 0))
      && (forall i, j :: 0 <= i < size && 0 <= j < |chains[i]| ==>
                           chains[i][j] in links && chains[i][j].next == At(chains[i], j + 1))
    }

    /** The cursor is a link of the current bucket, or the walk is over. */
    ghost predicate Cursor()
      reads this
    {
      CursorAt(chains, currentSlot, pos, next)
    }

    ghost predicate Valid()
      reads this, buckets, links
    {
      Chained() && Cursor() && count == |Flat(chains, 0)|
    }

    /** All links, in walk order. */
    ghost function All(): Chain
      reads this`chains
    {
      Flat(chains, 0)
    }

    /** What the walk has yet to return. */
    ghost function Remaining(): Chain
      reads this
    {
      RemainingOf(chains, currentSlot, pos, next)
    }

    /** hash_create. */
    constructor (cmp: (Key, Key) -> int, hashSz: nat, hash: Key -> nat)
      requires forall k :: hash(k) < if hashSz == 0 then 7951 else hashSz
      ensures Valid() && links == {} && All() == [] && next == null && fresh(buckets)
      ensures size == (if hashSz == 0 then 7951 else hashSz) && this.hash == hash && this.cmp == cmp
    {
      var n := if hashSz == 0 then 7951 else hashSz;
      size := n;
      this.hash, this.cmp := hash, cmp;
      buckets := new Link?[n](_ => null);
      currentSlot, next, count := 0, null, 0;
      chains, links, pos := seq(n, _ => []), {}, 0;
      new;
      FlatEmpty(chains, 0);
    }

    lemma Sizes()
      requires Chained()
      ensures 0 < size && |chains| == size && buckets.Length == size
    {
    }

    lemma Heads(i: nat)
      requires Chained() && i < size
      ensures |chains| == size == buckets.Length && buckets[i] == At(chains[i], 0)
      ensures Flat(chains, i) == chains[i] + Flat(chains, i + 1)
    {
    }

    lemma Nexts(i: nat, j: nat)
      requires Chained() && i < size && j < |chains[i]|
      ensures chains[i][j].next == At(chains[i], j + 1)
    {
    }

    /** hash_next_bucket: move to the first link of the next bucket that has one. */
    method NextBucket()
      requires Valid() && next == null && currentSlot < size
      modifies this`currentSlot, this`next, this`pos
      ensures Valid() && Remaining() == Flat(chains, old(currentSlot) + 1)
    {
      hide AllDistinct, HashTable.Chained;
      Sizes();
      pos := 0;
      ghost var slot := currentSlot;
      currentSlot := currentSlot + 1;
      while next == null && currentSlot < size
        invariant slot < currentSlot <= size && pos == 0 && Chained() && Cursor()
        invariant next == null ==> Flat(chains, slot + 1) == Flat(chains, currentSlot)
        invariant next != null ==> currentSlot < size && Flat(chains, slot + 1) == Flat(chains, currentSlot)
        decreases next == null, size - currentSlot
      {
        Heads(currentSlot);
        next := buckets[currentSlot];
        if next == null { currentSlot := currentSlot + 1; }
      }
    }

    /** hash_first. */
    method First()
      requires Valid() && next == null
      modifies this`currentSlot, this`next, this`pos
      ensures Valid() && Remaining() == All()
    {
      hide AllDistinct, HashTable.Chained;
      Sizes();
      Heads(0);
      currentSlot := 0;
      pos := 0;
      next := buckets[currentSlot];
      if next == null {
        NextBucket();
      }
    }

    /** hash_next: the head of what remains, which then is its tail. */
    method Next() returns (p: Link?)
      requires Valid()
      modifies this`currentSlot, this`next, this`pos
      ensures Valid()
      ensures if old(Remaining()) == [] then p == null && Remaining() == []
              else p == old(Remaining())[0] && Remaining() == old(Remaining())[1..]
    {
      hide AllDistinct, HashTable.Chained;
      Sizes();
      p := next;
      if p == null { return; }
      Nexts(currentSlot, pos);
      next := p.next;
      pos := pos + 1;
      if next == null {
        NextBucket();
      }
    }

    /** hash_last. */
    method Last()
      requires Valid()
      modifies this`currentSlot, this`next
      ensures Valid() && Remaining() == []
    {
      hide AllDistinct, HashTable.Chained;
      next := null;
      currentSlot := 0;
    }

    lemma HashIn(k: Key)
      requires Placed()
      ensures hash(k) < size == |chains| == buckets.Length
    {
    }

    /** The memory after a join. */
    twostate lemma JoinedChained(new was: seq<Chain>, new lnk: Link, new i: nat)
      requires old(Chained()) && was == old(chains) && lnk !in old(links) && i == hash(lnk.key) && i < size
      requires chains == was[i := [lnk] + was[i]] && links == old(links) + {lnk}
      requires lnk.next == old(buckets[i]) && buckets[i] == lnk
      requires forall k :: 0 <= k < buckets.Length && k != i ==> buckets[k] == old(buckets[k])
      requires forall x :: x in old(links) ==> x.next == old(x.next)
      ensures Chained()
    {
      hide AllDistinct, HashTable.Placed;
      JoinedPlacedToo(was, lnk, i);
      assert forall a :: 0 <= a < size && a != i ==> chains[a] == was[a];
      forall a, j | 0 <= a < size && 0 <= j < |chains[a]|
        ensures chains[a][j] in links && chains[a][j].next == At(chains[a], j + 1)
      {
        if a != i {
          assert chains[a] == was[a] && was[a][j] in was[a];
        } else if j > 0 {
          assert was[a][j - 1] in was[a] && chains[a][j] == was[a][j - 1];
        }
      }
    }

    twostate lemma JoinedPlacedToo(new was: seq<Chain>, new lnk: Link, new i: nat)
      requires old(Placed()) && was == old(chains) && lnk !in old(links) && i == hash(lnk.key) && i < size
      requires chains == was[i := [lnk] + was[i]] && links == old(links) + {lnk}
      ensures Placed() && old(forall k, x :: 0 <= k < size && x in chains[k] ==> x in links)
      ensures |was| == size == |chains| == buckets.Length
    {
      JoinedPlaced(was, old(links), lnk, i);
    }

    /** hash_join: put the link at the head of its bucket. */
    method Join(lnk: Link)
      requires Valid() && lnk !in links
      modifies this`count, this`chains, this`links, this`pos, buckets, lnk`next
      ensures Valid() && links == old(links) + {lnk} && count == old(count) + 1
      ensures chains == old(chains)[hash(lnk.key) := [lnk] + old(chains)[hash(lnk.key)]]
      ensures PutIn(old(All()), lnk, All())
      ensures next != null && hash(lnk.key) > currentSlot ==> PutIn(old(Remaining()), lnk, Remaining())
      ensures !(next != null && hash(lnk.key) > currentSlot) ==> Remaining() == old(Remaining())
    {
      hide *;
      ValidMeans();
      HashIn(lnk.key);
      var i := hash(lnk.key);
      ghost var (was, pos0) := (chains, pos);
      LinkIn(lnk, i);
      chains := chains[i := [lnk] + chains[i]];
      links := links + {lnk};
      count := count + 1;
      if next != null && i == currentSlot { pos := pos + 1; }
      JoinedChained(was, lnk, i);
      FlatWith(was, i, lnk, 0);
      PutInLength(Flat(was, 0), lnk, Flat(chains, 0));
      JoinedRemaining(was, i, lnk, currentSlot, pos0, next);
      ValidIs();
    }

    lemma ValidMeans()
      requires Valid()
      ensures Chained() && Placed() && |chains| == size == buckets.Length && count == |Flat(chains, 0)|
      ensures CursorAt(chains, currentSlot, pos, next) && All() == Flat(chains, 0)
      ensures Remaining() == RemainingOf(chains, currentSlot, pos, next)
    {
      hide AllDistinct;
    }

    lemma ValidIs()
      requires Chained() && CursorAt(chains, currentSlot, pos, next) && count == |Flat(chains, 0)|
      ensures Valid() && All() == Flat(chains, 0) && Remaining() == RemainingOf(chains, currentSlot, pos, next)
    {
      hide AllDistinct, HashTable.Chained;
    }

    method LinkIn(lnk: Link, i: nat)
      requires i < buckets.Length
      modifies buckets, lnk`next
      ensures lnk.next == old(buckets[i]) && buckets[i] == lnk
      ensures forall k :: 0 <= k < buckets.Length && k != i ==> buckets[k] == old(buckets[k])
    {
      lnk.next := buckets[i];
      buckets[i] := lnk;
    }

    lemma InPlace(x: Link)
      requires Chained() && x in links
      ensures hash(x.key) < size == |chains| && x in chains[hash(x.key)]
    {
      hide AllDistinct;
    }

    /** Look for the link that points at `hl`, starting from the bucket. */
    method FindPrev(hl: Link, i: nat) returns (prev: Link?, ghost j: nat)
      requires Chained() && hl in links && i == hash(hl.key)
      ensures i < |chains| && j < |chains[i]| && chains[i][j] == hl
      ensures prev == if j == 0 then null else chains[i][j - 1]
    {
      hide *;
      InPlace(hl);
      prev, j := null, 0;
      Heads(i);
      AtIs(chains[i], 0);
      var p := buckets[i];
      while p != hl
        invariant j <= |chains[i]| && p == At(chains[i], j) && hl in chains[i][j..] && (j < |chains[i]| ==> p == chains[i][j])
        invariant prev == if j == 0 then null else chains[i][j - 1]
        decreases |chains[i]| - j
      {
        Nexts(i, j);
        prev, p := p, p.next;
        j := j + 1;
        AtIs(chains[i], j);
      }
    }

    method Unlink(hl: Link, prev: Link?, i: nat)
      requires i < buckets.Length
      modifies buckets, (if prev == null then {} else {prev})`next
      ensures prev == null ==> buckets[i] == hl.next && forall k :: 0 <= k < buckets.Length && k != i ==> buckets[k] == old(buckets[k])
      ensures prev != null ==> prev.next == old(hl.next) && buckets[..] == old(buckets[..])
    {
      if prev == null { buckets[i] := hl.next; } else { prev.next := hl.next; }
    }

    twostate lemma RemovedPlaced(new hl: Link, new i: nat, new j: nat)
      requires old(Placed()) && i < |old(chains)| && j < |old(chains)[i]| && old(chains)[i][j] == hl
      requires chains == old(chains)[i := old(chains)[i][..j] + old(chains)[i][j + 1..]] && links == old(links) - {hl}
      ensures Placed() && |old(chains)| == size == |chains| == buckets.Length && AllDistinct(old(chains))
      ensures old(forall k, x :: 0 <= k < size && x in chains[k] ==> x in links)
    {
      RemovedDistinct(old(chains), i, j);
      ghost var was := old(chains);
      forall k, x | 0 <= k < size && x in chains[k] ensures x in links && hash(x.key) == k {
        assert x in was[k];
      }
      forall x | x in links ensures x in chains[hash(x.key)] {
        assert x in was[hash(x.key)];
      }
    }

    /** The memory after a removal. */
    twostate lemma RemovedChained(new hl: Link, new i: nat, new j: nat, new prev: Link?)
      requires old(Chained()) && i < |old(chains)| && j < |old(chains)[i]| && old(chains)[i][j] == hl
      requires chains == old(chains)[i := old(chains)[i][..j] + old(chains)[i][j + 1..]] && links == old(links) - {hl}
      requires prev == (if j == 0 then null else old(chains)[i][j - 1])
      requires forall x :: x in old(links) && x != prev ==> x.next == old(x.next)
      requires prev == null ==> buckets[i] == old(hl.next) && forall k :: 0 <= k < buckets.Length && k != i ==> buckets[k] == old(buckets[k])
      requires prev != null ==> prev.next == old(hl.next) && buckets[..] == old(buckets[..])
      ensures Chained()
    {
      hide HashTable.Placed;
      RemovedPlaced(hl, i, j);
      ghost var was := old(chains);
      forall a | 0 <= a < size ensures buckets[a] == At(chains[a], 0) {
        if prev != null { assert buckets[..][a] == old(buckets[..])[a]; }
      }
      forall a, b | 0 <= a < size && 0 <= b < |chains[a]|
        ensures chains[a][b] in links && chains[a][b].next == At(chains[a], b + 1)
      {
        ghost var b' := if a == i && j <= b then b + 1 else b;
        assert chains[a][b] == was[a][b'] && was[a][b'] in was[a];
        assert a != i ==> At(chains[a], b + 1) == At(was[a], b + 1);
      }
    }

    /** hash_remove_link: the link is taken out of its bucket and out of the walk. */
    method RemoveLink(hl: Link)
      requires Valid() && hl in links
      modifies this`count, this`chains, this`links, this`pos, this`next, this`currentSlot, buckets, links`next
      ensures Valid() && links == old(links) - {hl} && count == old(count) - 1
      ensures All() == Without(old(All()), hl) && Remaining() == Without(old(Remaining()), hl)
    {
      hide *;
      ValidMeans();
      HashIn(hl.key);
      var i := hash(hl.key);
      var prev, j := FindPrev(hl, i);
      ValidMeans();
      Neighbours(i, j);
      label Found:
      ghost var (was, pos0) := (chains, pos);
      Unlink(hl, prev, i);
      chains := chains[i := chains[i][..j] + chains[i][j + 1..]];
      links := links - {hl};
      RemovedChained@Found(hl, i, j, prev);
      FlatWithout(was, i, j, 0);
      WithoutLength(was, i, j);
      if next != null && i == currentSlot && j < pos { pos := pos - 1; }
      RemovedRemaining(was, i, j, currentSlot, pos0, next);
      count := count - 1;
      if next == hl {
        next := hl.next;
        if next == null {
          NoCursor(chains, currentSlot, pos);
          ValidIs();
          Sizes();
          NextBucket();
          ValidMeans();
        }
      }
      ValidIs();
    }

    /** What is around the `j`-th link of a bucket. */
    lemma Neighbours(i: nat, j: nat)
      requires Chained() && i < size && j < |chains[i]|
      ensures AllDistinct(chains) && chains[i][j].next == At(chains[i], j + 1) && chains[i][j] in links
      ensures 0 < j ==> chains[i][j - 1] in links && chains[i][j - 1] != chains[i][j]
    {
      hide AllDistinct;
      OwnDistinct(chains, i);
      assert chains[i][j] in chains[i];
      if 0 < j { assert chains[i][j - 1] in chains[i]; }
    }

    /** hash_lookup: the first link of the key's bucket that compares equal. */
    method Lookup(k: Key) returns (r: Link?, ghost j: nat)
      requires Valid()
      ensures hash(k) < |chains| && j <= |chains[hash(k)]| && r == At(chains[hash(k)], j)
      ensures forall b :: 0 <= b < j ==> cmp(k, chains[hash(k)][b].key) != 0
      ensures r != null ==> r in links && cmp(k, r.key) == 0
      ensures r == null ==> forall x :: x in links && hash(x.key) == hash(k) ==> cmp(k, x.key) != 0
    {
      hide *;
      ValidMeans();
      HashIn(k);
      var b := hash(k);
      Heads(b);
      r := buckets[b];
      j := 0;
      AtIs(chains[b], 0);
      while r != null && cmp(k, r.key) != 0
        invariant j <= |chains[b]| && r == At(chains[b], j)
        invariant forall a :: 0 <= a < j ==> cmp(k, chains[b][a].key) != 0
        decreases |chains[b]| - j
      {
        AtIs(chains[b], j);
        Nexts(b, j);
        r := r.next;
        j := j + 1;
        AtIs(chains[b], j);
      }
      AtIs(chains[b], j);
      BucketOf(b);
    }

    lemma BucketOf(b: nat)
      requires Placed() && b < size
      ensures |chains| == size && forall x :: x in chains[b] ==> x in links
      ensures forall x :: x in links && hash(x.key) == b ==> x in chains[b]
    {
      hide AllDistinct;
    }

    /** The walk of hashFreeItems. */
    method Collect() returns (list: seq<Link>)
      requires Valid() && next == null
      modifies this`currentSlot, this`next, this`pos
      ensures Valid() && next == null && list == All()
    {
      hide *;
      ValidMeans();
      list := [];
      First();
      ghost var all := All();
      ValidMeans();
      CollectStart(Remaining());
      var l := Next();
      while l != null && |list| < count
        invariant Valid() && All() == all && count == |all| && Collected(list, l, Remaining(), all)
        decreases |all| - |list|
      {
        CollectStep(list, l, Remaining(), all);
        list := list + [l];
        l := Next();
      }
      CollectEnd(list, l, Remaining(), all);
      ValidMeans();
      RemainingEmpty(chains, currentSlot, pos, next);
    }

    /** hashFreeItems: collect all links by a walk, then hand each to `free_func`. */
    method FreeItems() returns (freed: seq<Link>)
      requires Valid() && next == null
      modifies this`currentSlot, this`next, this`pos
      ensures Valid() && next == null && freed == All()
    {
      hide *;
      var list := Collect();
      freed := [];
      var j := 0;
      while j < |list|
        invariant 0 <= j <= |list| && freed == list[..j]
      {
        freed := freed + [list[j]];
        j := j + 1;
      }
    }

    /** The chains after a join. */
    lemma JoinedPlaced(was: seq<Chain>, old': set<Link>, lnk: Link, i: nat)
      requires 0 < size && |was| == size && buckets.Length == size && AllDistinct(was) && forall k :: hash(k) < size
      requires forall i, x :: 0 <= i < size && x in was[i] ==> x in old' && hash(x.key) == i
      requires forall x :: x in old' ==> x in was[hash(x.key)]
      requires lnk !in old' && i == hash(lnk.key) && chains == was[i := [lnk] + was[i]] && links == old' + {lnk}
      ensures Placed()
    {
      JoinedDistinct(was, i, lnk);
    }
  }

  /** A walk in the middle of collecting: `l` was just returned. */
  ghost predicate Collected(list: Chain, l: Link?, rem: Chain, all: Chain) {
    if l == null then list == all && rem == [] else list + [l] + rem == all
  }

  lemma CollectStart(rem: Chain)
    ensures if rem == [] then Collected([], null, [], rem) else Collected([], rem[0], rem[1..], rem)
  {
  }

  lemma CollectStep(list: Chain, l: Link, rem: Chain, all: Chain)
    requires Collected(list, l, rem, all)
    ensures |list| < |all|
    ensures if rem == [] then Collected(list + [l], null, [], all) else Collected(list + [l], rem[0], rem[1..], all)
  {
    if rem != [] { assert list + [l] + [rem[0]] + rem[1..] == list + [l] + rem; }
  }

  lemma CollectEnd(list: Chain, l: Link?, rem: Chain, all: Chain)
    requires Collected(list, l, rem, all) && (l == null || |list| >= |all|)
    ensures l == null && list == all && rem == []
  {
  }

  lemma PutInLength(s: Chain, x: Link, s': Chain)
    requires PutIn(s, x, s')
    ensures |s'| == |s| + 1
  {
  }

  lemma JoinedDistinct(was: seq<Chain>, i: nat, lnk: Link)
    requires AllDistinct(was) && i < |was| && forall k :: 0 <= k < |was| ==> lnk !in was[k]
    ensures AllDistinct(was[i := [lnk] + was[i]])
  {
    var chains := was[i := [lnk] + was[i]];
    forall a, j, a', j' | 0 <= a < |chains| && 0 <= a' < |chains| && 0 <= j < |chains[a]| && 0 <= j' < |chains[a']|
                          && chains[a][j] == chains[a'][j']
      ensures a == a' && j == j'
    {
      assert a == i && j > 0 ==> chains[a][j] == was[a][j - 1];
      assert a' == i && j' > 0 ==> chains[a'][j'] == was[a'][j' - 1];
      assert a != i ==> chains[a][j] == was[a][j];
      assert a' != i ==> chains[a'][j'] == was[a'][j'];
    }
  }

  /** What a join does to the cursor and to the rest of a walk. */
  lemma {:induction false} JoinedRemaining(was: seq<Chain>, i: nat, lnk: Link, slot: nat, pos: nat, next: Link?)
    requires i < |was| && CursorAt(was, slot, pos, next)
    ensures var chains := was[i := [lnk] + was[i]];
            var pos' := if next != null && i == slot then pos + 1 else pos;
            && CursorAt(chains, slot, pos', next)
            && (if next != null && i > slot
                then PutIn(RemainingOf(was, slot, pos, next), lnk, RemainingOf(chains, slot, pos', next))
                else RemainingOf(chains, slot, pos', next) == RemainingOf(was, slot, pos, next))
  {
    hide Flat, PutIn;
    var chains := was[i := [lnk] + was[i]];
    if next != null {
      if i > slot {
        FlatWith(was, i, lnk, slot + 1);
        PutInAfter(was[slot][pos..], Flat(was, slot + 1), lnk, Flat(chains, slot + 1));
      } else {
        FlatSame(was, chains, slot + 1);
      }
    }
  }

  lemma RemovedDistinct(was: seq<Chain>, i: nat, j: nat)
    requires AllDistinct(was) && i < |was| && j < |was[i]|
    ensures AllDistinct(was[i := was[i][..j] + was[i][j + 1..]])
    ensures forall k, x :: 0 <= k < |was| && x in was[k] && x != was[i][j] ==> x in was[i := was[i][..j] + was[i][j + 1..]][k]
    ensures was[i][j] !in was[i][..j] + was[i][j + 1..]
  {
    var chains := was[i := was[i][..j] + was[i][j + 1..]];
    forall a, b, a', b' | 0 <= a < |chains| && 0 <= a' < |chains| && 0 <= b < |chains[a]| && 0 <= b' < |chains[a']|
                          && chains[a][b] == chains[a'][b']
      ensures a == a' && b == b'
    {
      var c := if a == i && j <= b then b + 1 else b;
      var c' := if a' == i && j <= b' then b' + 1 else b';
      assert chains[a][b] == was[a][c] && chains[a'][b'] == was[a'][c'];
    }
    forall k, x | 0 <= k < |was| && x in was[k] && x != was[i][j] ensures x in chains[k] {
      if k == i {
        var b :| 0 <= b < |was[i]| && was[i][b] == x;
        assert chains[i][if b < j then b else b - 1] == x;
      }
    }
  }

  lemma NoCursor(chains: seq<Chain>, slot: nat, pos: nat)
    ensures CursorAt(chains, slot, pos, null)
  {
  }

  lemma {:induction false} WithoutShorter(s: Chain, x: Link)
    requires x in s
    ensures |Without(s, x)| == |s| - 1
  {
    if s[0] != x { WithoutShorter(s[1..], x); }
  }

  lemma {:induction false} WithoutLength(was: seq<Chain>, i: nat, j: nat)
    requires i < |was| && j < |was[i]|
    ensures |Without(Flat(was, 0), was[i][j])| == |Flat(was, 0)| - 1
  {
    FlatIn(was, 0, i, was[i][j]);
    WithoutShorter(Flat(was, 0), was[i][j]);
  }

  /** The part of a bucket from `pos` on, when the link at `j` leaves. */
  lemma {:induction false} SuffixWithout(c: Chain, pos: nat, j: nat, rest: Chain)
    requires pos <= j < |c| && forall a, b :: 0 <= a < b < |c| ==> c[a] != c[b]
    ensures (c[..j] + c[j + 1..])[pos..] + rest == Without(c[pos..] + rest, c[j])
  {
    var s := c[pos..];
    assert s[j - pos] == c[j];
    WithoutAt(s, j - pos, rest);
    assert (c[..j] + c[j + 1..])[pos..] == s[..j - pos] + s[j - pos + 1..];
  }

  lemma NotLater(was: seq<Chain>, i: nat, j: nat, k: nat)
    requires AllDistinct(was) && i < |was| && j < |was[i]| && i < k
    ensures was[i][j] !in Flat(was, k)
  {
    if was[i][j] in Flat(was, k) {
      var i' := FlatFrom(was, k, was[i][j]);
    }
  }

  lemma OwnDistinct(was: seq<Chain>, i: nat)
    requires AllDistinct(was) && i < |was|
    ensures forall a, b :: 0 <= a < b < |was[i]| ==> was[i][a] != was[i][b]
  {
  }

  lemma NotElsewhere(was: seq<Chain>, i: nat, j: nat, k: nat)
    requires AllDistinct(was) && i < |was| && j < |was[i]| && k < |was| && k != i
    ensures was[i][j] !in was[k]
  {
  }

  /** What a removal does to the cursor and to the rest of a walk. */
  lemma {:induction false} RemovedRemaining(was: seq<Chain>, i: nat, j: nat, slot: nat, pos: nat, next: Link?)
    requires AllDistinct(was) && i < |was| && j < |was[i]| && CursorAt(was, slot, pos, next)
    ensures var chains := was[i := was[i][..j] + was[i][j + 1..]];
            var hl := was[i][j];
            var pos' := if next != null && i == slot && j < pos then pos - 1 else pos;
            var left := Without(RemainingOf(was, slot, pos, next), hl);
            && (next != hl ==> CursorAt(chains, slot, pos', next) && RemainingOf(chains, slot, pos', next) == left)
            && (next == hl ==>
                  var after := At(was[i], j + 1);
                  && (after != null ==> CursorAt(chains, slot, pos', after) && RemainingOf(chains, slot, pos', after) == left)
                  && (after == null ==> slot < |was| && Flat(chains, slot + 1) == left))
  {
    hide AllDistinct, Flat;
    var chains := was[i := was[i][..j] + was[i][j + 1..]];
    var hl := was[i][j];
    OwnDistinct(was, i);
    if next == null {
    } else if slot < i {
      NotElsewhere(was, i, j, slot);
      FlatWithout(was, i, j, slot + 1);
      WithoutPast(was[slot][pos..], Flat(was, slot + 1), hl);
    } else {
      FlatSame(was, chains, slot + 1);
      if i < slot {
        NotElsewhere(was, i, j, slot);
        NotLater(was, i, j, slot + 1);
        WithoutNone(was[slot][pos..] + Flat(was, slot + 1), hl);
      } else if j < pos {
        NotLater(was, i, j, slot + 1);
        WithoutNone(was[slot][pos..] + Flat(was, slot + 1), hl);
        assert chains[i][pos - 1..] == was[i][pos..];
      } else {
        SuffixWithout(was[i], pos, j, Flat(was, slot + 1));
      }
    }
  }

  lemma RemainingEmpty(chains: seq<Chain>, slot: nat, pos: nat, next: Link?)
    requires CursorAt(chains, slot, pos, next)
    ensures RemainingOf(chains, slot, pos, next) == [] <==> next == null
  {
  }

  lemma {:induction false} FlatEmpty(chains: seq<Chain>, k: nat)
    requires forall i :: 0 <= i < |chains| ==> chains[i] == []
    ensures Flat(chains, k) == []
    decreases |chains| - k
  {
    if k < |chains| { FlatEmpty(chains, k + 1); }
  }

  // ---------- whole walks ----------

  datatype Happening = Returned(x: Link) | Removed(x: Link)

  /** A walk in progress: what remains, what is in the table, and what happened so far. */
  datatype Walk = Walk(rem: Chain, members: set<Link>, log: seq<Happening>)

  datatype WalkAction = Take | Drop(x: Link)

  /** HashTable.Next and HashTable.RemoveLink, on what remains of the walk. */
  ghost function WalkStep(w: Walk, a: WalkAction): Walk {
    match a
    case Take => if w.rem == [] then w else Walk(w.rem[1..], w.members, w.log + [Returned(w.rem[0])])
    case Drop(x) =>
      if x !in w.members then w else Walk(Without(w.rem, x), w.members - {x}, w.log + [Removed(x)])
  }

  ghost function WalkRun(w: Walk, run: seq<WalkAction>): Walk {
    if run == [] then w else WalkStep(WalkRun(w, run[..|run| - 1]), run[|run| - 1])
  }

  ghost predicate NoRepeat(s: Chain) {
    forall i, j :: 0 <= i < j < |s| ==> s[i] != s[j]
  }

  /** No link is returned twice, and none after it was removed. */
  ghost predicate Fair(log: seq<Happening>) {
    forall i, j :: 0 <= i < j < |log| && log[j].Returned? ==> log[i] != Returned(log[j].x) && log[i] != Removed(log[j].x)
  }

  ghost predicate WalkInv(w: Walk) {
    && NoRepeat(w.rem) && Fair(w.log)
    && (forall x :: x in w.rem ==> x in w.members && Returned(x) !in w.log && Removed(x) !in w.log)
    && (forall x :: x in w.members ==> x in w.rem || Returned(x) in w.log)
  }

  lemma {:induction false} WithoutHas(s: Chain, x: Link, y: Link)
    requires NoRepeat(s)
    ensures y in Without(s, x) <==> y in s && y != x
  {
    if s != [] {
      assert NoRepeat(s[1..]);
      assert s == [s[0]] + s[1..];
      if s[0] != x { WithoutHas(s[1..], x, y); }
    }
  }

  lemma {:induction false} WithoutNoRepeat(s: Chain, x: Link)
    requires NoRepeat(s)
    ensures NoRepeat(Without(s, x))
  {
    if s != [] && s[0] != x {
      assert NoRepeat(s[1..]);
      WithoutNoRepeat(s[1..], x);
      WithoutHas(s[1..], x, s[0]);
    }
  }

  lemma FairMore(log: seq<Happening>, h: Happening)
    requires Fair(log) && (h.Returned? ==> Returned(h.x) !in log && Removed(h.x) !in log)
    ensures Fair(log + [h])
  {
    forall i, j | 0 <= i < j < |log + [h]| && (log + [h])[j].Returned?
      ensures (log + [h])[i] != Returned((log + [h])[j].x) && (log + [h])[i] != Removed((log + [h])[j].x)
    {
      assert log[i] in log;
    }
  }

  lemma {:induction false} TakeKeeps(w: Walk)
    requires WalkInv(w) && w.rem != []
    ensures WalkInv(Walk(w.rem[1..], w.members, w.log + [Returned(w.rem[0])]))
  {
    hide Fair;
    var x := w.rem[0];
    FairMore(w.log, Returned(x));
    var log := w.log + [Returned(x)];
    forall y | y in w.rem[1..] ensures y in w.members && Returned(y) !in log && Removed(y) !in log {
      assert y in w.rem && y != x;
    }
    forall y | y in w.members ensures y in w.rem[1..] || Returned(y) in log {
      assert Returned(x) in log;
      assert y in w.rem ==> y == x || y in w.rem[1..];
    }
  }

  lemma {:induction false} DropKeeps(w: Walk, x: Link)
    requires WalkInv(w) && x in w.members
    ensures WalkInv(Walk(Without(w.rem, x), w.members - {x}, w.log + [Removed(x)]))
  {
    hide Fair, NoRepeat;
    FairMore(w.log, Removed(x));
    WithoutNoRepeat(w.rem, x);
    var (rem, log) := (Without(w.rem, x), w.log + [Removed(x)]);
    forall y | y in rem ensures y in w.members - {x} && Returned(y) !in log && Removed(y) !in log {
      WithoutHas(w.rem, x, y);
    }
    forall y | y in w.members - {x} ensures y in rem || Returned(y) in log {
      WithoutHas(w.rem, x, y);
    }
  }

  /** Every step keeps the walk fair, and each link taken makes it shorter. */
  lemma {:induction false} WalkStepKeeps(w: Walk, a: WalkAction)
    requires WalkInv(w)
    ensures WalkInv(WalkStep(w, a))
    ensures |WalkStep(w, a).rem| <= |w.rem| && (a == Take && w.rem != [] ==> |WalkStep(w, a).rem| < |w.rem|)
  {
    hide WalkInv, Without;
    match a
    case Take => if w.rem != [] { TakeKeeps(w); }
    case Drop(x) =>
      if x in w.members {
        DropKeeps(w, x);
        if x in w.rem { WithoutShorter(w.rem, x); } else { WithoutNone(w.rem, x); }
      }
  }

  ghost function Times(log: seq<Happening>, h: Happening): nat {
    if log == [] then 0 else Times(log[..|log| - 1], h) + (if log[|log| - 1] == h then 1 else 0)
  }

  lemma {:induction false} FairTimes(log: seq<Happening>, x: Link)
    requires Fair(log)
    ensures Times(log, Returned(x)) == if Returned(x) in log then 1 else 0
  {
    if log != [] {
      var front := log[..|log| - 1];
      assert log == front + [log[|log| - 1]];
      FairTimes(front, x);
      if Returned(x) in front {
        var i :| 0 <= i < |front| && front[i] == Returned(x);
        assert log[i] == Returned(x);
      }
    }
  }

  /** The links of a table, in walk order, are the members, each once. */
  lemma {:induction false} TableNoRepeat(chains: seq<Chain>, k: nat)
    requires AllDistinct(chains)
    ensures NoRepeat(Flat(chains, k))
    decreases |chains| - k
  {
    hide AllDistinct;
    if k < |chains| {
      TableNoRepeat(chains, k + 1);
      OwnDistinct(chains, k);
      forall j | 0 <= j < |chains[k]| ensures chains[k][j] !in Flat(chains, k + 1) {
        NotLater(chains, k, j, k + 1);
      }
    }
  }

  lemma {:induction false} LinksAre(table: HashTable)
    requires table.Placed()
    ensures (set y | y in table.All()) == table.links && NoRepeat(table.All())
  {
    hide Flat, AllDistinct, NoRepeat;
    TableNoRepeat(table.chains, 0);
    forall y | y in table.links ensures y in table.All() {
      FlatIn(table.chains, 0, table.hash(y.key), y);
    }
    forall y | y in table.All() ensures y in table.links {
      var i := FlatFrom(table.chains, 0, y);
    }
  }

  ghost function WalkOf(table: HashTable): Walk
    reads table
  {
    Walk(table.All(), table.links, [])
  }

  /** Only links that are in the table are removed, as hash_remove_link asserts. */
  ghost predicate Removable(w: Walk, script: seq<WalkAction>) {
    forall i :: 0 <= i < |script| && script[i].Drop? ==> script[i].x in WalkRun(w, script[..i]).members
  }

  lemma RemovableAt(w: Walk, script: seq<WalkAction>, i: nat)
    requires Removable(w, script) && i < |script|
    ensures script[i].Drop? ==> script[i].x in WalkRun(w, script[..i]).members
  {
  }

  lemma WalkRunMore(w: Walk, script: seq<WalkAction>, i: nat)
    requires i < |script|
    ensures WalkRun(w, script[..i + 1]) == WalkStep(WalkRun(w, script[..i]), script[i])
  {
    assert script[..i + 1][..i] == script[..i];
  }

  /**
   hash_first, then hash_next and hash_remove_link in any order: the log of what was returned and removed is
   fair, and when the walk is over every link still in the table was returned exactly once.
   */
  method WalkThrough(table: HashTable, script: seq<WalkAction>) returns (log: seq<Happening>)
    requires table.Valid() && table.next == null && Removable(WalkOf(table), script)
    modifies table`count, table`chains, table`links, table`pos, table`next, table`currentSlot, table.buckets, table.links`next
    ensures table.Valid() && Fair(log) && table.links <= old(table.links)
    ensures forall x :: x in old(table.links) && x !in table.links ==> Removed(x) in log
    ensures forall x :: x in old(table.links) ==> Times(log, Returned(x)) <= 1
    ensures table.next == null ==> forall x :: x in table.links ==> Times(log, Returned(x)) == 1
  {
    hide Fair, Times, WalkInv, WalkRun, WalkStep, Removable, NoRepeat, HashTable.Valid, HashTable.All, HashTable.Remaining;
    hide HashTable.Placed, HashTable.Chained, Flat, RemainingOf, CursorAt;
    ghost var w0 := WalkOf(table);
    table.ValidMeans();
    LinksAre(table);
    WalkStarts(w0);
    table.First();
    log := [];
    var i := 0;
    assert script[..0] == [];
    RunNone(w0);
    while i < |script|
      invariant 0 <= i <= |script| && table.Valid() && table.links <= old(table.links)
      invariant WalkRun(w0, script[..i]) == Walk(table.Remaining(), table.links, log)
      invariant WalkInv(WalkRun(w0, script[..i]))
      invariant forall x :: x in old(table.links) && x !in table.links ==> Removed(x) in log
    {
      RemovableAt(w0, script, i);
      WalkRunMore(w0, script, i);
      WalkStepKeeps(WalkRun(w0, script[..i]), script[i]);
      log := WalkOne(table, script[i], log);
      i := i + 1;
    }
    InvMeans(WalkRun(w0, script[..i]));
    forall x | x in old(table.links) ensures Times(log, Returned(x)) == if Returned(x) in log then 1 else 0 {
      FairTimes(log, x);
    }
    table.ValidMeans();
    RemainingEmpty(table.chains, table.currentSlot, table.pos, table.next);
  }

  /** One step of a walk, as the table takes it. */
  method WalkOne(table: HashTable, a: WalkAction, log: seq<Happening>) returns (log': seq<Happening>)
    requires table.Valid() && (a.Drop? ==> a.x in table.links)
    modifies table`count, table`chains, table`links, table`pos, table`next, table`currentSlot, table.buckets, table.links`next
    ensures table.Valid() && table.links <= old(table.links) && log <= log'
    ensures Walk(table.Remaining(), table.links, log') == WalkStep(old(Walk(table.Remaining(), table.links, log)), a)
    ensures forall x :: x in old(table.links) && x !in table.links ==> Removed(x) in log'
  {
    hide HashTable.Valid, HashTable.All, HashTable.Remaining, Without;
    log' := log;
    match a {
      case Take =>
        var p := table.Next();
        if p != null { log' := log + [Returned(p)]; }
      case Drop(x) =>
        table.RemoveLink(x);
        log' := log + [Removed(x)];
        assert Removed(x) in log';
    }
  }

  lemma RunNone(w: Walk)
    ensures WalkRun(w, []) == w
  {
  }

  lemma WalkStarts(w: Walk)
    requires NoRepeat(w.rem) && w.members == (set y | y in w.rem) && w.log == []
    ensures WalkInv(w)
  {
  }

  lemma InvMeans(w: Walk)
    requires WalkInv(w)
    ensures Fair(w.log) && forall x :: x in w.members ==> x in w.rem || Returned(x) in w.log
  {
  }

  // ---------- hash4 ----------

  const WORD: nat := 0x1_0000_0000

  /** One HASH4 step on an unsigned 32-bit accumulator: shift left by five, add itself, add the byte. */
  function Hash4Step(h: nat, c: int): nat {
    ((h * 32) % WORD + h + c) % WORD
  }

  /** Times 33 plus the next character, modulo 2^32. */
  function Fold33(s: seq<int>): nat {
    if s == [] then 0 else (Fold33(s[..|s| - 1]) * 33 + s[|s| - 1]) % WORD
  }

  lemma Hash4StepIs(h: nat, c: int)
    ensures Hash4Step(h, c) == (h * 33 + c) % WORD
  {
    var q := (h * 32) / WORD;
    assert h * 32 == q * WORD + (h * 32) % WORD;
    var y := (h * 32) % WORD + h + c;
    assert h * 33 + c == y + q * WORD;
    ModPlus(y, q);
  }

  lemma {:induction false} ModPlus(y: int, q: nat)
    ensures (y + q * WORD) % WORD == y % WORD
  {
    if q > 0 {
      ModPlus(y, q - 1);
      assert y + q * WORD == (y + (q - 1) * WORD) + WORD;
    }
  }

  /** Hash `n` characters of `s` from position `i`. */
  method Hash4Run(s: seq<int>, i: nat, n: nat, h0: nat) returns (h: nat)
    requires i + n <= |s| && h0 == Fold33(s[..i])
    ensures h == Fold33(s[..i + n])
  {
    h := h0;
    for k := 0 to n
      invariant h == Fold33(s[..i + k])
    {
      Hash4StepIs(h, s[i + k]);
      assert s[..i + k + 1][..i + k] == s[..i + k];
      h := Hash4Step(h, s[i + k]);
    }
  }

  /** hash4: the remainder of eight first, then eight characters a turn; characters may be signed. */
  method Hash4(s: seq<int>, size: nat) returns (r: nat)
    requires 0 < size
    ensures r == Fold33(s) % size && r < size
  {
    var len := |s|;
    var loop := len / 8;
    assert s[..0] == [];
    var h := Hash4Run(s, 0, len % 8, 0);
    var key := len % 8;
    while loop > 0
      invariant 0 <= loop && key + 8 * loop == len && h == Fold33(s[..key])
    {
      loop := loop - 1;
      h := Hash4Run(s, key, 8, h);
      key := key + 8;
    }
    assert s[..key] == s;
    r := h % size;
  }
}
