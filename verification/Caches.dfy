/** Cached inodes and index blocks as objects, their hash chains, and how they stand for the state of the builder. */
module Caches {
  import opened Bytes
  import opened Wrappers
  import Arith
  import opened Image
  import BlockMap
  import opened Store
  import opened Hash

  const HASH_SHIFT: nat := 10
  const HASH_LIST_SIZE: nat := 1024

  function Bucket(val: nat): (r: nat)
    ensures r < HASH_LIST_SIZE
  {
    BucketSmall(val);
    Hash32(val % W32, HASH_SHIFT)
  }

  lemma BucketSmall(val: nat)
    ensures Hash32(val % W32, HASH_SHIFT) < HASH_LIST_SIZE
  {
    Arith.QuotientRange(Times(val % W32), Arith.Pow2(22), Hash32(val % W32, HASH_SHIFT));
    Arith.Pow2Add(10, 22);
    Arith.Pow2Of32();
    assert Arith.Pow2(10) == 1024;
  }

  class CacheBlock {
    const ino: nat
    const hashNext: CacheBlock?
    const cache: array<nat>

    constructor (ino: nat, next: CacheBlock?)
      ensures this.ino == ino && hashNext == next
      ensures fresh(cache) && cache.Length == NENTRY && cache[..] == Zeros(NENTRY)
    {
      this.ino := ino;
      hashNext := next;
      cache := new nat[NENTRY](_ => 0);
    }
  }

  class CacheInode {
    const ino: nat
    const host: nat
    const kind: nat
    const hashNext: CacheInode?
    const direct: array<nat>
    var size: nat
    var nlinks: nat
    var blocks: nat
    var indirect: nat
    var dbl: nat
    var nblks: nat
    var l1: CacheBlock?
    var l2: CacheBlock?

    constructor (ino: nat, host: nat, kind: nat, next: CacheInode?)
      ensures this.ino == ino && this.host == host && this.kind == kind && hashNext == next
      ensures fresh(direct) && direct.Length == NDIRECT && direct[..] == Zeros(NDIRECT)
      ensures size == nlinks == blocks == indirect == dbl == nblks == 0 && l1 == l2 == null
    {
      this.ino, this.host, this.kind, hashNext := ino, host, kind, next;
      direct := new nat[NDIRECT](_ => 0);
      size, nlinks, blocks, indirect, dbl, nblks := 0, 0, 0, 0, 0, 0;
      l1, l2 := null, null;
    }

    /** The fields of the inode as a value. */
    function Value(): Inode
      reads this, direct
    {
      Inode(kind, host, size, nlinks, blocks, direct[..], indirect, dbl)
    }

    /** One more block, of sz bytes. */
    method Lengthen(sz: nat)
      modifies this`nblks, this`size, this`blocks
      ensures nblks == old(nblks) + 1 && Value() == Grow(old(Value()), sz)
    {
      nblks := nblks + 1;
      size := size + sz;
      blocks := blocks + 1;
    }

    /** New slots and cached pointers, and one more block. */
    method Point(p1: CacheBlock?, p2: CacheBlock?, s1: nat, s2: nat, sz: nat)
      modifies this
      ensures l1 == p1 && l2 == p2 && nblks == old(nblks) + 1
      ensures Value() == Grow(old(Value()), sz).(indirect := s1, dbl := s2)
    {
      l1, l2, indirect, dbl := p1, p2, s1, s2;
      Lengthen(sz);
    }
  }

  // ---- hash chains ----

  ghost predicate InodeChain(head: CacheInode?, s: seq<CacheInode>) {
    if s == [] then head == null else head == s[0] && InodeChain(s[0].hashNext, s[1..])
  }

  ghost predicate BlockChain(head: CacheBlock?, s: seq<CacheBlock>) {
    if s == [] then head == null else head == s[0] && BlockChain(s[0].hashNext, s[1..])
  }

  /** The first inode of host number h in a chain. */
  ghost function FindHost(s: seq<CacheInode>, h: nat): CacheInode? {
    if s == [] then null else if s[0].host == h then s[0] else FindHost(s[1..], h)
  }

  /** The index block that holds the number of the last block of a file, 0 when that number is direct. */
  function Tip(index: map<nat, Index>, i: Inode): nat {
    if i.blocks <= L0 then 0
    else if i.blocks <= L1 then i.indirect
    else
      var q := (i.blocks - 1 - L1) / NENTRY;
      if i.dbl in index && q < |index[i.dbl].words| then index[i.dbl].words[q] else 0
  }

  /** Object o holds inode i, and its cached pointers are the index blocks the next append will use. */
  ghost predicate NodeOk(o: CacheInode, i: Inode, index: map<nat, Index>, cached: map<nat, CacheBlock>)
    reads o, o.direct
  {
    && o.direct.Length == NDIRECT && o.Value() == i && o.nblks == i.blocks
    && (i.blocks > L0 ==> Tip(index, i) in cached && o.l1 == cached[Tip(index, i)])
    && (i.blocks > L1 ==> i.dbl in cached && o.l2 == cached[i.dbl])
  }

  ghost predicate CacheOk(c: CacheBlock, x: Index)
    reads c.cache
  {
    c.cache.Length == NENTRY && c.cache[..] == x.words
  }

  /** The objects that hold the inodes and index blocks, the hash chains, and the owner of each array. */
  datatype Held = Held(nodes: map<nat, CacheInode>, cached: map<nat, CacheBlock>, inodeChains: seq<seq<CacheInode>>,
                       blockChains: seq<seq<CacheBlock>>, owner: map<array<nat>, nat>)

  // ---- the parts of the invariant ----

  /** Each number has its own object and each object its own array. */
  ghost predicate Owned(nodes: map<nat, CacheInode>, cached: map<nat, CacheBlock>, owner: map<array<nat>, nat>, repr: set<object>) {
    && (forall f <- nodes :: nodes[f].ino == f && nodes[f] in repr && nodes[f].direct in repr
                             && nodes[f].direct in owner && owner[nodes[f].direct] == f)
    && (forall b <- cached :: cached[b].ino == b && cached[b].cache in repr
                             && cached[b].cache in owner && owner[cached[b].cache] == b)
  }

  ghost predicate NodesOk(nodes: map<nat, CacheInode>, inodes: map<nat, Inode>, index: map<nat, Index>, cached: map<nat, CacheBlock>)
    reads set f | f in nodes :: nodes[f], set f | f in nodes :: nodes[f].direct
  {
    nodes.Keys == inodes.Keys && forall f <- nodes :: NodeOk(nodes[f], inodes[f], index, cached)
  }

  ghost predicate CachesOk(cached: map<nat, CacheBlock>, index: map<nat, Index>)
    reads set b | b in cached :: cached[b].cache
  {
    cached.Keys == index.Keys && forall b <- cached :: CacheOk(cached[b], index[b])
  }

  ghost predicate Chained(heads: seq<CacheInode?>, chains: seq<seq<CacheInode>>)
    requires |heads| == |chains| == HASH_LIST_SIZE
  {
    forall h :: 0 <= h < HASH_LIST_SIZE ==> InodeChain(heads[h], chains[h])
  }

  /** Every inode is in the chain of its host number, and nothing else is in any chain. */
  ghost predicate Sorted(chains: seq<seq<CacheInode>>, nodes: map<nat, CacheInode>)
    requires |chains| == HASH_LIST_SIZE
  {
    && (forall h :: 0 <= h < HASH_LIST_SIZE ==>
          forall o <- chains[h] :: o.ino in nodes && nodes[o.ino] == o && Bucket(o.host) == h)
    && (forall f <- nodes :: nodes[f] in chains[Bucket(nodes[f].host)])
  }

  /** A search by host number finds the newest inode of that number. */
  ghost predicate Found(chains: seq<seq<CacheInode>>, nodes: map<nat, CacheInode>, byReal: map<nat, nat>)
    requires |chains| == HASH_LIST_SIZE
  {
    forall r: nat :: FindHost(chains[Bucket(r)], r) == if r in byReal && byReal[r] in nodes then nodes[byReal[r]] else null
  }

  ghost predicate InodeChainsOk(heads: seq<CacheInode?>, chains: seq<seq<CacheInode>>, nodes: map<nat, CacheInode>, byReal: map<nat, nat>)
  {
    && |heads| == HASH_LIST_SIZE && |chains| == HASH_LIST_SIZE
    && Chained(heads, chains) && Sorted(chains, nodes) && Found(chains, nodes, byReal)
  }

  /** Every index block is in the chain of number 0, because it was inserted under its parameter, 0. */
  ghost predicate BlockChainsOk(heads: seq<CacheBlock?>, chains: seq<seq<CacheBlock>>, cached: map<nat, CacheBlock>)
  {
    && |heads| == HASH_LIST_SIZE && |chains| == HASH_LIST_SIZE
    && (forall h :: 0 <= h < HASH_LIST_SIZE ==> BlockChain(heads[h], chains[h]))
    && (forall h :: 0 < h < HASH_LIST_SIZE ==> chains[h] == [])
    && (forall c <- chains[0] :: c.ino in cached && cached[c.ino] == c)
    && (forall b <- cached :: cached[b] in chains[0])
  }

  /** The chain of a number: the upper 10 bits of the 32-bit product of its lower 32 bits with the constant. */
  lemma BucketIs(val: nat)
    ensures Bucket(val) == val % 0x1_0000_0000 * 0x9e370001 % 0x1_0000_0000 / 0x40_0000
  {
    Arith.Pow2Add(10, 12);
    assert Arith.Pow2(10) == 1024 && Arith.Pow2(12) == 4096;
  }

  /** Index block 19 is searched in another chain than the one into which index blocks are inserted. */
  lemma WrongChain()
    ensures Bucket(19) != Bucket(0)
  {
    BucketZero();
    assert Times(19) == 19 * GOLDEN_RATIO_PRIME_32 % W32 == 0xbe15_0013;
    Arith.Pow2Add(10, 12);
    assert Arith.Pow2(10) == 1024 && Arith.Pow2(12) == 4096;
  }

  lemma BucketZero()
    ensures Bucket(0) == 0
  {
    assert Times(0) == 0;
  }

  /** A new index block disturbs no inode. */
  lemma NodesGrow(nodes: map<nat, CacheInode>, inodes: map<nat, Inode>, index: map<nat, Index>, cached: map<nat, CacheBlock>,
                  b: nat, x: Index, c: CacheBlock)
    requires NodesOk(nodes, inodes, index, cached) && cached.Keys == index.Keys && b !in index
    ensures NodesOk(nodes, inodes, index[b := x], cached[b := c])
  {
    forall f | f in nodes
      ensures NodeOk(nodes[f], inodes[f], index[b := x], cached[b := c])
    {
      assert NodeOk(nodes[f], inodes[f], index, cached);
    }
  }

  lemma CachesGrow(cached: map<nat, CacheBlock>, index: map<nat, Index>, b: nat, x: Index, c: CacheBlock)
    requires CachesOk(cached, index) && b !in index && CacheOk(c, x)
    ensures CachesOk(cached[b := c], index[b := x])
  {}

  /** A new index block at the head of the chain of number 0. */
  lemma BlockChainsGrow(heads: seq<CacheBlock?>, chains: seq<seq<CacheBlock>>, cached: map<nat, CacheBlock>, c: CacheBlock)
    requires BlockChainsOk(heads, chains, cached) && c.ino !in cached && c.hashNext == heads[0]
    ensures BlockChainsOk(heads[0 := c], chains[0 := [c] + chains[0]], cached[c.ino := c])
  {
    assert ([c] + chains[0])[1..] == chains[0];
  }

  lemma FindInserted(chains: seq<seq<CacheInode>>, o: CacheInode, r: nat)
    requires |chains| == HASH_LIST_SIZE
    ensures var b := Bucket(o.host);
      FindHost(chains[b := [o] + chains[b]][Bucket(r)], r) == if r == o.host then o else FindHost(chains[Bucket(r)], r)
  {
    hide Bucket;
    assert ([o] + chains[Bucket(o.host)])[1..] == chains[Bucket(o.host)];
  }

  lemma ChainInserted(head: CacheInode?, s: seq<CacheInode>, o: CacheInode)
    requires InodeChain(head, s) && o.hashNext == head
    ensures InodeChain(o, [o] + s)
  {
    assert ([o] + s)[1..] == s;
  }

  lemma SortedGrow(chains: seq<seq<CacheInode>>, nodes: map<nat, CacheInode>, o: CacheInode)
    requires |chains| == HASH_LIST_SIZE && Sorted(chains, nodes) && o.ino !in nodes
    ensures Sorted(chains[Bucket(o.host) := [o] + chains[Bucket(o.host)]], nodes[o.ino := o])
  {
    hide Bucket;
  }

  lemma FoundGrow(chains: seq<seq<CacheInode>>, nodes: map<nat, CacheInode>, byReal: map<nat, nat>, o: CacheInode)
    requires |chains| == HASH_LIST_SIZE && Found(chains, nodes, byReal) && o.ino !in nodes
    requires forall r <- byReal :: byReal[r] in nodes
    ensures Found(chains[Bucket(o.host) := [o] + chains[Bucket(o.host)]], nodes[o.ino := o], byReal[o.host := o.ino])
  {
    hide Bucket, FindHost;
    var b := Bucket(o.host);
    forall r: nat
      ensures FindHost(chains[b := [o] + chains[b]][Bucket(r)], r) == if r == o.host then o else FindHost(chains[Bucket(r)], r)
    {
      FindInserted(chains, o, r);
    }
  }

  /** A new inode at the head of the chain of its host number. */
  lemma InodeChainsGrow(heads: seq<CacheInode?>, chains: seq<seq<CacheInode>>, nodes: map<nat, CacheInode>, byReal: map<nat, nat>,
                        o: CacheInode)
    requires InodeChainsOk(heads, chains, nodes, byReal) && o.ino !in nodes && o.hashNext == heads[Bucket(o.host)]
    requires forall r <- byReal :: byReal[r] in nodes
    ensures var b := Bucket(o.host);
      InodeChainsOk(heads[b := o], chains[b := [o] + chains[b]], nodes[o.ino := o], byReal[o.host := o.ino])
  {
    hide Bucket, InodeChain, Sorted, Found;
    var b := Bucket(o.host);
    ChainInserted(heads[b], chains[b], o);
    SortedGrow(chains, nodes, o);
    FoundGrow(chains, nodes, byReal, o);
  }

  lemma OwnedMore(nodes: map<nat, CacheInode>, cached: map<nat, CacheBlock>, owner: map<array<nat>, nat>, repr: set<object>,
                  o: CacheInode)
    requires Owned(nodes, cached, owner, repr) && o.ino !in nodes && o.direct !in repr
    ensures Owned(nodes[o.ino := o], cached, owner[o.direct := o.ino], repr + {o, o.direct})
  {}

  lemma NodesMore(nodes: map<nat, CacheInode>, inodes: map<nat, Inode>, index: map<nat, Index>, cached: map<nat, CacheBlock>,
                  o: CacheInode, i: Inode)
    requires NodesOk(nodes, inodes, index, cached) && NodeOk(o, i, index, cached)
    ensures NodesOk(nodes[o.ino := o], inodes[o.ino := i], index, cached)
  {}

  lemma NodesAll(nodes: map<nat, CacheInode>, inodes: map<nat, Inode>, index: map<nat, Index>, cached: map<nat, CacheBlock>)
    requires NodesOk(nodes, inodes, index, cached)
    ensures nodes.Keys == inodes.Keys && forall g <- nodes :: NodeOk(nodes[g], inodes[g], index, cached)
  {}

  lemma NodeParts(o: CacheInode, i: Inode, index: map<nat, Index>, cached: map<nat, CacheBlock>)
    ensures NodeOk(o, i, index, cached) <==>
      && o.direct.Length == NDIRECT && o.Value() == i && o.nblks == i.blocks
      && (i.blocks > L0 ==> Tip(index, i) in cached && o.l1 == cached[Tip(index, i)])
      && (i.blocks > L1 ==> i.dbl in cached && o.l2 == cached[i.dbl])
  {}

  lemma DirectApart(nodes: map<nat, CacheInode>, cached: map<nat, CacheBlock>, owner: map<array<nat>, nat>, repr: set<object>, f: nat)
    requires Owned(nodes, cached, owner, repr) && f in nodes && f !in cached
    ensures nodes[f] in repr && nodes[f].direct in repr
    ensures forall g <- nodes | g != f :: nodes[g] != nodes[f] && nodes[g].direct != nodes[f].direct
    ensures forall b <- cached :: cached[b].cache != nodes[f].direct
  {}

  /** The words of index block s belong to no other index block and to no inode. */
  lemma CacheApart(nodes: map<nat, CacheInode>, cached: map<nat, CacheBlock>, owner: map<array<nat>, nat>, repr: set<object>, s: nat)
    requires Owned(nodes, cached, owner, repr) && s in cached && s !in nodes
    ensures cached[s].cache in repr && cached[s].ino == s
    ensures forall g <- nodes :: nodes[g].direct != cached[s].cache
    ensures forall b <- cached | b != s :: cached[b].cache != cached[s].cache
  {}

  lemma CachesAll(cached: map<nat, CacheBlock>, index: map<nat, Index>)
    requires CachesOk(cached, index)
    ensures forall b <- cached :: b in index && CacheOk(cached[b], index[b])
  {}

  /** Every inode finds its tip in the same place. */
  ghost predicate TipsSafe(inodes: map<nat, Inode>, index: map<nat, Index>, index': map<nat, Index>) {
    index'.Keys == index.Keys && forall g <- inodes :: Tip(index', inodes[g]) == Tip(index, inodes[g])
  }

  lemma NodesSafe(nodes: map<nat, CacheInode>, inodes: map<nat, Inode>, index: map<nat, Index>, index': map<nat, Index>,
                  cached: map<nat, CacheBlock>)
    requires NodesOk(nodes, inodes, index, cached) && TipsSafe(inodes, index, index')
    ensures NodesOk(nodes, inodes, index', cached)
  {
    hide Tip;
    forall g | g in nodes ensures NodeOk(nodes[g], inodes[g], index', cached) {
      assert NodeOk(nodes[g], inodes[g], index, cached);
    }
  }

  lemma SafeIfNotDbl(inodes: map<nat, Inode>, index: map<nat, Index>, s: nat, k: nat, v: nat)
    requires s in index && k < |index[s].words|
    requires forall g <- inodes | inodes[g].blocks > L1 :: inodes[g].dbl != s
    ensures TipsSafe(inodes, index, SetWord(index, s, k, v))
  {}

  /** A block that is no double-indirect block, or no index block at all, is nobody's double-indirect block. */
  lemma NotDbl(fs: Fs, s: nat)
    requires FilesOk(fs) && (s in fs.index ==> fs.index[s].pos != 1)
    ensures forall g <- fs.inodes | fs.inodes[g].blocks > L1 :: fs.inodes[g].dbl != s
  {
    forall g | g in fs.inodes && fs.inodes[g].blocks > L1
      ensures fs.inodes[g].dbl != s
    {
      assert FileOk(fs, g);
    }
  }

  /** Storing b in word k of block s moves no tip, and s is the tip of f once f is longer. */
  ghost predicate SingleReady(inodes: map<nat, Inode>, index: map<nat, Index>, f: nat, size: nat, s: nat, b: nat) {
    && f in inodes && f !in index && L0 <= inodes[f].blocks < L1
    && s in index && s !in inodes && NENTRY == |index[s].words|
    && TipsSafe(inodes, index, SetWord(index, s, inodes[f].blocks - L0, b))
  }

  function AfterSingle(fs: Fs, f: nat, size: nat, s: nat, b: nat): Fs
    requires f in fs.inodes && s in fs.index && L0 <= fs.inodes[f].blocks < L1 && |fs.index[s].words| == NENTRY
  {
    var i := fs.inodes[f];
    fs.(index := SetWord(fs.index, s, i.blocks - L0, b), inodes := fs.inodes[f := Grow(i, size).(indirect := s)])
  }

  function AfterDouble(fs: Fs, f: nat, size: nat, s2: nat, s1: nat, b: nat): Fs
    requires f in fs.inodes && L1 <= fs.inodes[f].blocks < LN
    requires s1 in fs.index && s2 in fs.index && |fs.index[s1].words| == |fs.index[s2].words| == NENTRY
  {
    var i := fs.inodes[f];
    fs.(index := SetWord(SetWord(fs.index, s2, (i.blocks - L1) / NENTRY, s1), s1, (i.blocks - L1) % NENTRY, b),
        inodes := fs.inodes[f := Grow(i, size).(dbl := s2)])
  }

  lemma SingleAppend(fs: Fs, f: nat, size: nat, b: nat)
    requires Core(fs, f) && L0 <= fs.inodes[f].blocks < L1
    ensures var u := UpdateSlot(fs, fs.inodes[f].indirect, f, 0);
      && (u.Ok? ==> u.value.0.inodes == fs.inodes && u.value.1 in u.value.0.index
                    && |u.value.0.index[u.value.1].words| == NENTRY)
      && AppendL1(fs, f, size, b)
           == (match u case Ok((fs1, s)) => Ok(AfterSingle(fs1, f, size, s, b)) case Err(e) => Err(e))
  {}

  lemma IndirectStep(fs: Fs, f: nat, size: nat, b: nat)
    requires Inv(fs) && Core(fs, f) && L0 <= fs.inodes[f].blocks < L1
    ensures var i := fs.inodes[f];
      var u := UpdateSlot(fs, i.indirect, f, 0);
      && (forall c <- fs.index :: c < fs.next)
      && (i.indirect != 0 ==> i.blocks > L0 && i.indirect == Tip(fs.index, i))
      && (u.Ok? ==> u.value.0.inodes == fs.inodes && SingleReady(fs.inodes, u.value.0.index, f, size, u.value.1, b))
      && AppendL1(fs, f, size, b)
           == (match u case Ok((fs1, s)) => Ok(AfterSingle(fs1, f, size, s, b)) case Err(e) => Err(e))
  {
    hide FilesOk, AppendL1, AfterSingle, TipsSafe;
    var i := fs.inodes[f];
    SingleAppend(fs, f, size, b);
    BlockMap.SlotLemma(fs, i.indirect, f, 0);
    var u := UpdateSlot(fs, i.indirect, f, 0);
    if u.Ok? {
      NotDbl(fs, u.value.1);
      SafeIfNotDbl(fs.inodes, u.value.0.index, u.value.1, i.blocks - L0, b);
    }
  }

  /** The double-indirect slot, and the word of its block that the next append uses. */
  lemma DoubleStep1(fs: Fs, f: nat)
    requires Inv(fs) && Core(fs, f) && L1 <= fs.inodes[f].blocks < LN
    ensures var i := fs.inodes[f];
      var q := (i.blocks - L1) / NENTRY;
      var u := UpdateSlot(fs, i.dbl, f, 1);
      && f !in fs.index && (i.dbl != 0 ==> i.blocks > L1) && (forall c <- fs.index :: c < fs.next)
      && (u.Ok? ==>
            var (fs1, s2) := u.value;
            && fs1.inodes == fs.inodes && s2 in fs1.index && s2 !in fs1.inodes && f !in fs1.index
            && (forall c <- fs1.index :: c < fs1.next) && WordsOk(fs1)
            && var w := fs1.index[s2].words[q];
               w != 0 ==> i.blocks > L1 && w == Tip(fs.index, i) && w in fs.index)
  {
    hide FilesOk;
    var i := fs.inodes[f];
    var q := (i.blocks - L1) / NENTRY;
    BlockMap.SlotLemma(fs, i.dbl, f, 1);
    assert i.dbl != 0 ==> SlotOk(fs, fs.index[i.dbl].words[q], f, 2 + q, i.blocks > L1 + q * NENTRY);
  }

  /** Neither storing s1 in word q of block s2 nor storing b in word k of block s1 moves a tip. */
  ghost predicate StoreReady(inodes: map<nat, Inode>, index: map<nat, Index>, f: nat, size: nat, s2: nat, q: nat, s1: nat, k: nat, b: nat) {
    && f in inodes && f !in index && inodes[f].blocks >= L1
    && s2 in index && s2 !in inodes && s1 in index && s1 !in inodes && s1 != s2
    && q < NENTRY && k < NENTRY && NENTRY == |index[s1].words| == |index[s2].words|
    && TipsSafe(inodes, index, SetWord(index, s2, q, s1))
    && var mid := SetWord(index, s2, q, s1);
       && TipsSafe(inodes, mid, SetWord(mid, s1, k, b))
       && Tip(SetWord(mid, s1, k, b), Grow(inodes[f], size).(dbl := s2)) == s1
  }

  lemma DoubleTips(inodes: map<nat, Inode>, index: map<nat, Index>, f: nat, size: nat, s2: nat, q: nat, s1: nat, k: nat, b: nat)
    requires f in inodes && f !in index && L1 <= inodes[f].blocks && q == (inodes[f].blocks - L1) / NENTRY
    requires s2 in index && s2 !in inodes && s1 in index && s1 !in inodes && s1 != s2
    requires q < NENTRY && k < NENTRY && NENTRY == |index[s1].words| == |index[s2].words|
    requires forall g <- inodes | g != f && inodes[g].blocks > L1 :: inodes[g].dbl != s2
    requires forall g <- inodes | inodes[g].blocks > L1 :: inodes[g].dbl != s1
    requires index[s2].words[q] == 0 || index[s2].words[q] == s1
    requires inodes[f].blocks > L1 && (inodes[f].blocks - 1 - L1) / NENTRY == q ==> index[s2].words[q] == s1
    ensures StoreReady(inodes, index, f, size, s2, q, s1, k, b)
  {
    hide TipsSafe;
    SafeDbl(inodes, index, f, s2, q, s1);
    SafeIfNotDbl(inodes, SetWord(index, s2, q, s1), s1, k, b);
  }

  lemma DoubleAppend(fs: Fs, f: nat, size: nat, b: nat)
    requires Core(fs, f) && L1 <= fs.inodes[f].blocks < LN && UpdateSlot(fs, fs.inodes[f].dbl, f, 1).Ok?
    requires var (fs1, s2) := UpdateSlot(fs, fs.inodes[f].dbl, f, 1).value; s2 in fs1.index && |fs1.index[s2].words| == NENTRY
    ensures var i := fs.inodes[f];
      var (fs1, s2) := UpdateSlot(fs, i.dbl, f, 1).value;
      var u := UpdateSlot(fs1, fs1.index[s2].words[(i.blocks - L1) / NENTRY], f, 2 + (i.blocks - L1) / NENTRY);
      u.Ok? ==>
        var (fs2, s1) := u.value;
        fs2.inodes == fs.inodes && s1 in fs2.index && s2 in fs2.index && NENTRY == |fs2.index[s1].words| == |fs2.index[s2].words|
        ==> AppendL2(fs, f, size, b) == Ok(AfterDouble(fs2, f, size, s2, s1, b))
  {
    hide UpdateSlot;
  }

  lemma DoubleStep2(fs: Fs, f: nat, size: nat, b: nat)
    requires Inv(fs) && Core(fs, f) && L1 <= fs.inodes[f].blocks < LN && UpdateSlot(fs, fs.inodes[f].dbl, f, 1).Ok?
    requires var (fs1, s2) := UpdateSlot(fs, fs.inodes[f].dbl, f, 1).value; s2 in fs1.index && |fs1.index[s2].words| == NENTRY
    ensures var i := fs.inodes[f];
      var q, k := (i.blocks - L1) / NENTRY, (i.blocks - L1) % NENTRY;
      var (fs1, s2) := UpdateSlot(fs, i.dbl, f, 1).value;
      var u := UpdateSlot(fs1, fs1.index[s2].words[q], f, 2 + q);
      u.Ok? ==>
        var (fs2, s1) := u.value;
        && fs2.inodes == fs.inodes && StoreReady(fs.inodes, fs2.index, f, size, s2, q, s1, k, b)
        && AppendL2(fs, f, size, b) == Ok(AfterDouble(fs2, f, size, s2, s1, b))
  {
    hide FilesOk, TipsSafe, StoreReady, AppendL2, AfterDouble;
    var i := fs.inodes[f];
    var q, k := (i.blocks - L1) / NENTRY, (i.blocks - L1) % NENTRY;
    BlockMap.SlotLemma(fs, i.dbl, f, 1);
    var (fs1, s2) := UpdateSlot(fs, i.dbl, f, 1).value;
    var w := fs1.index[s2].words[q];
    assert i.dbl != 0 ==> SlotOk(fs, w, f, 2 + q, i.blocks > L1 + q * NENTRY);
    BlockMap.SlotLemma(fs1, w, f, 2 + q);
    var u := UpdateSlot(fs1, w, f, 2 + q);
    if u.Ok? {
      var (fs2, s1) := u.value;
      OnlyDblOf(fs, f, s2);
      NotDbl(fs, s1);
      DoubleTips(fs.inodes, fs2.index, f, size, s2, q, s1, k, b);
      DoubleAppend(fs, f, size, b);
    }
  }

  /** The double-indirect block of f, or a new block, is no other file's double-indirect block. */
  lemma OnlyDblOf(fs: Fs, f: nat, s: nat)
    requires FilesOk(fs) && (s in fs.index ==> fs.index[s].file == f)
    ensures forall g <- fs.inodes | g != f && fs.inodes[g].blocks > L1 :: fs.inodes[g].dbl != s
  {
    forall g | g in fs.inodes && g != f && fs.inodes[g].blocks > L1
      ensures fs.inodes[g].dbl != s
    {
      assert FileOk(fs, g);
    }
  }

  lemma SafeDbl(inodes: map<nat, Inode>, index: map<nat, Index>, f: nat, s: nat, q: nat, v: nat)
    requires f in inodes && s in index && q < |index[s].words| && (index[s].words[q] == 0 || index[s].words[q] == v)
    requires forall g <- inodes | g != f && inodes[g].blocks > L1 :: inodes[g].dbl != s
    requires inodes[f].blocks > L1 && inodes[f].dbl == s && (inodes[f].blocks - 1 - L1) / NENTRY == q ==> index[s].words[q] == v
    ensures TipsSafe(inodes, index, SetWord(index, s, q, v))
  {}

  lemma FullInv(fs: Fs)
    requires Full(fs)
    ensures Inv(fs) && BLKN_ROOT in fs.inodes
  {}

  lemma Apart(fs: Fs)
    requires Inv(fs)
    ensures forall c <- fs.index :: c !in fs.inodes
    ensures fs.next !in fs.inodes && forall r <- fs.byReal :: fs.byReal[r] in fs.inodes
  {
    hide FilesOk;
  }

  lemma TipLinks(index: map<nat, Index>, i: Inode, i': Inode)
    requires i' == i.(nlinks := i'.nlinks)
    ensures Tip(index, i') == Tip(index, i)
  {}

  /** The three steps of Put. */
  lemma PutParts(fs: Fs, f: nat, data: seq<byte>, size: nat)
    requires Full(fs) && f in fs.inodes && |data| <= BLKSIZE
    ensures var a := AllocIno(fs);
      if a.Ok? then
        var (fs1, b) := a.value;
        var fs2 := WriteBlock(fs1, data, b);
        Inv(fs2) && Core(fs2, f) && b < fs1.ninos && Put(fs, f, data, size) == AppendBlock(fs2, f, size, b)
      else Put(fs, f, data, size) == Err(a.error)
  {
    hide FilesOk, LogOk, OnDisk, View, AppendBlock;
    if AllocIno(fs).Ok? {
      EmitOk(fs, data);
      CoreOf(Emit(fs, data).value.0, f);
    }
  }

  /** The cached pointers of an inode, and the numbers of the blocks they point to. */
  lemma Coherent(nodes: map<nat, CacheInode>, inodes: map<nat, Inode>, index: map<nat, Index>, cached: map<nat, CacheBlock>,
                 owner: map<array<nat>, nat>, repr: set<object>, f: nat)
    requires NodesOk(nodes, inodes, index, cached) && Owned(nodes, cached, owner, repr) && f in nodes
    ensures f in inodes && nodes[f].Value() == inodes[f] && nodes[f].nblks == inodes[f].blocks
    ensures nodes[f] in repr && nodes[f].direct in repr
    ensures var t := Tip(index, inodes[f]);
      nodes[f].blocks > L0 ==> t in cached && nodes[f].l1 == cached[t] && cached[t].ino == t
    ensures var t := inodes[f].dbl;
      nodes[f].blocks > L1 ==> t in cached && nodes[f].l2 == cached[t] && cached[t].ino == t
  {
    assert NodeOk(nodes[f], inodes[f], index, cached);
  }

  lemma CachedWord(cached: map<nat, CacheBlock>, index: map<nat, Index>, s: nat, q: nat)
    requires CachesOk(cached, index) && s in cached && q < NENTRY
    ensures cached[s].cache.Length == NENTRY && s in index && |index[s].words| == NENTRY
    ensures cached[s].cache[q] == index[s].words[q]
  {
    assert CacheOk(cached[s], index[s]);
    assert cached[s].cache[..][q] == index[s].words[q];
  }

  lemma CacheParts(c: CacheBlock, x: Index)
    ensures CacheOk(c, x) <==> c.cache.Length == NENTRY && c.cache[..] == x.words
  {}

  lemma NodesUpdate(nodes: map<nat, CacheInode>, inodes: map<nat, Inode>, index: map<nat, Index>, cached: map<nat, CacheBlock>,
                    f: nat, i: Inode)
    requires nodes.Keys == inodes.Keys && f in nodes && NodeOk(nodes[f], i, index, cached)
    requires forall g <- nodes | g != f :: NodeOk(nodes[g], inodes[g], index, cached)
    ensures NodesOk(nodes, inodes[f := i], index, cached)
  {}

  lemma OwnedGrow(nodes: map<nat, CacheInode>, cached: map<nat, CacheBlock>, owner: map<array<nat>, nat>, repr: set<object>,
                  c: CacheBlock)
    requires Owned(nodes, cached, owner, repr) && c.ino !in cached && c.cache !in repr
    ensures Owned(nodes, cached[c.ino := c], owner[c.cache := c.ino], repr + {c, c.cache})
  {}

  lemma FirstInodeChains(heads: seq<CacheInode?>, chains: seq<seq<CacheInode>>, o: CacheInode)
    requires |heads| == HASH_LIST_SIZE && |chains| == HASH_LIST_SIZE
    requires o.ino == BLKN_ROOT && o.host == 0 && o.hashNext == null
    requires forall h :: 0 <= h < HASH_LIST_SIZE ==> heads[h] == if h == Bucket(0) then o else null
    requires forall h :: 0 <= h < HASH_LIST_SIZE ==> chains[h] == if h == Bucket(0) then [o] else []
    ensures InodeChainsOk(heads, chains, map[BLKN_ROOT := o], map[0 := BLKN_ROOT])
  {
    hide Bucket;
    assert [o][1..] == [];
    assert InodeChain(o, [o]);
    assert InodeChain(null, []);
    forall h | 0 <= h < HASH_LIST_SIZE
      ensures InodeChain(heads[h], chains[h])
      ensures forall x <- chains[h] :: x == o && h == Bucket(0)
    {
    }
    var nodes := map[BLKN_ROOT := o];
    assert forall f <- nodes :: nodes[f] in chains[Bucket(nodes[f].host)];
    forall r: nat
      ensures FindHost(chains[Bucket(r)], r) == if r == 0 then o else null
    {
    }
  }

  lemma FirstNode(o: CacheInode)
    requires o.ino == BLKN_ROOT && o.direct.Length == NDIRECT && o.Value() == NewNode(T_DIR, 0) && o.nblks == 0
    ensures NodesOk(map[BLKN_ROOT := o], map[BLKN_ROOT := NewNode(T_DIR, 0)], map[], map[])
    ensures CachesOk(map[], map[])
  {}

  lemma NoBlockChains(heads: seq<CacheBlock?>, chains: seq<seq<CacheBlock>>)
    requires |heads| == HASH_LIST_SIZE && |chains| == HASH_LIST_SIZE
    requires forall h :: 0 <= h < HASH_LIST_SIZE ==> heads[h] == null && chains[h] == []
    ensures BlockChainsOk(heads, chains, map[])
  {}

  // ---- the invariant as a whole ----

  /** The objects held, their chains and the arrays they own stand for the given inodes and index blocks. */
  ghost predicate AllOk(held: Held, inodes: map<nat, Inode>, index: map<nat, Index>, byReal: map<nat, nat>, repr: set<object>,
                        iheads: seq<CacheInode?>, bheads: seq<CacheBlock?>)
    reads set f | f in held.nodes :: held.nodes[f], set f | f in held.nodes :: held.nodes[f].direct,
          set b | b in held.cached :: held.cached[b].cache
  {
    && held.nodes.Keys == inodes.Keys && held.cached.Keys == index.Keys
    && Owned(held.nodes, held.cached, held.owner, repr)
    && NodesOk(held.nodes, inodes, index, held.cached)
    && CachesOk(held.cached, index)
    && InodeChainsOk(iheads, held.inodeChains, held.nodes, byReal)
    && BlockChainsOk(bheads, held.blockChains, held.cached)
  }

  /** The same but for the fields of inode f. */
  ghost predicate OthersOk(held: Held, inodes: map<nat, Inode>, index: map<nat, Index>, byReal: map<nat, nat>, repr: set<object>,
                           iheads: seq<CacheInode?>, bheads: seq<CacheBlock?>, f: nat)
    reads set g | g in held.nodes && g != f :: held.nodes[g], set g | g in held.nodes && g != f :: held.nodes[g].direct,
          set b | b in held.cached :: held.cached[b].cache
  {
    && held.nodes.Keys == inodes.Keys && held.cached.Keys == index.Keys
    && Owned(held.nodes, held.cached, held.owner, repr)
    && (forall g <- held.nodes | g != f :: NodeOk(held.nodes[g], inodes[g], index, held.cached))
    && CachesOk(held.cached, index)
    && InodeChainsOk(iheads, held.inodeChains, held.nodes, byReal)
    && BlockChainsOk(bheads, held.blockChains, held.cached)
  }

  /** Inode f may be changed without harm to the others. */
  lemma AllButOne(held: Held, inodes: map<nat, Inode>, index: map<nat, Index>, byReal: map<nat, nat>, repr: set<object>,
                  iheads: seq<CacheInode?>, bheads: seq<CacheBlock?>, f: nat)
    requires AllOk(held, inodes, index, byReal, repr, iheads, bheads) && f in held.nodes && f !in index
    ensures OthersOk(held, inodes, index, byReal, repr, iheads, bheads, f)
    ensures f in inodes && NodeOk(held.nodes[f], inodes[f], index, held.cached)
    ensures held.nodes[f] in repr && held.nodes[f].direct in repr
    ensures forall g <- held.nodes | g != f :: held.nodes[g] != held.nodes[f] && held.nodes[g].direct != held.nodes[f].direct
    ensures forall b <- held.cached :: held.cached[b].cache != held.nodes[f].direct
  {
    hide InodeChainsOk, BlockChainsOk, Owned, NodesOk, CachesOk, NodeOk;
    NodesAll(held.nodes, inodes, index, held.cached);
    DirectApart(held.nodes, held.cached, held.owner, repr, f);
  }

  /** Inode f stands for i again. */
  lemma AllWithOne(held: Held, inodes: map<nat, Inode>, index: map<nat, Index>, byReal: map<nat, nat>, repr: set<object>,
                   iheads: seq<CacheInode?>, bheads: seq<CacheBlock?>, f: nat, i: Inode)
    requires OthersOk(held, inodes, index, byReal, repr, iheads, bheads, f) && f in held.nodes
    requires NodeOk(held.nodes[f], i, index, held.cached)
    ensures AllOk(held, inodes[f := i], index, byReal, repr, iheads, bheads)
  {
    hide InodeChainsOk, BlockChainsOk, Owned, NodesOk, CachesOk, NodeOk;
    NodesUpdate(held.nodes, inodes, index, held.cached, f, i);
  }

  function WithNode(held: Held, o: CacheInode): Held
    requires |held.inodeChains| == HASH_LIST_SIZE
  {
    var b := Bucket(o.host);
    held.(inodeChains := held.inodeChains[b := [o] + held.inodeChains[b]],
          nodes := held.nodes[o.ino := o], owner := held.owner[o.direct := o.ino])
  }

  function FirstHeld(o: CacheInode): Held {
    Held(map[BLKN_ROOT := o], map[], seq(HASH_LIST_SIZE, h => if h == Bucket(0) then [o] else []),
         seq(HASH_LIST_SIZE, _ => []), map[o.direct := BLKN_ROOT])
  }

  /** A new inode at the head of its chain. */
  lemma AllWithNode(held: Held, inodes: map<nat, Inode>, index: map<nat, Index>, byReal: map<nat, nat>, repr: set<object>,
                    iheads: seq<CacheInode?>, bheads: seq<CacheBlock?>, o: CacheInode, i: Inode)
    requires AllOk(held, inodes, index, byReal, repr, iheads, bheads) && o.ino !in inodes && o.direct !in repr
    requires |iheads| == |held.inodeChains| == HASH_LIST_SIZE && o.hashNext == iheads[Bucket(o.host)]
    requires NodeOk(o, i, index, held.cached) && forall r <- byReal :: byReal[r] in held.nodes
    ensures AllOk(WithNode(held, o), inodes[o.ino := i], index, byReal[o.host := o.ino], repr + {o, o.direct},
                  iheads[Bucket(o.host) := o], bheads)
    ensures var h := WithNode(held, o); Owned(h.nodes, h.cached, h.owner, repr + {o, o.direct})
  {
    hide InodeChainsOk, BlockChainsOk, Owned, NodesOk, CachesOk, NodeOk, Bucket;
    InodeChainsGrow(iheads, held.inodeChains, held.nodes, byReal, o);
    NodesMore(held.nodes, inodes, index, held.cached, o, i);
    OwnedMore(held.nodes, held.cached, held.owner, repr, o);
  }

  function WithBlock(held: Held, c: CacheBlock): Held
    requires |held.blockChains| == HASH_LIST_SIZE
  {
    held.(blockChains := held.blockChains[0 := [c] + held.blockChains[0]],
          cached := held.cached[c.ino := c], owner := held.owner[c.cache := c.ino])
  }

  /** A new index block at the head of the chain of number 0. */
  lemma AllWithBlock(held: Held, inodes: map<nat, Inode>, index: map<nat, Index>, byReal: map<nat, nat>, repr: set<object>,
                     iheads: seq<CacheInode?>, bheads: seq<CacheBlock?>, c: CacheBlock, x: Index)
    requires AllOk(held, inodes, index, byReal, repr, iheads, bheads) && c.ino !in index && c.cache !in repr
    requires |bheads| == |held.blockChains| == HASH_LIST_SIZE && c.hashNext == bheads[0] && CacheOk(c, x)
    ensures AllOk(WithBlock(held, c), inodes, index[c.ino := x], byReal, repr + {c, c.cache}, iheads, bheads[0 := c])
    ensures var h := WithBlock(held, c); Owned(h.nodes, h.cached, h.owner, repr + {c, c.cache})
  {
    hide InodeChainsOk, BlockChainsOk, Owned, NodesOk, CachesOk, NodeOk, CacheOk;
    NodesGrow(held.nodes, inodes, index, held.cached, c.ino, x, c);
    CachesGrow(held.cached, index, c.ino, x, c);
    OwnedGrow(held.nodes, held.cached, held.owner, repr, c);
    BlockChainsGrow(bheads, held.blockChains, held.cached, c);
  }

  lemma NewNodeOk(o: CacheInode, index: map<nat, Index>, cached: map<nat, CacheBlock>)
    requires o.direct.Length == NDIRECT && o.Value() == NewNode(o.kind, o.host) && o.nblks == 0
    ensures NodeOk(o, NewNode(o.kind, o.host), index, cached)
  {}

  lemma WithNodeIs(held: Held, o: CacheInode)
    requires |held.inodeChains| == HASH_LIST_SIZE
    ensures var h := WithNode(held, o);
      && h.nodes == held.nodes[o.ino := o] && h.cached == held.cached && h.blockChains == held.blockChains
      && |h.inodeChains| == HASH_LIST_SIZE
  {}

  lemma WithBlockIs(held: Held, c: CacheBlock)
    requires |held.blockChains| == HASH_LIST_SIZE
    ensures var h := WithBlock(held, c);
      && h.cached == held.cached[c.ino := c] && h.nodes == held.nodes && h.inodeChains == held.inodeChains
      && |h.blockChains| == HASH_LIST_SIZE
  {}

  /** The same as AllOk but for the words of index block s. */
  ghost predicate OtherBlocksOk(held: Held, inodes: map<nat, Inode>, index: map<nat, Index>, byReal: map<nat, nat>,
                                repr: set<object>, iheads: seq<CacheInode?>, bheads: seq<CacheBlock?>, s: nat)
    reads set f | f in held.nodes :: held.nodes[f], set f | f in held.nodes :: held.nodes[f].direct,
          set b | b in held.cached && b != s :: held.cached[b].cache
  {
    && held.nodes.Keys == inodes.Keys && held.cached.Keys == index.Keys
    && Owned(held.nodes, held.cached, held.owner, repr)
    && NodesOk(held.nodes, inodes, index, held.cached)
    && (forall b <- held.cached | b != s :: b in index && CacheOk(held.cached[b], index[b]))
    && InodeChainsOk(iheads, held.inodeChains, held.nodes, byReal)
    && BlockChainsOk(bheads, held.blockChains, held.cached)
  }

  /** The words of index block s may be changed to x if that moves no tip. */
  lemma AllButBlock(held: Held, inodes: map<nat, Inode>, index: map<nat, Index>, byReal: map<nat, nat>, repr: set<object>,
                    iheads: seq<CacheInode?>, bheads: seq<CacheBlock?>, s: nat, x: Index)
    requires AllOk(held, inodes, index, byReal, repr, iheads, bheads) && s in held.cached && s !in inodes
    requires TipsSafe(inodes, index, index[s := x])
    ensures OtherBlocksOk(held, inodes, index[s := x], byReal, repr, iheads, bheads, s)
    ensures s in index && CacheOk(held.cached[s], index[s])
    ensures held.cached[s].cache in repr && held.cached[s].ino == s
    ensures forall g <- held.nodes :: held.nodes[g].direct != held.cached[s].cache
    ensures forall b <- held.cached | b != s :: held.cached[b].cache != held.cached[s].cache
  {
    hide InodeChainsOk, BlockChainsOk, Owned, NodesOk, CachesOk, NodeOk, CacheOk, TipsSafe;
    NodesSafe(held.nodes, inodes, index, index[s := x], held.cached);
    CachesAll(held.cached, index);
    CacheApart(held.nodes, held.cached, held.owner, repr, s);
  }

  /** Index block s stands for its words again. */
  lemma AllWithWords(held: Held, inodes: map<nat, Inode>, index: map<nat, Index>, byReal: map<nat, nat>, repr: set<object>,
                     iheads: seq<CacheInode?>, bheads: seq<CacheBlock?>, s: nat)
    requires OtherBlocksOk(held, inodes, index, byReal, repr, iheads, bheads, s) && s in held.cached && s in index
    requires CacheOk(held.cached[s], index[s])
    ensures AllOk(held, inodes, index, byReal, repr, iheads, bheads)
  {
    hide InodeChainsOk, BlockChainsOk, Owned, NodesOk, NodeOk, CacheOk;
  }
}
