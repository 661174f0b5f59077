/** What the flush has written, chain by chain. */
module Flush {
  import opened Bytes
  import opened Image
  import opened Store
  import opened Bitmap
  import opened Disk
  import opened Caches

  /** Disk d0 and log l0 after the blocks of w have been written, each once and with its content in final. */
  ghost predicate Written(d0: map<nat, seq<byte>>, l0: multiset<nat>, d: map<nat, seq<byte>>, l: multiset<nat>,
                          w: set<nat>, final: map<nat, seq<byte>>) {
    && l == l0 + multiset(w)
    && d.Keys == d0.Keys + w && w !! d0.Keys
    && (forall b <- w :: b in final)
    && (forall b <- d :: d[b] == if b in w then final[b] else d0[b])
  }

  lemma WrittenMore(d0: map<nat, seq<byte>>, l0: multiset<nat>, d: map<nat, seq<byte>>, l: multiset<nat>,
                    w: set<nat>, final: map<nat, seq<byte>>, b: nat)
    requires Written(d0, l0, d, l, w, final) && b !in w && b !in d0 && b in final
    ensures Written(d0, l0, d[b := final[b]], l + multiset{b}, w + {b}, final)
  {}

  ghost predicate Flushed(fs0: Fs, fs: Fs, w: set<nat>)
    requires Full(fs0)
  {
    fs == fs0.(disk := fs.disk, log := fs.log) && Written(fs0.disk, fs0.log, fs.disk, fs.log, w, FinalDisk(fs0))
  }

  lemma FlushNone(fs: Fs)
    requires Full(fs)
    ensures Flushed(fs, fs, {})
  {
    hide Full, FinalDisk;
    assert fs == fs.(disk := fs.disk, log := fs.log);
  }

  lemma FlushFrame(fs0: Fs, fs: Fs, w: set<nat>)
    requires Full(fs0) && Flushed(fs0, fs, w)
    ensures fs.ninos == fs0.ninos && fs.next == fs0.next && fs.unused == fs0.unused && fs.inodes == fs0.inodes && fs.index == fs0.index
  {
    hide Full, FinalDisk;
  }

  lemma FlushStep(fs0: Fs, fs: Fs, w: set<nat>, b: nat, data: seq<byte>)
    requires Full(fs0) && Flushed(fs0, fs, w) && b !in w && b !in fs0.disk && |data| <= BLKSIZE
    requires b in FinalDisk(fs0) && Padded(data) == FinalDisk(fs0)[b]
    ensures Flushed(fs0, WriteBlock(fs, data, b), w + {b})
  {
    hide Full, FinalDisk, Written, Padded;
    WrittenMore(fs0.disk, fs0.log, fs.disk, fs.log, w, FinalDisk(fs0), b);
  }

  lemma AllBlocks(fs: Fs)
    requires Full(fs)
    ensures FinalDisk(fs).Keys == fs.disk.Keys + MetaBlocks(fs.ninos) + fs.index.Keys + fs.inodes.Keys
    ensures forall b <- fs.disk :: FinalDisk(fs)[b] == fs.disk[b] && b !in MetaBlocks(fs.ninos) && b !in fs.index && b !in fs.inodes
    ensures MetaBlocks(fs.ninos) !! fs.index.Keys && MetaBlocks(fs.ninos) !! fs.inodes.Keys && fs.index.Keys !! fs.inodes.Keys
    ensures forall b <- MetaBlocks(fs.ninos) + fs.index.Keys + fs.inodes.Keys :: b < fs.ninos
  {
    hide FilesOk, OnDisk;
    forall b | b in fs.disk
      ensures IsData(fs, b)
    {
    }
  }

  lemma WrittenAll(d0: map<nat, seq<byte>>, l0: multiset<nat>, d: map<nat, seq<byte>>, l: multiset<nat>,
                   w: set<nat>, final: map<nat, seq<byte>>)
    requires Written(d0, l0, d, l, w, final) && final.Keys == d0.Keys + w && forall b <- d0 :: final[b] == d0[b]
    ensures d == final && l == l0 + multiset(w)
  {}

  lemma DisjointUnion(a: set<nat>, b: set<nat>, c: set<nat>)
    requires a !! b && a !! c && b !! c
    ensures multiset(a + b + c) == multiset(a) + multiset(b) + multiset(c)
  {}

  // The contents that the flush gives to the blocks of each kind.

  lemma FinalBitmap(fs: Fs, k: nat)
    requires Full(fs) && BLKBITS * k < fs.ninos
    ensures var b := BLKN_FREEMAP + k;
      && b in FinalDisk(fs) && FinalDisk(fs)[b] == Flat(BitmapWords(fs.ninos, fs.next, k))
      && b in MetaBlocks(fs.ninos) && b !in fs.disk && b < fs.ninos
  {
    hide FilesOk, OnDisk, BitmapWords;
    var b := BLKN_FREEMAP + k;
    assert b < FirstFree(fs.ninos);
    assert b in FinalDisk(fs);
  }

  lemma FinalSuper(fs: Fs)
    requires Full(fs)
    ensures fs.unused >= 0 && FinalDisk(fs).Keys >= {BLKN_SUPER}
    ensures FinalDisk(fs)[BLKN_SUPER] == Padded(SuperBytes(fs.ninos, fs.unused, fs.slack))
    ensures BLKN_SUPER in MetaBlocks(fs.ninos) && BLKN_SUPER !in fs.disk && BLKN_SUPER < fs.ninos
  {
    hide FilesOk, OnDisk, SuperBytes;
    assert BLKN_SUPER in FinalDisk(fs);
  }

  lemma FinalIndex(fs: Fs, b: nat)
    requires Full(fs) && b in fs.index
    ensures b in FinalDisk(fs) && FinalDisk(fs)[b] == Flat(fs.index[b].words)
    ensures b !in fs.disk && b < fs.ninos && b !in MetaBlocks(fs.ninos) && b !in fs.inodes && |fs.index[b].words| == NENTRY
  {
    hide FilesOk, OnDisk;
    assert b in FinalDisk(fs);
    WideIndex(fs, b);
  }

  lemma WideIndex(fs: Fs, b: nat)
    requires FilesOk(fs) && b in fs.index
    ensures |fs.index[b].words| == NENTRY
  {}

  lemma FinalInode(fs: Fs, f: nat)
    requires Full(fs) && f in fs.inodes && |fs.inodes[f].direct| == NDIRECT
    ensures f in FinalDisk(fs) && FinalDisk(fs)[f] == Padded(InodeBytes(fs.inodes[f]))
    ensures f !in fs.disk && f < fs.ninos && f !in MetaBlocks(fs.ninos) && f !in fs.index
  {
    hide FilesOk, OnDisk;
    assert f in FinalDisk(fs);
  }

  /** A loop over a whole block's worth of bytes has nothing to pad. */
  lemma WholeBlock(data: seq<byte>)
    requires |data| == BLKSIZE
    ensures Padded(data) == data
  {}

  /** The first n bitmap blocks. */
  function BitmapRange(n: nat): set<nat> {
    set b: nat | 0 <= b < BLKN_FREEMAP + n && IsBitmap(n, b)
  }

  predicate IsBitmap(n: nat, b: nat) {
    BLKN_FREEMAP <= b < BLKN_FREEMAP + n
  }

  lemma BitmapRangeNext(n: nat)
    ensures BitmapRange(n + 1) == BitmapRange(n) + {BLKN_FREEMAP + n} && BLKN_FREEMAP + n !in BitmapRange(n)
    ensures BitmapRange(0) == {} && BLKN_SUPER !in BitmapRange(n)
  {}

  lemma BitmapRangeAll(ninos: nat, n: nat)
    requires FirstFree(ninos) == BLKN_FREEMAP + n
    ensures BitmapRange(n) + {BLKN_SUPER} == MetaBlocks(ninos)
  {}

  lemma NextInDisk(fs: Fs)
    requires Full(fs)
    ensures fs.next <= fs.ninos
  {}

  /** Once superblock, bitmap, index blocks and inodes are written, the disk is final and the log complete. */
  lemma FlushDone(fs0: Fs, fs: Fs)
    requires Full(fs0) && Flushed(fs0, fs, MetaBlocks(fs0.ninos) + fs0.index.Keys + fs0.inodes.Keys)
    ensures fs.disk == FinalDisk(fs0) && fs.log == FinalLog(fs0)
  {
    hide Full, FinalDisk, MetaBlocks, Written;
    AllBlocks(fs0);
    var meta := MetaBlocks(fs0.ninos);
    var w := meta + fs0.index.Keys + fs0.inodes.Keys;
    assert FinalDisk(fs0).Keys == fs0.disk.Keys + w;
    WrittenAll(fs0.disk, fs0.log, fs.disk, fs.log, w, FinalDisk(fs0));
    DisjointUnion(meta, fs0.index.Keys, fs0.inodes.Keys);
  }

  /** A chain is determined by its head, so it does not repeat an object. */
  lemma {:induction false} InodeChainIs(head: CacheInode?, s: seq<CacheInode>, t: seq<CacheInode>)
    requires InodeChain(head, s) && InodeChain(head, t)
    ensures s == t
  {
    if s != [] {
      InodeChainIs(s[0].hashNext, s[1..], t[1..]);
      assert s == [s[0]] + s[1..] && t == [t[0]] + t[1..];
    }
  }

  lemma {:induction false} InodeChainDrop(head: CacheInode?, s: seq<CacheInode>, k: nat)
    requires InodeChain(head, s) && k < |s|
    ensures InodeChain(s[k], s[k..])
  {
    if k > 0 {
      InodeChainDrop(s[0].hashNext, s[1..], k - 1);
      assert s[1..][k - 1..] == s[k..];
    } else {
      assert s[0..] == s;
    }
  }

  lemma InodeChainNoRepeat(head: CacheInode?, s: seq<CacheInode>, k: nat)
    requires InodeChain(head, s) && k < |s|
    ensures s[k] !in s[..k]
  {
    if s[k] in s[..k] {
      var j :| 0 <= j < k && s[j] == s[k];
      InodeChainDrop(head, s, j);
      InodeChainDrop(head, s, k);
      InodeChainIs(s[k], s[j..], s[k..]);
      assert false;
    }
  }

  lemma {:induction false} BlockChainIs(head: CacheBlock?, s: seq<CacheBlock>, t: seq<CacheBlock>)
    requires BlockChain(head, s) && BlockChain(head, t)
    ensures s == t
  {
    if s != [] {
      BlockChainIs(s[0].hashNext, s[1..], t[1..]);
      assert s == [s[0]] + s[1..] && t == [t[0]] + t[1..];
    }
  }

  lemma {:induction false} BlockChainDrop(head: CacheBlock?, s: seq<CacheBlock>, k: nat)
    requires BlockChain(head, s) && k < |s|
    ensures BlockChain(s[k], s[k..])
  {
    if k > 0 {
      BlockChainDrop(s[0].hashNext, s[1..], k - 1);
      assert s[1..][k - 1..] == s[k..];
    } else {
      assert s[0..] == s;
    }
  }

  lemma BlockChainNoRepeat(head: CacheBlock?, s: seq<CacheBlock>, k: nat)
    requires BlockChain(head, s) && k < |s|
    ensures s[k] !in s[..k]
  {
    if s[k] in s[..k] {
      var j :| 0 <= j < k && s[j] == s[k];
      BlockChainDrop(head, s, j);
      BlockChainDrop(head, s, k);
      BlockChainIs(s[k], s[j..], s[k..]);
      assert false;
    }
  }

  lemma NoBits(start: nat, end: nat)
    requires end <= start
    ensures RangeWords(start, end) == Zeros(NENTRY)
  {
    forall w | 0 <= w < NENTRY
      ensures RangeWords(start, end)[w] == 0
    {
      RangeEmpty(WORD * w, start, end, WORD);
    }
  }

  ghost function BlockNumbers(cached: map<nat, CacheBlock>, s: seq<CacheBlock>): set<nat> {
    set b | b in cached && cached[b] in s
  }

  ghost function InodeNumbers(nodes: map<nat, CacheInode>, s: seq<CacheInode>): set<nat> {
    set f | f in nodes && nodes[f] in s
  }

  lemma BlockNumbersNone(cached: map<nat, CacheBlock>)
    ensures BlockNumbers(cached, []) == {}
  {}

  lemma InBlockChain(heads: seq<CacheBlock?>, chains: seq<seq<CacheBlock>>, cached: map<nat, CacheBlock>, h: nat, k: nat)
    requires BlockChainsOk(heads, chains, cached) && h < HASH_LIST_SIZE && k < |chains[h]|
    ensures chains[h][k].ino in cached && cached[chains[h][k].ino] == chains[h][k]
    ensures chains[h][k] !in chains[h][..k]
  {
    BlockChainNoRepeat(heads[h], chains[h], k);
    assert chains[h][k] in chains[h];
  }

  lemma BlockNumbersNext(held: Held, repr: set<object>, h: nat, k: nat)
    requires Owned(held.nodes, held.cached, held.owner, repr) && h < |held.blockChains| && k < |held.blockChains[h]|
    requires var s := held.blockChains[h]; s[k].ino in held.cached && held.cached[s[k].ino] == s[k] && s[k] !in s[..k]
    ensures var s := held.blockChains[h];
      && BlockNumbers(held.cached, s[..k + 1]) == BlockNumbers(held.cached, s[..k]) + {s[k].ino}
      && s[k].ino !in BlockNumbers(held.cached, s[..k]) && s[k] in s
  {
    var s := held.blockChains[h];
    assert s[..k + 1] == s[..k] + [s[k]];
  }

  lemma ChainAt(heads: seq<CacheInode?>, held: Held, byReal: map<nat, nat>, h: nat)
    requires InodeChainsOk(heads, held.inodeChains, held.nodes, byReal) && h < HASH_LIST_SIZE
    ensures InodeChain(heads[h], held.inodeChains[h])
  {
    hide Bucket, FindHost, InodeChain;
  }

  lemma BlockChainAt(heads: seq<CacheBlock?>, held: Held, h: nat)
    requires BlockChainsOk(heads, held.blockChains, held.cached) && h < HASH_LIST_SIZE
    ensures BlockChain(heads[h], held.blockChains[h])
  {
    hide BlockChain;
  }

  lemma ValueIs(nodes: map<nat, CacheInode>, inodes: map<nat, Inode>, index: map<nat, Index>, cached: map<nat, CacheBlock>, f: nat)
    requires NodesOk(nodes, inodes, index, cached) && f in nodes
    ensures f in inodes && nodes[f].Value() == inodes[f] && |inodes[f].direct| == NDIRECT
  {
    assert NodeOk(nodes[f], inodes[f], index, cached);
  }

  lemma InodeNumbersNone(nodes: map<nat, CacheInode>)
    ensures InodeNumbers(nodes, []) == {}
  {}

  lemma InInodeChain(heads: seq<CacheInode?>, chains: seq<seq<CacheInode>>, nodes: map<nat, CacheInode>, byReal: map<nat, nat>,
                     h: nat, k: nat)
    requires InodeChainsOk(heads, chains, nodes, byReal) && h < HASH_LIST_SIZE && k < |chains[h]|
    ensures chains[h][k].ino in nodes && nodes[chains[h][k].ino] == chains[h][k]
    ensures chains[h][k] !in chains[h][..k]
  {
    hide Bucket, FindHost;
    InodeChainNoRepeat(heads[h], chains[h], k);
    assert chains[h][k] in chains[h];
  }

  lemma InodeNumbersNext(held: Held, repr: set<object>, h: nat, k: nat)
    requires Owned(held.nodes, held.cached, held.owner, repr) && h < |held.inodeChains| && k < |held.inodeChains[h]|
    requires var s := held.inodeChains[h]; s[k].ino in held.nodes && held.nodes[s[k].ino] == s[k] && s[k] !in s[..k]
    ensures var s := held.inodeChains[h];
      && InodeNumbers(held.nodes, s[..k + 1]) == InodeNumbers(held.nodes, s[..k]) + {s[k].ino}
      && s[k].ino !in InodeNumbers(held.nodes, s[..k]) && s[k] in s
  {
    var s := held.inodeChains[h];
    assert s[..k + 1] == s[..k] + [s[k]];
  }

  // ---- what the flush has covered after the first h chains ----

  ghost function BlocksBelow(held: Held, h: nat): set<nat> {
    if h == 0 then {} else held.cached.Keys
  }

  ghost function InodesBelow(held: Held, h: nat): set<nat> {
    set f | f in held.nodes && Bucket(held.nodes[f].host) < h
  }

  lemma ChainsStart(held: Held)
    ensures BlocksBelow(held, 0) == {} && InodesBelow(held, 0) == {}
  {
    hide Bucket;
  }

  lemma ChainsEnd(iheads: seq<CacheInode?>, bheads: seq<CacheBlock?>, held: Held, byReal: map<nat, nat>)
    ensures BlocksBelow(held, HASH_LIST_SIZE) == held.cached.Keys && InodesBelow(held, HASH_LIST_SIZE) == held.nodes.Keys
  {
    forall f | f in held.nodes ensures Bucket(held.nodes[f].host) < HASH_LIST_SIZE {}
  }

  /** Chain h holds exactly the objects that hash to h, and none that an earlier chain holds. */
  lemma ChainStep(iheads: seq<CacheInode?>, bheads: seq<CacheBlock?>, held: Held, byReal: map<nat, nat>, h: nat)
    requires InodeChainsOk(iheads, held.inodeChains, held.nodes, byReal) && BlockChainsOk(bheads, held.blockChains, held.cached)
    requires h < HASH_LIST_SIZE
    ensures BlocksBelow(held, h + 1) == BlocksBelow(held, h) + BlockNumbers(held.cached, held.blockChains[h])
    ensures InodesBelow(held, h + 1) == InodesBelow(held, h) + InodeNumbers(held.nodes, held.inodeChains[h])
    ensures forall b <- held.cached | held.cached[b] in held.blockChains[h] :: b !in BlocksBelow(held, h)
    ensures forall f <- held.nodes | held.nodes[f] in held.inodeChains[h] :: f !in InodesBelow(held, h)
  {
    hide Bucket, FindHost, InodeChain, BlockChain;
    forall f | f in held.nodes
      ensures held.nodes[f] in held.inodeChains[h] <==> Bucket(held.nodes[f].host) == h
    {
    }
  }

  lemma BitmapSize(ninos: nat)
    ensures FirstFree(ninos) >= BLKN_FREEMAP
  {}

  /** Set the bits start .. end of a buffer of zeros, one by one. */
  method SetBitRange(data: array<nat>, start: nat, end: nat)
    requires data.Length == NENTRY && start <= end <= BLKBITS && data[..] == Zeros(NENTRY)
    modifies data
    ensures data[..] == RangeWords(start, end)
  {
    var j := start;
    forall w | 0 <= w < NENTRY
      ensures data[w] == RangeWord(WORD * w, start, start, WORD)
    {
      RangeEmpty(WORD * w, start, start, WORD);
      assert data[w] == data[..][w];
    }
    while j < end
      invariant start <= j <= end
      invariant forall w :: 0 <= w < NENTRY ==> data[w] == RangeWord(WORD * w, start, j, WORD)
    {
      forall w | 0 <= w < NENTRY
        ensures RangeWord(WORD * w, start, j + 1, WORD) ==
                if w == j / WORD then OrBit(data[w], j % WORD) else data[w]
      {
        RangeWordStep(WORD * w, start, j, WORD);
      }
      data[j / WORD] := OrBit(data[j / WORD], j % WORD);
      j := j + 1;
    }
  }
}
