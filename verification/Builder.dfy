/** The image builder on cached inodes and index blocks that are updated in place. */
module Builder {
  import opened Bytes
  import opened Wrappers
  import opened Image
  import BlockMap
  import opened Store
  import opened Build
  import Bitmap
  import opened Disk
  import opened Caches
  import opened Flush

  lemma FirstParts(s: Sfs, o: CacheInode)
    requires s.inodes.Length == HASH_LIST_SIZE && s.blocks.Length == HASH_LIST_SIZE
    requires o.ino == BLKN_ROOT && o.host == 0 && o.hashNext == null
    requires o.direct.Length == NDIRECT && o.direct[..] == Zeros(NDIRECT) && o.kind == T_DIR
    requires o.size == o.nlinks == o.blocks == o.indirect == o.dbl == o.nblks == 0
    requires forall h :: 0 <= h < HASH_LIST_SIZE ==> s.inodes[h] == if h == Bucket(0) then o else null
    requires forall h :: 0 <= h < HASH_LIST_SIZE ==> s.blocks[h] == null
    ensures var repr: set<object> := {s, s.inodes, s.blocks, s.entryName, o, o.direct};
      && Owned(FirstHeld(o).nodes, FirstHeld(o).cached, FirstHeld(o).owner, repr)
      && AllOk(FirstHeld(o), map[BLKN_ROOT := NewNode(T_DIR, 0)], map[], map[0 := BLKN_ROOT], repr, s.inodes[..], s.blocks[..])
  {
    hide InodeChainsOk, BlockChainsOk, NodesOk, CachesOk, Bucket;
    FirstInodeChains(s.inodes[..], FirstHeld(o).inodeChains, o);
    NoBlockChains(s.blocks[..], FirstHeld(o).blockChains);
    FirstNode(o);
  }

  lemma FirstState(ninos: nat, next: nat, slack: Slack, o: CacheInode)
    ensures var fs := EmptyFs(ninos, next, slack);
      && fs.ninos == ninos && fs.next == next && fs.unused == ninos - next && fs.disk == map[] && fs.slack == slack
      && fs.name == Zeros(NAMELEN) && fs.inodes == map[BLKN_ROOT := NewNode(T_DIR, 0)] && fs.index == map[]
      && fs.byReal == map[0 := BLKN_ROOT]
    ensures var h := FirstHeld(o);
      && h.nodes == map[BLKN_ROOT := o] && h.cached == map[]
      && |h.blockChains| == HASH_LIST_SIZE && |h.inodeChains| == HASH_LIST_SIZE
  {}

  lemma CopyStep(buf: seq<byte>, name: seq<byte>, k: nat)
    requires k < |name| < |buf|
    ensures (name[..k] + buf[k..])[k := name[k]] == name[..k + 1] + buf[k + 1..]
  {}

  lemma CopyEnd(buf: seq<byte>, name: seq<byte>)
    requires |name| < |buf|
    ensures (name[..|name|] + buf[|name|..])[|name| := 0] == StrCpy(buf, name)
  {}

  /** Every object of an inode stays. */
  ghost predicate Keeps(nodes: map<nat, CacheInode>, nodes': map<nat, CacheInode>) {
    forall f <- nodes :: f in nodes' && nodes'[f] == nodes[f]
  }

  class Sfs {
    var ninos: nat
    var nextIno: nat
    var unusedBlocks: int
    var root: CacheInode
    const inodes: array<CacheInode?>
    const blocks: array<CacheBlock?>
    const entryName: array<byte>
    const slack: Slack
    var disk: map<nat, seq<byte>>

    /** The state as a value; the objects that hold its inodes and index blocks; the hash chains; the owner of each
        array; the number of searches by block number; and the objects in use. */
    ghost var fs: Fs
    ghost var held: Held
    ghost var searches: nat
    ghost var Repr: set<object>

    /** The fields agree with the state as a value, and the objects held are owned. */
    ghost predicate FieldsOk()
      reads this, entryName
    {
      && ninos == fs.ninos && nextIno == fs.next && unusedBlocks == fs.unused && disk == fs.disk && slack == fs.slack
      && entryName.Length == NAMELEN && entryName[..] == fs.name
      && blocks.Length == HASH_LIST_SIZE && |held.blockChains| == HASH_LIST_SIZE
      && inodes.Length == HASH_LIST_SIZE && |held.inodeChains| == HASH_LIST_SIZE
      && held.nodes.Keys == fs.inodes.Keys && held.cached.Keys == fs.index.Keys
      && Owned(held.nodes, held.cached, held.owner, Repr)
      && BLKN_ROOT in held.nodes && held.nodes[BLKN_ROOT] == root
    }

    ghost predicate Valid()
      reads this, Repr
      ensures Valid() ==> this in Repr
    {
      && this in Repr && inodes in Repr && blocks in Repr && entryName in Repr && FieldsOk()
      && AllOk(held, fs.inodes, fs.index, fs.byReal, Repr, inodes[..], blocks[..])
    }

    lemma ValidParts()
      requires Valid()
      ensures this in Repr && inodes in Repr && blocks in Repr && held.nodes.Keys == fs.inodes.Keys
    {}

    lemma InRepr(f: nat)
      requires Valid() && f in held.nodes
      ensures held.nodes[f] in Repr && held.nodes[f].direct in Repr
    {
      hide AllOk;
    }

    /** Empty chains and the root inode, not yet in its chain. */
    constructor (ninos: nat, next: nat, slack: Slack)
      ensures Bare() && fresh(Region())
      ensures this.ninos == ninos && nextIno == next && unusedBlocks == ninos - next && this.slack == slack && searches == 0
    {
      hide AllOk, Owned, Bucket;
      this.ninos, nextIno, unusedBlocks := ninos, next, ninos - next;
      disk := map[];
      this.slack := slack;
      inodes := new CacheInode?[HASH_LIST_SIZE](_ => null);
      blocks := new CacheBlock?[HASH_LIST_SIZE](_ => null);
      entryName := new byte[NAMELEN](_ => 0);
      root := new CacheInode(BLKN_ROOT, 0, T_DIR, null);
      searches := 0;
      new;
      assert entryName[..] == Zeros(NAMELEN);
    }

    ghost function Region(): set<object>
      reads this
    {
      {this, inodes, blocks, entryName, root, root.direct}
    }

    ghost predicate Bare()
      reads this, inodes, blocks, entryName, root, root.direct
    {
      && disk == map[] && entryName.Length == NAMELEN && entryName[..] == Zeros(NAMELEN)
      && inodes.Length == HASH_LIST_SIZE && (forall h :: 0 <= h < HASH_LIST_SIZE ==> inodes[h] == null)
      && blocks.Length == HASH_LIST_SIZE && (forall h :: 0 <= h < HASH_LIST_SIZE ==> blocks[h] == null)
      && root.ino == BLKN_ROOT && root.host == 0 && root.kind == T_DIR && root.hashNext == null
      && root.direct.Length == NDIRECT && root.direct[..] == Zeros(NDIRECT)
      && root.size == root.nlinks == root.blocks == root.indirect == root.dbl == root.nblks == 0
    }

    /** Put the root inode into its chain. */
    method InsertRoot()
      requires Bare() && unusedBlocks == ninos - nextIno
      modifies this, inodes
      ensures Valid() && Repr == old(Region()) && searches == old(searches)
      ensures fs == EmptyFs(old(ninos), old(nextIno), slack)
    {
      hide AllOk, Owned, Bucket, FirstHeld, EmptyFs, NewNode;
      inodes[Bucket(0)] := root;
      FirstParts(this, root);
      FirstState(ninos, nextIno, slack, root);
      Adopt(EmptyFs(ninos, nextIno, slack), FirstHeld(root), Region());
    }

    /** Let the objects of h, all in repr, stand for the state fs'. */
    ghost method Adopt(fs': Fs, h: Held, repr: set<object>)
      requires this in repr && inodes in repr && blocks in repr && entryName in repr
      requires ninos == fs'.ninos && nextIno == fs'.next && unusedBlocks == fs'.unused && disk == fs'.disk && slack == fs'.slack
      requires entryName.Length == NAMELEN && entryName[..] == fs'.name
      requires blocks.Length == HASH_LIST_SIZE && |h.blockChains| == HASH_LIST_SIZE
      requires inodes.Length == HASH_LIST_SIZE && |h.inodeChains| == HASH_LIST_SIZE
      requires h.nodes.Keys == fs'.inodes.Keys && h.cached.Keys == fs'.index.Keys
      requires Owned(h.nodes, h.cached, h.owner, repr)
      requires AllOk(h, fs'.inodes, fs'.index, fs'.byReal, repr, inodes[..], blocks[..])
      requires BLKN_ROOT in h.nodes && h.nodes[BLKN_ROOT] == root
      modifies this`fs, this`held, this`Repr
      ensures Valid() && fs == fs' && held == h && Repr == repr
    {
      hide AllOk, Owned;
      fs, held, Repr := fs', h, repr;
    }

    /** Everything is in order but for the fields of inode f. */
    ghost predicate ValidBut(f: nat)
      reads this, Repr
    {
      && this in Repr && inodes in Repr && blocks in Repr && entryName in Repr && FieldsOk()
      && OthersOk(held, fs.inodes, fs.index, fs.byReal, Repr, inodes[..], blocks[..], f)
    }

    /** Inode f may be changed. */
    lemma Open(f: nat)
      requires Valid() && f in held.nodes && f !in fs.index
      ensures ValidBut(f) && NodeOk(held.nodes[f], fs.inodes[f], fs.index, held.cached)
      ensures held.nodes[f] in Repr && held.nodes[f].direct in Repr && f in fs.inodes
      ensures forall g <- held.nodes | g != f :: held.nodes[g] != held.nodes[f] && held.nodes[g].direct != held.nodes[f].direct
      ensures forall b <- held.cached :: held.cached[b].cache != held.nodes[f].direct
    {
      hide AllOk, OthersOk, Owned, NodeOk;
      AllButOne(held, fs.inodes, fs.index, fs.byReal, Repr, inodes[..], blocks[..], f);
    }

    /** Inode f stands for i. */
    ghost method Settle(f: nat, i: Inode)
      requires ValidBut(f) && f in held.nodes && NodeOk(held.nodes[f], i, fs.index, held.cached)
      modifies this`fs
      ensures Valid() && fs == old(fs).(inodes := old(fs).inodes[f := i])
    {
      hide AllOk, OthersOk, Owned, NodeOk;
      AllWithOne(held, fs.inodes, fs.index, fs.byReal, Repr, inodes[..], blocks[..], f, i);
      fs := fs.(inodes := fs.inodes[f := i]);
    }

    // ---- allocation ----

    method AllocIno() returns (r: Outcome, b: nat)
      requires Valid()
      modifies this
      ensures unchanged(this) || r.Pass?
      ensures match r
              case Pass => Valid() && Image.AllocIno(old(fs)) == Ok((fs, b))
              case Fail(e) => Image.AllocIno(old(fs)) == Err(e)
      ensures held == old(held) && Repr == old(Repr) && searches == old(searches)
    {
      hide AllOk, Owned;
      if nextIno < ninos {
        unusedBlocks := unusedBlocks - 1;
        b := nextIno;
        nextIno := nextIno + 1;
        fs := Image.AllocIno(fs).value.0;
        r := Pass;
      } else {
        b := 0;
        r := Fail(NoSpace);
      }
    }

    method WriteBlock(data: seq<byte>, b: nat)
      requires Valid() && |data| <= BLKSIZE && b < ninos
      modifies this
      ensures Valid() && fs == Image.WriteBlock(old(fs), data, b)
      ensures held == old(held) && Repr == old(Repr) && searches == old(searches)
    {
      hide AllOk, Owned;
      disk := disk[b := Padded(data)];
      fs := Image.WriteBlock(fs, data, b);
    }

    /** A new index block, for slot pos of file f. */
    method AllocCacheBlock(ghost f: nat, ghost pos: nat) returns (r: Outcome, cb: CacheBlock?)
      requires Valid() && (forall b <- fs.index :: b < fs.next)
      modifies this, blocks
      ensures match r
              case Pass =>
                && Valid() && cb != null && fresh(cb) && fresh(cb.cache) && UpdateSlot(old(fs), 0, f, pos) == Ok((fs, cb.ino))
                && held.cached == old(held.cached)[cb.ino := cb] && Repr == old(Repr) + {cb, cb.cache}
              case Fail(e) => UpdateSlot(old(fs), 0, f, pos) == Err(e) && Repr == old(Repr)
      ensures held.nodes == old(held.nodes) && searches == old(searches)
    {
      hide NodesOk, InodeChainsOk, CachesOk, BlockChainsOk, Owned, Bucket;
      var b;
      r, b := AllocIno();
      cb := null;
      if r.Pass? {
        cb := new CacheBlock(b, blocks[Bucket(0)]);
        InsertBlock(cb, f, pos);
      }
    }

    /** Put a new index block at the head of its chain: the chain of the parameter of alloc_cache_block, 0. */
    method InsertBlock(cb: CacheBlock, ghost f: nat, ghost pos: nat)
      requires Valid() && cb.ino !in fs.index && cb.cache !in Repr
      requires cb.hashNext == blocks[Bucket(0)] && cb.cache.Length == NENTRY && cb.cache[..] == Zeros(NENTRY)
      modifies this, blocks
      ensures Valid() && fs == old(fs).(index := old(fs).index[cb.ino := Index(Zeros(NENTRY), f, pos)])
      ensures held.cached == old(held.cached)[cb.ino := cb] && Repr == old(Repr) + {cb, cb.cache}
      ensures held.nodes == old(held.nodes) && searches == old(searches)
    {
      hide AllOk, Owned, Bucket, WithBlock;
      WithBlockIs(held, cb);
      ghost var x := Index(Zeros(NENTRY), f, pos);
      BucketZero();
      AllWithBlock(held, fs.inodes, fs.index, fs.byReal, Repr, inodes[..], blocks[..], cb, x);
      blocks[Bucket(0)] := cb;
      assert blocks[..] == old(blocks[..])[0 := cb];
      held := WithBlock(held, cb);
      fs := fs.(index := fs.index[cb.ino := x]);
      Repr := Repr + {cb, cb.cache};
    }

    /** Put a new inode at the head of the chain of its host number. */
    method InsertInode(o: CacheInode)
      requires Valid() && o.ino !in fs.inodes && o !in Repr && o.direct !in Repr && o.hashNext == inodes[Bucket(o.host)]
      requires o.direct.Length == NDIRECT && o.Value() == NewNode(o.kind, o.host) && o.nblks == 0
      requires forall r <- fs.byReal :: fs.byReal[r] in held.nodes
      modifies this, inodes
      ensures Valid()
      ensures fs == old(fs).(inodes := old(fs).inodes[o.ino := NewNode(o.kind, o.host)], byReal := old(fs).byReal[o.host := o.ino])
      ensures held.nodes == old(held.nodes)[o.ino := o] && Repr == old(Repr) + {o, o.direct}
      ensures held.cached == old(held.cached) && searches == old(searches)
    {
      hide AllOk, Owned, Bucket, WithNode, NewNode;
      ghost var i, b := NewNode(o.kind, o.host), Bucket(o.host);
      WithNodeIs(held, o);
      NewNodeOk(o, fs.index, held.cached);
      AllWithNode(held, fs.inodes, fs.index, fs.byReal, Repr, inodes[..], blocks[..], o, i);
      inodes[Bucket(o.host)] := o;
      assert inodes[..] == old(inodes[..])[b := o];
      Adopt(fs.(inodes := fs.inodes[o.ino := i], byReal := fs.byReal[o.host := o.ino]), WithNode(held, o),
            Repr + {o, o.direct});
    }

    method AllocCacheInode(host: nat, kind: nat) returns (r: Outcome, ci: CacheInode?)
      requires Valid() && fs.next !in fs.inodes && (forall r <- fs.byReal :: fs.byReal[r] in fs.inodes)
      modifies this, inodes
      ensures match r
              case Pass =>
                && Valid() && ci != null && fresh(ci) && fresh(ci.direct) && ci.kind == kind
                && AllocInode(old(fs), host, kind) == Ok((fs, ci.ino))
                && held.nodes == old(held.nodes)[ci.ino := ci]
              case Fail(e) => AllocInode(old(fs), host, kind) == Err(e)
      ensures fresh(Repr - old(Repr)) && old(Repr) <= Repr
      ensures held.cached == old(held.cached) && searches == old(searches)
    {
      hide NodesOk, InodeChainsOk, CachesOk, BlockChainsOk, Owned, Bucket;
      var f;
      r, f := AllocIno();
      ci := null;
      if r.Pass? {
        ci := new CacheInode(f, host, kind, inodes[Bucket(host)]);
        InsertInode(ci);
      }
    }

    // ---- searching ----

    /** Walk the chain of the host number. */
    method SearchCacheInode(host: nat) returns (ci: CacheInode?)
      requires Valid() && (forall r <- fs.byReal :: fs.byReal[r] in fs.inodes)
      ensures if host in fs.byReal then
                && ci != null && ci.ino == fs.byReal[host] && ci.ino in held.nodes && ci == held.nodes[ci.ino]
              else ci == null
    {
      hide NodesOk, CachesOk, BlockChainsOk, Bucket;
      ci := inodes[Bucket(host)];
      ghost var s := held.inodeChains[Bucket(host)];
      assert InodeChain(inodes[..][Bucket(host)], s);
      while ci != null && ci.host != host
        invariant InodeChain(ci, s)
        invariant FindHost(s, host) == FindHost(held.inodeChains[Bucket(host)], host)
        decreases |s|
      {
        ci := ci.hashNext;
        s := s[1..];
      }
    }

    /** Walk the chain of the block number. Since every index block was inserted under 0, it is found only when its
        own number hashes to that chain. */
    method SearchCacheBlock(b: nat) returns (cb: CacheBlock?)
      requires Valid()
      modifies this`searches
      ensures Valid() && searches == old(searches) + 1
      ensures if b in held.cached && Bucket(b) == 0 then cb == held.cached[b] else cb == null
    {
      hide NodesOk, CachesOk, InodeChainsOk, Bucket;
      searches := searches + 1;
      cb := blocks[Bucket(b)];
      ghost var s := held.blockChains[Bucket(b)];
      assert BlockChain(blocks[..][Bucket(b)], s);
      while cb != null && cb.ino != b
        invariant BlockChain(cb, s)
        invariant forall c <- s :: c in held.blockChains[Bucket(b)]
        invariant forall c <- held.blockChains[Bucket(b)] :: c in s || c.ino != b
        decreases |s|
      {
        cb := cb.hashNext;
        s := s[1..];
      }
      if b in held.cached && Bucket(b) == 0 {
        assert held.cached[b] in held.blockChains[0];
        assert held.cached[b] in s;
      }
      assert cb != null ==> s[0] in held.blockChains[Bucket(b)];
    }

    // ---- appending ----

    /** The cached index block for a slot: a new one for an empty slot, else the pointer given, if it is the block in
        the slot, else the result of a search. */
    method UpdateCache(cb: CacheBlock?, slot: nat, ghost f: nat, ghost pos: nat) returns (r: Outcome, cb': CacheBlock?, slot': nat)
      requires Valid() && (forall b <- fs.index :: b < fs.next)
      modifies this, blocks
      ensures slot == 0 ==>
        match r
        case Pass =>
          && Valid() && cb' != null && fresh(cb') && fresh(cb'.cache) && UpdateSlot(old(fs), 0, f, pos) == Ok((fs, cb'.ino))
          && held.cached == old(held.cached)[cb'.ino := cb'] && Repr == old(Repr) + {cb', cb'.cache}
        case Fail(e) => UpdateSlot(old(fs), 0, f, pos) == Err(e) && Repr == old(Repr)
      ensures slot != 0 ==> Valid() && fs == old(fs) && held == old(held) && Repr == old(Repr)
      ensures slot != 0 && cb != null && cb.ino == slot ==> r.Pass? && cb' == cb
      ensures slot != 0 && (cb == null || cb.ino != slot) ==>
        if slot in held.cached && Bucket(slot) == 0 then r.Pass? && cb' == held.cached[slot] else r == Fail(LostBlock)
      ensures r.Pass? ==> cb' != null && slot' == cb'.ino
      ensures searches == old(searches) + if slot != 0 && (cb == null || cb.ino != slot) then 1 else 0
      ensures held.nodes == old(held.nodes)
    {
      hide NodesOk, CachesOk, InodeChainsOk, BlockChainsOk, Bucket;
      slot' := slot;
      if slot == 0 {
        r, cb' := AllocCacheBlock(f, pos);
        if r.Pass? {
          slot' := cb'.ino;
        }
      } else if cb == null || cb.ino != slot {
        cb' := SearchCacheBlock(slot);
        r := if cb' != null then Pass else Fail(LostBlock);
      } else {
        cb' := cb;
        r := Pass;
      }
    }

    method AppendDirectly(file: CacheInode, size: nat, b: nat)
      requires Valid() && file.ino in held.nodes && held.nodes[file.ino] == file && file.nblks < L0
      requires forall c <- fs.index :: c !in fs.inodes
      modifies this`fs, file, file.direct
      ensures held == old(held) && Repr == old(Repr) && searches == old(searches)
      ensures Valid()
      ensures var i := old(fs).inodes[file.ino];
        fs == old(fs).(inodes := old(fs).inodes[file.ino := Grow(i, size).(direct := i.direct[i.blocks := b])])
    {
      hide AllOk, OthersOk, Owned, NodeOk, Tip;
      ValidParts();
      ghost var f := file.ino;
      Open(f);
      NodeParts(file, fs.inodes[f], fs.index, held.cached);
      ghost var i := fs.inodes[f];
      ghost var i' := Grow(i, size).(direct := i.direct[i.blocks := b]);
      var n := file.nblks;
      file.direct[n] := b;
      file.Lengthen(size);
      NodeParts(file, i', fs.index, held.cached);
      Settle(f, i');
    }

    /** Store block number v in word k of an index block. */
    method StoreWord(cb: CacheBlock, k: nat, v: nat)
      requires Valid() && cb.ino in held.cached && held.cached[cb.ino] == cb && cb.ino !in fs.inodes
      requires k < NENTRY == |fs.index[cb.ino].words|
      requires TipsSafe(fs.inodes, fs.index, SetWord(fs.index, cb.ino, k, v))
      modifies this`fs, cb.cache
      ensures held == old(held) && Repr == old(Repr) && searches == old(searches)
      ensures Valid() && fs == old(fs).(index := SetWord(old(fs).index, cb.ino, k, v))
    {
      hide AllOk, OtherBlocksOk, Owned, TipsSafe, CacheOk;
      ghost var s, ih, bh := cb.ino, inodes[..], blocks[..];
      ghost var x := fs.index[s].(words := fs.index[s].words[k := v]);
      AllButBlock(held, fs.inodes, fs.index, fs.byReal, Repr, ih, bh, s, x);
      CacheParts(cb, fs.index[s]);
      cb.cache[k] := v;
      CacheParts(cb, x);
      AllWithWords(held, fs.inodes, fs.index[s := x], fs.byReal, Repr, ih, bh, s);
      fs := fs.(index := fs.index[s := x]);
    }

    /** Set the slots and cached pointers of a file and make it one block longer. */
    method SetSlots(file: CacheInode, l1: CacheBlock?, l2: CacheBlock?, indirect: nat, dbl: nat, size: nat)
      requires Valid() && file.ino in held.nodes && held.nodes[file.ino] == file && file.ino !in fs.index
      requires var i' := Grow(fs.inodes[file.ino], size).(indirect := indirect, dbl := dbl);
        && (i'.blocks > L0 ==> Tip(fs.index, i') in held.cached && l1 == held.cached[Tip(fs.index, i')])
        && (i'.blocks > L1 ==> dbl in held.cached && l2 == held.cached[dbl])
      modifies this`fs, file
      ensures held == old(held) && Repr == old(Repr) && searches == old(searches)
      ensures Valid()
      ensures fs == old(fs).(inodes := old(fs).inodes[file.ino :=
                                Grow(old(fs).inodes[file.ino], size).(indirect := indirect, dbl := dbl)])
    {
      hide AllOk, OthersOk, Owned, NodeOk, Tip;
      ValidParts();
      ghost var f := file.ino;
      ghost var i' := Grow(fs.inodes[f], size).(indirect := indirect, dbl := dbl);
      Open(f);
      NodeParts(file, fs.inodes[f], fs.index, held.cached);
      file.Point(l1, l2, indirect, dbl, size);
      NodeParts(file, i', fs.index, held.cached);
      Settle(f, i');
    }

    /** UpdateCache when the pointer is coherent with the slot: the search is not reached. */
    method UseSlot(cb: CacheBlock?, slot: nat, ghost f: nat, ghost pos: nat) returns (r: Outcome, cb': CacheBlock?, slot': nat)
      requires Valid() && (forall b <- fs.index :: b < fs.next)
      requires slot != 0 ==> cb != null && cb.ino == slot && slot in held.cached && held.cached[slot] == cb
      modifies this, blocks
      ensures match r
              case Pass => && Valid() && UpdateSlot(old(fs), slot, f, pos) == Ok((fs, slot'))
                           && cb' != null && cb'.ino == slot' && slot' in held.cached && held.cached[slot'] == cb'
                           && (cb'.cache in old(Repr) || fresh(cb'.cache)) && cb'.cache in Repr
              case Fail(e) => UpdateSlot(old(fs), slot, f, pos) == Err(e)
      ensures held.nodes == old(held.nodes) && searches == old(searches) && fresh(Repr - old(Repr)) && old(Repr) <= Repr
      ensures r.Pass? ==> forall b <- old(held.cached) :: b in held.cached && held.cached[b] == old(held.cached[b])
    {
      hide InodeChainsOk, BlockChainsOk, NodesOk, CachesOk, Bucket;
      r, cb', slot' := UpdateCache(cb, slot, f, pos);
    }

    /** Store the number of the data block in indirect block cb, and make the file longer. */
    method StoreSingle(file: CacheInode, cb: CacheBlock, size: nat, b: nat)
      requires Valid() && file.ino in held.nodes && held.nodes[file.ino] == file
      requires cb.ino in held.cached && held.cached[cb.ino] == cb
      requires SingleReady(fs.inodes, fs.index, file.ino, size, cb.ino, b)
      requires file.nblks == fs.inodes[file.ino].blocks && file.dbl == fs.inodes[file.ino].dbl
      modifies this`fs, file, cb.cache
      ensures held == old(held) && Repr == old(Repr) && searches == old(searches)
      ensures Valid()
      ensures fs == AfterSingle(old(fs), file.ino, size, cb.ino, b)
    {
      hide InodeChainsOk, BlockChainsOk, Owned, NodesOk, CachesOk, TipsSafe;
      StoreWord(cb, file.nblks - L0, b);
      SetSlots(file, cb, file.l2, cb.ino, file.dbl, size);
    }

    method AppendIndirectly(file: CacheInode, size: nat, b: nat) returns (r: Outcome)
      requires Valid() && Inv(fs) && file.ino in held.nodes && held.nodes[file.ino] == file
      requires Core(fs, file.ino) && L0 <= fs.inodes[file.ino].blocks < L1
      modifies Repr
      ensures searches == old(searches)
      ensures fresh(Repr - old(Repr)) && old(Repr) <= Repr && held.nodes == old(held.nodes)
      ensures match r
              case Pass => Valid() && AppendL1(old(fs), file.ino, size, b) == Ok(fs)
              case Fail(e) => AppendL1(old(fs), file.ino, size, b) == Err(e)
    {
      hide InodeChainsOk, BlockChainsOk, Owned, NodesOk, CachesOk, FilesOk, Shape, Bucket, UpdateSlot, Tip, TipsSafe, Core, SingleReady, AfterSingle, AppendL1;
      ghost var f := file.ino;
      Coherent(held.nodes, fs.inodes, fs.index, held.cached, held.owner, Repr, f);
      IndirectStep(fs, f, size, b);
      var cb, slot;
      r, cb, slot := UseSlot(file.l1, file.indirect, f, 0);
      if r.Pass? {
        StoreSingle(file, cb, size, b);
      }
    }

    /** Store the numbers of the inner index block and of the data block, and make the file longer. */
    method StoreDouble(file: CacheInode, c2: CacheBlock, c1: CacheBlock, q: nat, k: nat, size: nat, b: nat)
      requires Valid() && file.ino in held.nodes && held.nodes[file.ino] == file
      requires c2.ino in held.cached && held.cached[c2.ino] == c2 && c1.ino in held.cached && held.cached[c1.ino] == c1
      requires StoreReady(fs.inodes, fs.index, file.ino, size, c2.ino, q, c1.ino, k, b)
      requires fs.inodes[file.ino].blocks < LN
      requires q == (fs.inodes[file.ino].blocks - L1) / NENTRY && k == (fs.inodes[file.ino].blocks - L1) % NENTRY
      requires file.indirect == fs.inodes[file.ino].indirect
      modifies this`fs, file, c1.cache, c2.cache
      ensures held == old(held) && Repr == old(Repr) && searches == old(searches)
      ensures Valid()
      ensures fs == AfterDouble(old(fs), file.ino, size, c2.ino, c1.ino, b)
    {
      hide InodeChainsOk, BlockChainsOk, Owned, NodesOk, CachesOk, Tip, TipsSafe;
      StoreWord(c2, q, c1.ino);
      StoreWord(c1, k, b);
      SetSlots(file, c1, c2, file.indirect, c2.ino, size);
    }

    /** The second level of the double-indirect branch, with the block c2 of the first level at hand; fs0 is the state
        before the branch. */
    method AppendInner(file: CacheInode, c2: CacheBlock, size: nat, b: nat, ghost fs0: Fs) returns (r: Outcome)
      requires Valid() && file.ino in held.nodes && held.nodes[file.ino] == file && (forall c <- fs.index :: c < fs.next)
      requires c2.ino in held.cached && held.cached[c2.ino] == c2 && c2.cache.Length == NENTRY
      requires Inv(fs0) && Core(fs0, file.ino) && L1 <= fs0.inodes[file.ino].blocks < LN && fs.inodes == fs0.inodes
      requires file.nblks == fs0.inodes[file.ino].blocks && file.indirect == fs0.inodes[file.ino].indirect
      requires UpdateSlot(fs0, fs0.inodes[file.ino].dbl, file.ino, 1) == Ok((fs, c2.ino))
      requires c2.ino in fs.index && |fs.index[c2.ino].words| == NENTRY
      requires var q := (file.nblks - L1) / NENTRY;
        var w := fs.index[c2.ino].words[q];
        && c2.cache[q] == w
        && (w != 0 ==> file.l1 != null && file.l1.ino == w && w in held.cached && held.cached[w] == file.l1)
      requires file in Repr && c2.cache in Repr
      modifies Repr
      ensures searches == old(searches)
      ensures fresh(Repr - old(Repr)) && old(Repr) <= Repr && held.nodes == old(held.nodes)
      ensures match r
              case Pass => Valid() && AppendL2(fs0, file.ino, size, b) == Ok(fs)
              case Fail(e) => AppendL2(fs0, file.ino, size, b) == Err(e)
    {
      hide InodeChainsOk, BlockChainsOk, Owned, NodesOk, CachesOk, FilesOk, Shape, Bucket, UpdateSlot, Tip, TipsSafe, Core, BlockMap.SlotGiven,
        StoreReady, AfterDouble;
      var q, k := (file.nblks - L1) / NENTRY, (file.nblks - L1) % NENTRY;
      DoubleStep2(fs0, file.ino, size, b);
      var c1, s1;
      r, c1, s1 := UseSlot(file.l1, c2.cache[q], file.ino, 2 + q);
      if r.Pass? {
        StoreDouble(file, c2, c1, q, k, size, b);
      }
    }

    method AppendDoubly(file: CacheInode, size: nat, b: nat) returns (r: Outcome)
      requires Valid() && Inv(fs) && file.ino in held.nodes && held.nodes[file.ino] == file
      requires Core(fs, file.ino) && L1 <= fs.inodes[file.ino].blocks < LN
      modifies Repr
      ensures searches == old(searches)
      ensures fresh(Repr - old(Repr)) && old(Repr) <= Repr && held.nodes == old(held.nodes)
      ensures match r
              case Pass => Valid() && AppendL2(old(fs), file.ino, size, b) == Ok(fs)
              case Fail(e) => AppendL2(old(fs), file.ino, size, b) == Err(e)
    {
      hide InodeChainsOk, BlockChainsOk, Owned, NodesOk, CachesOk, FilesOk, Shape, Bucket, UpdateSlot, Tip, TipsSafe, Core, BlockMap.SlotGiven;
      ghost var f := file.ino;
      Coherent(held.nodes, fs.inodes, fs.index, held.cached, held.owner, Repr, f);
      DoubleStep1(fs, f);
      var c2, s2;
      r, c2, s2 := UseSlot(file.l2, file.dbl, f, 1);
      if r.Pass? {
        CachedWord(held.cached, fs.index, s2, (file.nblks - L1) / NENTRY);
        r := AppendInner(file, c2, size, b, old(fs));
      }
    }

    /** Append data block b, holding size bytes, to a file. No search by block number is ever made. */
    method AppendBlock(file: CacheInode, size: nat, b: nat) returns (r: Outcome)
      requires Valid() && Inv(fs) && Core(fs, file.ino) && file.ino in held.nodes && held.nodes[file.ino] == file
      modifies Repr
      ensures searches == old(searches)
      ensures fresh(Repr - old(Repr)) && old(Repr) <= Repr && held.nodes == old(held.nodes)
      ensures match r
              case Pass => Valid() && Image.AppendBlock(old(fs), file.ino, size, b) == Ok(fs)
              case Fail(e) => Image.AppendBlock(old(fs), file.ino, size, b) == Err(e)
    {
      hide InodeChainsOk, BlockChainsOk, Owned, NodesOk, CachesOk, FilesOk, Shape, AppendL1, AppendL2, Tip, Core, Bucket;
      Coherent(held.nodes, fs.inodes, fs.index, held.cached, held.owner, Repr, file.ino);
      Apart(fs);
      if file.nblks >= LN {
        r := Fail(TooBig);
      } else if file.nblks < L0 {
        AppendDirectly(file, size, b);
        r := Pass;
      } else if file.nblks < L1 {
        r := AppendIndirectly(file, size, b);
      } else {
        r := AppendDoubly(file, size, b);
      }
    }

    // ---- entries and files ----

    /** strcpy into the static entry buffer: the bytes behind the terminating zero stay. */
    method CopyName(name: seq<byte>)
      requires Valid() && |name| <= MAX_FNAME_LEN
      modifies this`fs, entryName
      ensures Valid() && fs == old(fs).(name := StrCpy(old(fs).name, name))
    {
      hide AllOk, Owned;
      ghost var buf := entryName[..];
      var k := 0;
      assert entryName[..] == name[..0] + buf[0..];
      while k < |name|
        invariant 0 <= k <= |name| && entryName[..] == name[..k] + buf[k..]
        modifies entryName
      {
        CopyStep(buf, name, k);
        entryName[k] := name[k];
        k := k + 1;
      }
      entryName[k] := 0;
      CopyEnd(buf, name);
      fs := fs.(name := entryName[..]);
    }

    /** Count one more directory entry for a file, in 16 bits. */
    method CountLink(file: CacheInode)
      requires Valid() && file.ino in held.nodes && held.nodes[file.ino] == file && file.ino !in fs.index
      modifies this`fs, file
      ensures Valid() && fs == Link(old(fs), file.ino)
      ensures held == old(held) && Repr == old(Repr) && searches == old(searches)
    {
      hide AllOk, OthersOk, Owned, NodeOk, Tip;
      ValidParts();
      ghost var f := file.ino;
      Open(f);
      NodeParts(file, fs.inodes[f], fs.index, held.cached);
      ghost var i' := Link(fs, f).inodes[f];
      file.nlinks := (file.nlinks + 1) % 0x1_0000;
      TipLinks(fs.index, fs.inodes[f], i');
      NodeParts(file, i', fs.index, held.cached);
      Settle(f, i');
    }

    /** Allocate a block, write data to it and append it to a file. */
    method PutBlock(file: CacheInode, data: seq<byte>, size: nat) returns (r: Outcome)
      requires Valid() && Full(fs) && file.ino in held.nodes && held.nodes[file.ino] == file && |data| <= BLKSIZE
      modifies Repr
      ensures searches == old(searches)
      ensures fresh(Repr - old(Repr)) && old(Repr) <= Repr && held.nodes == old(held.nodes)
      ensures match r
              case Pass => Valid() && Put(old(fs), file.ino, data, size) == Ok(fs)
              case Fail(e) => Put(old(fs), file.ino, data, size) == Err(e)
    {
      hide InodeChainsOk, BlockChainsOk, Owned, NodesOk, CachesOk, FilesOk, Shape, LogOk, OnDisk, Bucket;
      PutParts(fs, file.ino, data, size);
      var b;
      r, b := AllocIno();
      if r.Pass? {
        WriteBlock(data, b);
        r := AppendBlock(file, size, b);
      }
    }

    method AddEntry(current: CacheInode, file: CacheInode, name: seq<byte>) returns (r: Outcome)
      requires Valid() && Full(fs) && current.kind == T_DIR && |name| <= MAX_FNAME_LEN
      requires current.ino in held.nodes && held.nodes[current.ino] == current
      requires file.ino in held.nodes && held.nodes[file.ino] == file
      modifies Repr
      ensures searches == old(searches)
      ensures fresh(Repr - old(Repr)) && old(Repr) <= Repr
      ensures r.Pass? ==> Valid() && Full(fs) && Keeps(old(held.nodes), held.nodes)
      ensures Build.AddEntry(old(fs), current.ino, file.ino, name) == match r case Pass => Ok(fs) case Fail(e) => Err(e)
    {
      hide AllOk, Owned, FilesOk, Shape, LogOk, OnDisk, Bucket, View, Linked, Put, StrCpy, EntryBytes;
      CopyName(name);
      NameOk(old(fs), fs.name);
      r := PutBlock(current, EntryBytes(file.ino, entryName[..]), NAMELEN);
      if r.Pass? {
        PutOk(old(fs).(name := StrCpy(old(fs).name, name)), current.ino, EntryBytes(file.ino, StrCpy(old(fs).name, name)), NAMELEN);
        Apart(fs);
        LinkOk(fs, file.ino);
        ValidParts();
        InRepr(file.ino);
        CountLink(file);
      }
    }

    /** Read a file block by block and append each block. */
    method OpenFile(file: CacheInode, data: seq<byte>) returns (r: Outcome)
      requires Valid() && Full(fs) && file.ino in held.nodes && held.nodes[file.ino] == file
      modifies Repr
      ensures searches == old(searches)
      ensures fresh(Repr - old(Repr)) && old(Repr) <= Repr
      ensures r.Pass? ==> Valid() && Full(fs) && Keeps(old(held.nodes), held.nodes)
      ensures Build.OpenFile(old(fs), file.ino, data) == match r case Pass => Ok(fs) case Fail(e) => Err(e)
    {
      hide AllOk, Owned, FilesOk, Shape, LogOk, OnDisk, Bucket, View;
      var rest := data;
      r := Pass;
      while rest != []
        invariant r.Pass? && Valid() && Full(fs) && Keeps(old(held.nodes), held.nodes) && searches == old(searches)
        invariant fresh(Repr - old(Repr)) && old(Repr) <= Repr
        invariant Build.OpenFile(old(fs), file.ino, data) == Build.OpenFile(fs, file.ino, rest)
        decreases |rest|
      {
        var c := Chunk(rest);
        PutOk(fs, file.ino, c, |c|);
        r := PutBlock(file, c, |c|);
        if r.Fail? { return; }
        rest := rest[|c|..];
      }
    }

    method OpenLink(file: CacheInode, target: seq<byte>) returns (r: Outcome)
      requires Valid() && Full(fs) && file.ino in held.nodes && held.nodes[file.ino] == file
      modifies Repr
      ensures searches == old(searches)
      ensures fresh(Repr - old(Repr)) && old(Repr) <= Repr
      ensures r.Pass? ==> Valid() && Full(fs) && Keeps(old(held.nodes), held.nodes)
      ensures Build.OpenLink(old(fs), file.ino, target) == match r case Pass => Ok(fs) case Fail(e) => Err(e)
    {
      hide AllOk, Owned, FilesOk, Shape, LogOk, OnDisk, Bucket, View;
      var b;
      if |target| < BLKSIZE {
        PutParts(fs, file.ino, target, |target|);
        PutOk(fs, file.ino, target, |target|);
      }
      r, b := AllocIno();
      if r.Pass? {
        if |target| >= BLKSIZE { return Fail(LinkTooLong); }
        WriteBlock(target, b);
        r := AppendBlock(file, |target|, b);
      }
    }

    method AddFile(current: CacheInode, name: seq<byte>, host: nat, data: seq<byte>) returns (r: Outcome)
      requires Valid() && Full(fs) && current.kind == T_DIR && |name| <= MAX_FNAME_LEN
      requires current.ino in held.nodes && held.nodes[current.ino] == current
      modifies Repr
      ensures searches == old(searches)
      ensures fresh(Repr - old(Repr)) && old(Repr) <= Repr
      ensures r.Pass? ==> Valid() && Full(fs) && Keeps(old(held.nodes), held.nodes)
      ensures Build.AddFile(old(fs), current.ino, name, host, data) == match r case Pass => Ok(fs) case Fail(e) => Err(e)
    {
      hide AllOk, Owned, FilesOk, Shape, LogOk, OnDisk, Bucket, View, AllocInode, Valid, Build.OpenFile, Build.AddEntry, Full;
      ValidParts();
      FullInv(fs);
      Apart(fs);
      AllocInodeOk(fs, host, T_FILE);
      var file := SearchCacheInode(host);
      if file == null {
        r, file := AllocCacheInode(host, T_FILE);
        if r.Fail? { return; }
        r := OpenFile(file, data);
        if r.Fail? { return; }
      }
      r := AddEntry(current, file, name);
    }

    method AddLink(current: CacheInode, name: seq<byte>, host: nat, target: seq<byte>) returns (r: Outcome)
      requires Valid() && Full(fs) && current.kind == T_DIR && |name| <= MAX_FNAME_LEN
      requires current.ino in held.nodes && held.nodes[current.ino] == current
      modifies Repr
      ensures searches == old(searches)
      ensures fresh(Repr - old(Repr)) && old(Repr) <= Repr
      ensures r.Pass? ==> Valid() && Full(fs) && Keeps(old(held.nodes), held.nodes)
      ensures Build.AddLink(old(fs), current.ino, name, host, target) == match r case Pass => Ok(fs) case Fail(e) => Err(e)
    {
      hide AllOk, Owned, FilesOk, Shape, LogOk, OnDisk, Bucket, View, AllocInode, Valid, Build.OpenLink, Build.AddEntry, Full;
      ValidParts();
      FullInv(fs);
      Apart(fs);
      AllocInodeOk(fs, host, T_LINK);
      var file;
      r, file := AllocCacheInode(host, T_LINK);
      if r.Fail? { return; }
      r := OpenLink(file, target);
      if r.Fail? { return; }
      r := AddEntry(current, file, name);
    }

    method AddDir(parent: CacheInode, name: seq<byte>, host: nat, kids: seq<Entry>) returns (r: Outcome)
      requires Valid() && Full(fs) && parent.kind == T_DIR && |name| <= MAX_FNAME_LEN
      requires parent.ino in held.nodes && held.nodes[parent.ino] == parent
      modifies Repr
      ensures searches == old(searches)
      ensures fresh(Repr - old(Repr)) && old(Repr) <= Repr
      ensures r.Pass? ==> Valid() && Full(fs) && Keeps(old(held.nodes), held.nodes)
      ensures Build.AddDir(old(fs), parent.ino, name, host, kids) == match r case Pass => Ok(fs) case Fail(e) => Err(e)
      decreases kids, 2
    {
      hide AllOk, Owned, FilesOk, Shape, LogOk, OnDisk, Bucket, View, AllocInode, Valid, Build.OpenDir, Build.AddEntry, Full;
      ValidParts();
      FullInv(fs);
      Apart(fs);
      AllocInodeOk(fs, host, T_DIR);
      var current := SearchCacheInode(host);
      if current != null { return Fail(DuplicateDir); }
      r, current := AllocCacheInode(host, T_DIR);
      if r.Fail? { return; }
      assert Keeps(old(held.nodes), held.nodes);
      r := OpenDir(current, parent, kids);
      if r.Fail? { return; }
      assert fresh(Repr - old(Repr)) && old(Repr) <= Repr && Keeps(old(held.nodes), held.nodes);
      r := AddEntry(parent, current, name);
    }

    /** One round of the readdir loop. */
    method AddNode(current: CacheInode, e: Entry) returns (r: Outcome)
      requires Valid() && Full(fs) && current.kind == T_DIR
      requires current.ino in held.nodes && held.nodes[current.ino] == current
      modifies Repr
      ensures searches == old(searches)
      ensures fresh(Repr - old(Repr)) && old(Repr) <= Repr
      ensures r.Pass? ==> Valid() && Full(fs) && Keeps(old(held.nodes), held.nodes)
      ensures Build.AddNode(old(fs), current.ino, e) == match r case Pass => Ok(fs) case Fail(e) => Err(e)
      decreases e, 3
    {
      hide AllOk, Owned, FilesOk, Shape, LogOk, OnDisk, Bucket, View, Valid;
      ValidParts();
      r := Pass;
      if Hidden(e) { return; }
      if |e.name| > MAX_FNAME_LEN { return Fail(NameTooLong); }
      match e.node
      case Lnk(host, target) => r := AddLink(current, e.name, host, target);
      case Dir(host, kids) => r := AddDir(current, e.name, host, kids);
      case Reg(host, data) => r := AddFile(current, e.name, host, data);
      case Special =>
    }

    method OpenDir(current: CacheInode, parent: CacheInode, kids: seq<Entry>) returns (r: Outcome)
      requires Valid() && Full(fs) && current.kind == T_DIR
      requires current.ino in held.nodes && held.nodes[current.ino] == current
      requires parent.ino in held.nodes && held.nodes[parent.ino] == parent
      modifies Repr
      ensures searches == old(searches)
      ensures fresh(Repr - old(Repr)) && old(Repr) <= Repr
      ensures r.Pass? ==> Valid() && Full(fs) && Keeps(old(held.nodes), held.nodes)
      ensures Build.OpenDir(old(fs), current.ino, parent.ino, kids) == match r case Pass => Ok(fs) case Fail(e) => Err(e)
      decreases kids, 1
    {
      hide AllOk, Owned, FilesOk, Shape, LogOk, OnDisk, Bucket, View, Valid, Full, Build.AddEntry, Build.AddNode;
      ValidParts();
      r := AddEntry(current, current, DOT_NAME);
      if r.Fail? { return; }
      r := AddEntry(current, parent, DOT_DOT_NAME);
      if r.Fail? { return; }
      ValidParts();
      r := AddNodes(current, kids);
    }

    /** The readdir loop. */
    method AddNodes(current: CacheInode, kids: seq<Entry>) returns (r: Outcome)
      requires Valid() && Full(fs) && current.kind == T_DIR
      requires current.ino in held.nodes && held.nodes[current.ino] == current
      modifies Repr
      ensures searches == old(searches)
      ensures fresh(Repr - old(Repr)) && old(Repr) <= Repr
      ensures r.Pass? ==> Valid() && Full(fs) && Keeps(old(held.nodes), held.nodes)
      ensures OpenKids(old(fs), current.ino, kids) == match r case Pass => Ok(fs) case Fail(e) => Err(e)
      decreases kids, 0
    {
      hide AllOk, Owned, FilesOk, Shape, LogOk, OnDisk, Bucket, View, Valid, Full, Build.AddNode;
      ValidParts();
      r := Pass;
      var k := 0;
      assert kids[0..] == kids;
      while k < |kids|
        invariant 0 <= k <= |kids|
        invariant r.Pass? && Valid() && Full(fs) && Keeps(old(held.nodes), held.nodes) && searches == old(searches)
        invariant fresh(Repr - old(Repr)) && old(Repr) <= Repr
        invariant current.ino in fs.inodes
        invariant OpenKids(old(fs), current.ino, kids) == OpenKids(fs, current.ino, kids[k..])
      {
        assert kids[k..][0] == kids[k] && kids[k..][1..] == kids[k + 1..];
        r := AddNode(current, kids[k]);
        if r.Fail? { return; }
        ValidParts();
        k := k + 1;
      }
    }

    // ---- close ----

    /** The words of the bitmap block for blocks i .. i + BLKBITS. */
    method BitmapBlock(i: nat) returns (data: array<nat>)
      requires Valid() && i % BLKBITS == 0 && i < ninos && nextIno <= ninos
      ensures fresh(data) && data.Length == NENTRY && data[..] == Bitmap.BitmapWords(ninos, nextIno, i / BLKBITS)
    {
      hide Bitmap.RangeWord, Valid;
      data := new nat[NENTRY](_ => 0);
      assert data[..] == Zeros(NENTRY);
      assert BLKBITS * (i / BLKBITS) == i;
      if i + BLKBITS > nextIno {
        var start, end := 0, BLKBITS;
        if i < nextIno {
          start := nextIno - i;
        }
        if i + BLKBITS > ninos {
          end := ninos - i;
        }
        SetBitRange(data, start, end);
      } else {
        NoBits(nextIno - i, if i + BLKBITS > ninos then ninos - i else BLKBITS);
      }
    }

    method WriteBitmap(ghost fs0: Fs) returns (ghost w: set<nat>)
      requires Valid() && Full(fs0) && fs == fs0
      modifies this
      ensures Valid() && held == old(held) && Repr == old(Repr) && searches == old(searches)
      ensures Flushed(fs0, fs, w) && w == BitmapRange(FirstFree(ninos) - BLKN_FREEMAP) && ninos == fs0.ninos
    {
      hide InodeChainsOk, BlockChainsOk, Owned, NodesOk, CachesOk, Full, FinalDisk, Flushed, Bitmap.BitmapWords, Padded, Flat;
      w := {};
      var i, ino := 0, BLKN_FREEMAP;
      BitmapRangeNext(0);
      FlushNone(fs);
      while i < ninos
        invariant ino >= BLKN_FREEMAP && i == BLKBITS * (ino - BLKN_FREEMAP) && i < ninos + BLKBITS
        invariant Valid() && held == old(held) && Repr == old(Repr) && searches == old(searches)
        invariant Flushed(fs0, fs, w) && w == BitmapRange(ino - BLKN_FREEMAP)
        invariant fs.ninos == fs0.ninos && fs.next == fs0.next
      {
        NextInDisk(fs0);
        var data := BitmapBlock(i);
        FinalBitmap(fs0, ino - BLKN_FREEMAP);
        BitmapRangeNext(ino - BLKN_FREEMAP);
        WholeBlock(Flat(data[..]));
        FlushStep(fs0, fs, w, ino, Flat(data[..]));
        FlushFrame(fs0, fs, w);
        WriteBlock(Flat(data[..]), ino);
        w := w + {ino};
        ino := ino + 1;
        i := i + BLKBITS;
      }
    }

    /** Write the cached index blocks of one chain. */
    method FlushBlocks(h: nat, ghost fs0: Fs, ghost w: set<nat>) returns (ghost w': set<nat>)
      requires Valid() && Full(fs0) && Flushed(fs0, fs, w) && h < HASH_LIST_SIZE
      requires forall b <- held.cached | held.cached[b] in held.blockChains[h] :: b !in w
      modifies this
      ensures Valid() && held == old(held) && Repr == old(Repr) && searches == old(searches)
      ensures Flushed(fs0, fs, w') && w' == w + BlockNumbers(held.cached, held.blockChains[h])
    {
      hide InodeChainsOk, BlockChainsOk, Owned, NodesOk, CachesOk, Full, FinalDisk, Flushed, Padded, Flat, BlockNumbers;
      w' := w;
      var cb := blocks[h];
      ghost var s, k := held.blockChains[h], 0;
      BlockChainAt(blocks[..], held, h);
      assert blocks[..][h] == cb;
      BlockNumbersNone(held.cached);
      assert s[0..] == s;
      while cb != null
        invariant k <= |s| && BlockChain(cb, s[k..]) && (cb != null ==> k < |s| && cb == s[k])
        invariant Valid() && held == old(held) && Repr == old(Repr) && searches == old(searches)
        invariant Flushed(fs0, fs, w') && w' == w + BlockNumbers(held.cached, s[..k])
        decreases |s| - k
      {
        FlushFrame(fs0, fs, w');
        InBlockChain(blocks[..], held.blockChains, held.cached, h, k);
        BlockNumbersNext(held, Repr, h, k);
        FinalIndex(fs0, cb.ino);
        CachesAll(held.cached, fs.index);
        WholeBlock(Flat(cb.cache[..]));
        FlushStep(fs0, fs, w', cb.ino, Flat(cb.cache[..]));
        WriteBlock(Flat(cb.cache[..]), cb.ino);
        w' := w' + {cb.ino};
        assert s[k..][0] == s[k] && s[k..][1..] == s[k + 1..];
        cb := cb.hashNext;
        k := k + 1;
      }
      assert s[..k] == s;
    }

    /** Write the cached inodes of one chain. */
    method FlushInodes(h: nat, ghost fs0: Fs, ghost w: set<nat>) returns (ghost w': set<nat>)
      requires Valid() && Full(fs0) && Flushed(fs0, fs, w) && h < HASH_LIST_SIZE
      requires forall f <- held.nodes | held.nodes[f] in held.inodeChains[h] :: f !in w
      modifies this
      ensures Valid() && held == old(held) && Repr == old(Repr) && searches == old(searches)
      ensures Flushed(fs0, fs, w') && w' == w + InodeNumbers(held.nodes, held.inodeChains[h])
    {
      hide InodeChainsOk, BlockChainsOk, Owned, NodesOk, CachesOk, Full, FinalDisk, Flushed, Padded, InodeBytes, InodeNumbers;
      w' := w;
      var ci := inodes[h];
      ghost var s, k := held.inodeChains[h], 0;
      ChainAt(inodes[..], held, fs.byReal, h);
      assert inodes[..][h] == ci;
      InodeNumbersNone(held.nodes);
      assert s[0..] == s;
      while ci != null
        invariant k <= |s| && InodeChain(ci, s[k..]) && (ci != null ==> k < |s| && ci == s[k])
        invariant Valid() && held == old(held) && Repr == old(Repr) && searches == old(searches)
        invariant Flushed(fs0, fs, w') && w' == w + InodeNumbers(held.nodes, s[..k])
        decreases |s| - k
      {
        FlushFrame(fs0, fs, w');
        InInodeChain(inodes[..], held.inodeChains, held.nodes, fs.byReal, h, k);
        InodeNumbersNext(held, Repr, h, k);
        ValueIs(held.nodes, fs.inodes, fs.index, held.cached, ci.ino);
        FinalInode(fs0, ci.ino);
        FlushStep(fs0, fs, w', ci.ino, InodeBytes(ci.Value()));
        WriteBlock(InodeBytes(ci.Value()), ci.ino);
        w' := w' + {ci.ino};
        assert s[k..][0] == s[k] && s[k..][1..] == s[k + 1..];
        ci := ci.hashNext;
        k := k + 1;
      }
      assert s[..k] == s;
    }

    /** Write bitmap, superblock, index blocks and inodes. */
    method CloseSfs()
      requires Valid() && Full(fs)
      modifies this
      ensures disk == FinalDisk(old(fs)) && fs.log == FinalLog(old(fs)) && searches == old(searches)
    {
      hide BlockChainsOk, InodeChainsOk, Owned, NodesOk, CachesOk, Full, FinalDisk, FinalLog, Flushed, Bucket, MetaBlocks, BlockNumbers, InodeNumbers,
        BitmapRange, FirstFree, Padded, SuperBytes;
      ghost var fs0 := fs;
      ghost var w := WriteBitmap(fs0);
      ghost var meta := MetaBlocks(fs0.ninos);
      FlushFrame(fs0, fs, w);
      FinalSuper(fs0);
      BitmapSize(fs0.ninos);
      BitmapRangeNext(FirstFree(fs0.ninos) - BLKN_FREEMAP);
      BitmapRangeAll(fs0.ninos, FirstFree(fs0.ninos) - BLKN_FREEMAP);
      FlushStep(fs0, fs, w, BLKN_SUPER, SuperBytes(ninos, unusedBlocks, slack));
      WriteBlock(SuperBytes(ninos, unusedBlocks, slack), BLKN_SUPER);
      w := w + {BLKN_SUPER};
      AllBlocks(fs0);
      ghost var bs, ns := {}, {};
      ChainsStart(held);
      for h := 0 to HASH_LIST_SIZE
        invariant Valid() && held == old(held) && Repr == old(Repr) && searches == old(searches)
        invariant Flushed(fs0, fs, w) && w == meta + bs + ns
        invariant bs == BlocksBelow(held, h) && ns == InodesBelow(held, h)
      {
        FlushFrame(fs0, fs, w);
        ChainStep(inodes[..], blocks[..], held, fs.byReal, h);
        w := FlushBlocks(h, fs0, w);
        FlushFrame(fs0, fs, w);
        w := FlushInodes(h, fs0, w);
        bs := bs + BlockNumbers(held.cached, held.blockChains[h]);
        ns := ns + InodeNumbers(held.nodes, held.inodeChains[h]);
      }
      FlushFrame(fs0, fs, w);
      ChainsEnd(inodes[..], blocks[..], held, fs.byReal);
      FlushDone(fs0, fs);
    }
  }

  /** Build the image of a host directory on an image file of the given size: the image is the final disk of the run,
      every block written is in the log, and no search by block number was ever made. */
  method CreateImg(size: nat, slack: Slack, kids: seq<Entry>) returns (r: Result<Sfs>)
    ensures match r
            case Ok(sfs) =>
              && Run(size, slack, kids).Ok?
              && sfs.disk == FinalDisk(Run(size, slack, kids).value) && sfs.fs.log == FinalLog(Run(size, slack, kids).value)
              && sfs.searches == 0
            case Err(e) => Run(size, slack, kids) == Err(e)
  {
    hide InodeChainsOk, BlockChainsOk, Owned, NodesOk, CachesOk, FilesOk, Shape, LogOk, OnDisk, FinalDisk, FinalLog, FirstFree,
      BlocksOfImage, OpenDir;
    CreateOk(size, slack);
    var ninos := BlocksOfImage(size);
    var next := FirstFree(ninos);
    if next >= ninos { return Err(ImageTooSmall); }
    var sfs := new Sfs(ninos, next, slack);
    sfs.InsertRoot();
    RootKind(sfs);
    var e := sfs.OpenDir(sfs.root, sfs.root, kids);
    if e.Fail? { return Err(e.error); }
    sfs.CloseSfs();
    r := Ok(sfs);
  }

  lemma RootKind(s: Sfs)
    requires s.Valid() && BLKN_ROOT in s.fs.inodes && s.fs.inodes[BLKN_ROOT].kind == T_DIR
    ensures s.root.kind == T_DIR && s.root.ino == BLKN_ROOT
  {
    hide InodeChainsOk, BlockChainsOk, CachesOk;
    ValueIs(s.held.nodes, s.fs.inodes, s.fs.index, s.held.cached, BLKN_ROOT);
  }
}
