/** The builder's state seen as a store of objects with contents, and the effect of each operation on that store. */
module Store {
  import opened Bytes
  import Wrappers
  import opened Image
  import opened BlockMap

  datatype Obj = Obj(kind: nat, host: nat, size: nat, nlinks: nat, content: seq<seq<byte>>)

  function BlockAt(disk: map<nat, seq<byte>>, b: nat): seq<byte> {
    if b in disk then disk[b] else []
  }

  function ReadAll(disk: map<nat, seq<byte>>, bs: seq<nat>): (r: seq<seq<byte>>)
    ensures |r| == |bs|
  {
    seq(|bs|, k requires 0 <= k < |bs| => BlockAt(disk, bs[k]))
  }

  function ObjOf(fs: Fs, f: nat): Obj
    requires Ready(fs, f)
  {
    var i := fs.inodes[f];
    Obj(i.kind, i.host, i.size, i.nlinks, ReadAll(fs.disk, Blocks(fs, f)))
  }

  function View(fs: Fs): map<nat, Obj>
    requires FilesOk(fs)
  {
    map f | f in fs.inodes :: ObjOf(fs, f)
  }

  /** Blocks in use that are neither inodes nor index blocks: data and directory entries. */
  predicate IsData(fs: Fs, b: nat) {
    FirstFree(fs.ninos) <= b < fs.next && b !in fs.inodes && b !in fs.index
  }

  /** So far exactly the data blocks have been written, each of them once. */
  ghost predicate LogOk(fs: Fs) {
    && (forall b: nat :: fs.log[b] == if IsData(fs, b) then 1 else 0)
    && (forall b: nat :: b in fs.disk <==> IsData(fs, b))
  }

  predicate OnDisk(fs: Fs)
    requires FilesOk(fs)
  {
    forall f <- fs.inodes :: forall b <- Blocks(fs, f) :: b in fs.disk
  }

  ghost predicate Full(fs: Fs) {
    Inv(fs) && LogOk(fs) && OnDisk(fs)
  }

  function Put(fs: Fs, f: nat, data: seq<byte>, size: nat): Wrappers.Result<Fs>
    requires Inv(fs) && f in fs.inodes && |data| <= BLKSIZE
  {
    var (fs1, b) :- Emit(fs, data);
    assert FileOk(fs, f);
    AppendBlock(fs1, f, size, b)
  }

  ghost predicate Grows(d: map<nat, seq<byte>>, d': map<nat, seq<byte>>) {
    forall b <- d :: b in d' && d'[b] == d[b]
  }

  lemma KeepContent(d: map<nat, seq<byte>>, d': map<nat, seq<byte>>, bs: seq<nat>)
    requires Grows(d, d') && forall b <- bs :: b in d
    ensures ReadAll(d', bs) == ReadAll(d, bs)
  {
    forall k | 0 <= k < |bs|
      ensures BlockAt(d', bs[k]) == BlockAt(d, bs[k])
    {
      assert bs[k] in bs;
    }
  }

  /** State with the same inodes and index blocks. */
  predicate SameFiles(fs: Fs, fs': Fs) {
    fs'.inodes == fs.inodes && fs'.index == fs.index
  }

  /** Inode g uses the same blocks in both states. */
  predicate SameSlots(fs: Fs, fs': Fs, g: nat) {
    && fs'.index == fs.index && g in fs.inodes && g in fs'.inodes
    && var i, i' := fs.inodes[g], fs'.inodes[g];
       i'.blocks == i.blocks && i'.direct == i.direct && i'.indirect == i.indirect && i'.dbl == i.dbl
  }

  lemma SameReady(fs: Fs, fs': Fs, g: nat)
    requires SameSlots(fs, fs', g) && Ready(fs, g)
    ensures Ready(fs', g) && Blocks(fs', g) == Blocks(fs, g)
  {
    var n := fs.inodes[g].blocks;
    forall k | 0 <= k < n ensures Bmap(fs', g, k) == Bmap(fs, g, k) {}
  }

  lemma SameStore(fs: Fs, fs': Fs)
    requires SameFiles(fs, fs') && FilesOk(fs) && OnDisk(fs) && Grows(fs.disk, fs'.disk)
    ensures FilesOk(fs') && View(fs') == View(fs) && OnDisk(fs')
  {
    hide Bmap;
    forall g | g in fs.inodes
      ensures Ready(fs', g) && ObjOf(fs', g) == ObjOf(fs, g) && Blocks(fs', g) == Blocks(fs, g)
    {
      SameReady(fs, fs', g);
      KeepContent(fs.disk, fs'.disk, Blocks(fs, g));
    }
  }

  lemma EmitShape(fs: Fs, data: seq<byte>)
    requires Shape(fs) && LogOk(fs) && |data| <= BLKSIZE && Emit(fs, data).Ok?
    ensures var (fs1, b) := Emit(fs, data).value;
      && Shape(fs1) && LogOk(fs1) && b == fs.next && b !in fs.disk
      && fs1 == fs.(next := fs.next + 1, unused := fs.unused - 1, disk := fs.disk[b := Padded(data)],
                    log := fs.log + multiset{b})
  {}

  lemma EmitOk(fs: Fs, data: seq<byte>)
    requires Full(fs) && |data| <= BLKSIZE && Emit(fs, data).Ok?
    ensures Full(Emit(fs, data).value.0) && View(Emit(fs, data).value.0) == View(fs)
  {
    EmitShape(fs, data);
    SameStore(fs, Emit(fs, data).value.0);
  }

  // ---- appending a block of data ----

  lemma AppendLog(fs: Fs, f: nat, size: nat, b: nat)
    requires Core(fs, f) && Shape(fs) && LogOk(fs) && AppendBlock(fs, f, size, b).Ok?
    ensures LogOk(AppendBlock(fs, f, size, b).value)
  {
    AppendSpace(fs, f, size, b);
    AppendIndexKeys(fs, f, size, b);
  }

  function Extended(o: Obj, data: seq<byte>, size: nat): Obj
    requires |data| <= BLKSIZE
  {
    o.(size := o.size + size, content := o.content + [Padded(data)])
  }

  lemma ViewAt(fs: Fs, f: nat)
    requires FilesOk(fs) && f in fs.inodes
    ensures f in View(fs) && Ready(fs, f) && View(fs)[f] == ObjOf(fs, f)
  {}

  /** Every object but f is the same. */
  ghost predicate OthersKept(fs: Fs, fs': Fs, f: nat) {
    forall g <- fs.inodes | g != f :: Ready(fs, g) && Ready(fs', g) && ObjOf(fs', g) == ObjOf(fs, g)
  }

  lemma ViewUpdate(fs: Fs, fs': Fs, f: nat)
    requires FilesOk(fs) && FilesOk(fs') && fs'.inodes.Keys == fs.inodes.Keys + {f} && OthersKept(fs, fs', f)
    ensures Ready(fs', f) && View(fs') == View(fs)[f := ObjOf(fs', f)]
  {
    hide Blocks, Bmap, ObjOf, WordsOk, FileOk;
    assert View(fs').Keys == View(fs)[f := ObjOf(fs', f)].Keys;
    forall g | g in fs'.inodes
      ensures View(fs')[g] == View(fs)[f := ObjOf(fs', f)][g]
    {
      if g != f {
        assert View(fs)[g] == ObjOf(fs, g);
      }
    }
  }

  lemma AppendObj(fs: Fs, f: nat, size: nat, b: nat, data: seq<byte>)
    requires Core(fs, f) && AppendBlock(fs, f, size, b).Ok?
    requires |data| <= BLKSIZE && b in fs.disk && fs.disk[b] == Padded(data)
    ensures var fs' := AppendBlock(fs, f, size, b).value;
      Ready(fs', f) && ObjOf(fs', f) == Extended(ObjOf(fs, f), data, size)
      && ((forall c <- Blocks(fs, f) :: c in fs.disk) ==> forall c <- Blocks(fs', f) :: c in fs.disk)
  {
    var fs' := AppendBlock(fs, f, size, b).value;
    AppendSpace(fs, f, size, b);
    AppendRefines(fs, f, size, b);
    assert ReadAll(fs.disk, Blocks(fs', f)) == ReadAll(fs.disk, Blocks(fs, f)) + [Padded(data)];
  }

  lemma AppendOtherObjs(fs: Fs, f: nat, size: nat, b: nat)
    requires Core(fs, f) && FilesOk(fs) && OnDisk(fs) && AppendBlock(fs, f, size, b).Ok?
    ensures var fs' := AppendBlock(fs, f, size, b).value;
      && FilesOk(fs') && fs'.inodes.Keys == fs.inodes.Keys
      && OthersKept(fs, fs', f)
      && forall g <- fs.inodes | g != f :: forall c <- Blocks(fs', g) :: c in fs.disk
  {
    AppendOthers(fs, f, size, b);
  }

  lemma AppendView(fs: Fs, f: nat, size: nat, b: nat, data: seq<byte>)
    requires Core(fs, f) && FilesOk(fs) && OnDisk(fs) && AppendBlock(fs, f, size, b).Ok?
    requires |data| <= BLKSIZE && b in fs.disk && fs.disk[b] == Padded(data)
    ensures var fs' := AppendBlock(fs, f, size, b).value;
      FilesOk(fs') && OnDisk(fs') && View(fs') == View(fs)[f := Extended(View(fs)[f], data, size)]
  {
    hide AppendBlock, Bmap, Extended, OthersKept;
    var fs' := AppendBlock(fs, f, size, b).value;
    AppendSpace(fs, f, size, b);
    AppendObj(fs, f, size, b, data);
    AppendOtherObjs(fs, f, size, b);
    ViewUpdate(fs, fs', f);
  }

  /** The same inodes, f being one block longer. */
  predicate OneLonger(fs: Fs, fs': Fs, f: nat) {
    && fs'.inodes.Keys == fs.inodes.Keys
    && forall g <- fs.inodes :: fs'.inodes[g].blocks == fs.inodes[g].blocks + if g == f then 1 else 0
  }

  lemma CoreOf(fs: Fs, f: nat)
    requires Inv(fs) && f in fs.inodes
    ensures Core(fs, f)
  {
    assert FileOk(fs, f);
  }

  /** Put succeeds exactly when the file may grow and the blocks are there; then f has one more block with the
      given data, and no other object changes. */
  lemma PutOk(fs: Fs, f: nat, data: seq<byte>, size: nat)
    requires Full(fs) && f in fs.inodes && |data| <= BLKSIZE
    ensures FileBlocks(fs.inodes[f].blocks + 1) > FileBlocks(fs.inodes[f].blocks)
    ensures var n := fs.inodes[f].blocks;
      var cost := FileBlocks(n + 1) - FileBlocks(n);
      var r := Put(fs, f, data, size);
      && (r.Ok? <==> n < LN && fs.next + cost <= fs.ninos)
      && (r.Err? && n < LN ==> r.error == Wrappers.NoSpace)
      && (r.Ok? ==>
            && Full(r.value) && View(r.value) == View(fs)[f := Extended(View(fs)[f], data, size)]
            && OneLonger(fs, r.value, f)
            && r.value.ninos == fs.ninos && r.value.next == fs.next + cost
            && r.value.byReal == fs.byReal && r.value.name == fs.name && r.value.slack == fs.slack
            && Grows(fs.disk, r.value.disk))
  {
    hide View, LogOk, OnDisk, FilesOk, Extended, AppendBlock, Blocks, Bmap;
    if fs.next < fs.ninos {
      EmitShape(fs, data);
      EmitOk(fs, data);
      var (fs1, b) := Emit(fs, data).value;
      PutTail(fs1, f, data, size, b);
    }
  }

  lemma PutTail(fs: Fs, f: nat, data: seq<byte>, size: nat, b: nat)
    requires Full(fs) && f in fs.inodes && |data| <= BLKSIZE && b in fs.disk && fs.disk[b] == Padded(data)
    ensures var n := fs.inodes[f].blocks;
      var r := AppendBlock(fs, f, size, b);
      && IndexBlocks(n + 1) >= IndexBlocks(n)
      && (r.Ok? <==> n < LN && fs.next + IndexBlocks(n + 1) - IndexBlocks(n) <= fs.ninos)
      && (r.Err? && n < LN ==> r.error == Wrappers.NoSpace)
      && (r.Ok? ==>
            && Full(r.value) && View(r.value) == View(fs)[f := Extended(View(fs)[f], data, size)]
            && OneLonger(fs, r.value, f) && r.value.ninos == fs.ninos
            && r.value.next == fs.next + IndexBlocks(n + 1) - IndexBlocks(n)
            && r.value.byReal == fs.byReal && r.value.name == fs.name && r.value.slack == fs.slack
            && r.value.disk == fs.disk)
  {
    hide View, FilesOk, LogOk, OnDisk, Shape, Core, AppendBlock;
    CoreOf(fs, f);
    AppendSpace(fs, f, size, b);
    if AppendBlock(fs, f, size, b).Ok? {
      AppendShape(fs, f, size, b);
      AppendLog(fs, f, size, b);
      AppendView(fs, f, size, b, data);
    }
  }

  lemma AllocInodeFiles(fs: Fs, host: nat, kind: nat)
    requires FilesOk(fs) && OnDisk(fs) && fs.next !in fs.inodes && fs.next < fs.ninos
    ensures var (fs1, f) := AllocInode(fs, host, kind).value;
      FilesOk(fs1) && OnDisk(fs1) && OthersKept(fs, fs1, f) && ObjOf(fs1, f) == Obj(kind, host, 0, 0, [])
  {
    var (fs1, f) := AllocInode(fs, host, kind).value;
    forall g | g in fs.inodes
      ensures Ready(fs, g) && Ready(fs1, g) && Blocks(fs1, g) == Blocks(fs, g)
    {
      SameReady(fs, fs1, g);
    }
    assert FileOk(fs1, f) && Blocks(fs1, f) == [];
  }

  lemma AllocInodeOk(fs: Fs, host: nat, kind: nat)
    requires Full(fs)
    ensures var r := AllocInode(fs, host, kind);
      && (r.Ok? <==> fs.next < fs.ninos) && (r.Err? ==> r.error == Wrappers.NoSpace)
      && (r.Ok? ==>
            var (fs1, f) := r.value;
            && Full(fs1) && f == fs.next && View(fs1) == View(fs)[f := Obj(kind, host, 0, 0, [])]
            && fs1 == fs.(next := fs.next + 1, unused := fs.unused - 1,
                          inodes := fs.inodes[f := NewNode(kind, host)], byReal := fs.byReal[host := f]))
  {
    hide FilesOk, OnDisk, View, OthersKept, ObjOf, Ready, Blocks, Bmap, FileOk;
    if fs.next < fs.ninos {
      AllocInodeFiles(fs, host, kind);
      var (fs1, f) := AllocInode(fs, host, kind).value;
      ViewUpdate(fs, fs1, f);
    }
  }

  function Linked(o: Obj): Obj {
    o.(nlinks := (o.nlinks + 1) % 0x1_0000)
  }

  lemma LinkFiles(fs: Fs, f: nat)
    requires FilesOk(fs) && OnDisk(fs) && f in fs.inodes
    ensures var fs1 := Link(fs, f);
      && FilesOk(fs1) && OnDisk(fs1) && OthersKept(fs, fs1, f)
      && Ready(fs, f) && ObjOf(fs1, f) == Linked(ObjOf(fs, f))
  {
    hide Blocks, Bmap;
    var fs1 := Link(fs, f);
    forall g | g in fs.inodes
      ensures Ready(fs, g) && Ready(fs1, g) && Blocks(fs1, g) == Blocks(fs, g)
    {
      SameReady(fs, fs1, g);
    }
  }

  lemma LinkOk(fs: Fs, f: nat)
    requires Full(fs) && f in fs.inodes
    ensures Full(Link(fs, f)) && View(Link(fs, f)) == View(fs)[f := Linked(View(fs)[f])]
  {
    hide FilesOk, OnDisk, View, OthersKept, ObjOf, Ready;
    LinkFiles(fs, f);
    ViewAt(fs, f);
    ViewUpdate(fs, Link(fs, f), f);
  }
}
