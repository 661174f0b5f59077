/** How many blocks a directory tree needs, and that a build succeeds exactly when they are there. */
module Space {
  import opened Bytes
  import Wrappers
  import opened Image
  import opened BlockMap
  import opened Store
  import opened Build

  // ---- the demand of a tree, from the host side alone ----

  function NChunks(len: nat): nat {
    (len + 4095) / 4096
  }

  /** An entry whose name does not start with a dot, for a file, a directory or a link. */
  predicate HasEntry(e: Entry) {
    (e.name == [] || e.name[0] != 46) && !e.node.Special?
  }

  /** Directory entries made for kids. */
  function Visible(kids: seq<Entry>): nat {
    if kids == [] then 0 else (if HasEntry(kids[0]) then 1 else 0) + Visible(kids[1..])
  }

  /** Host numbers with an image inode after e, given those before. */
  function SeenNode(e: Entry, seen: set<nat>): set<nat>
    decreases e, 0
  {
    if !HasEntry(e) then seen
    else match e.node
      case Reg(h, _) => seen + {h}
      case Lnk(h, _) => seen + {h}
      case Dir(h, kids) => Seen(kids, seen + {h})
      case Special => seen
  }

  function Seen(kids: seq<Entry>, seen: set<nat>): set<nat>
    decreases kids, 0
  {
    if kids == [] then seen else Seen(kids[1..], SeenNode(kids[0], seen))
  }

  /** Every limit but disk space is respected. */
  predicate FitsNode(e: Entry, seen: set<nat>)
    decreases e, 0
  {
    (e.name != [] && e.name[0] == 46) ||
    (|e.name| <= 255 &&
     match e.node
     case Reg(h, data) => h in seen || NChunks(|data|) <= 32768
     case Lnk(h, target) => |target| < 4096
     case Dir(h, kids) => h !in seen && 2 + Visible(kids) <= 32768 && Fits(kids, seen + {h})
     case Special => true)
  }

  predicate Fits(kids: seq<Entry>, seen: set<nat>)
    decreases kids, 0
  {
    kids == [] || (FitsNode(kids[0], seen) && Fits(kids[1..], SeenNode(kids[0], seen)))
  }

  /** Blocks of the object e names, without the entry that names it. A hard link seen before needs none. */
  function NeedNode(e: Entry, seen: set<nat>): nat
    decreases e, 0
  {
    if !HasEntry(e) then 0
    else match e.node
      case Reg(h, data) => if h in seen then 0 else 1 + FileBlocks(NChunks(|data|))
      case Lnk(h, target) => 1 + FileBlocks(1)
      case Dir(h, kids) => 1 + FileBlocks(2 + Visible(kids)) + Need(kids, seen + {h})
      case Special => 0
  }

  function Need(kids: seq<Entry>, seen: set<nat>): nat
    decreases kids, 0
  {
    if kids == [] then 0 else NeedNode(kids[0], seen) + Need(kids[1..], SeenNode(kids[0], seen))
  }

  /** Blocks needed by a whole image besides superblock, root inode and bitmap. */
  function Demand(kids: seq<Entry>): nat {
    FileBlocks(2 + Visible(kids)) + Need(kids, {0})
  }

  // ---- the builder meets it ----

  lemma FileBlocksMono(a: nat, b: nat)
    requires a <= b
    ensures b - a <= FileBlocks(b) - FileBlocks(a)
  {}

  /** The result r of an operation on fs that needs cost blocks and meets every other limit iff fits. */
  predicate Meets(r: Wrappers.Result<Fs>, fs: Fs, fits: bool, cost: int, seen: set<nat>) {
    && (r.Ok? <==> fits && fs.next + cost <= fs.ninos)
    && (r.Err? && fits ==> r.error == Wrappers.NoSpace)
    && (r.Ok? ==> r.value.next == fs.next + cost && r.value.ninos == fs.ninos && r.value.slack == fs.slack
                  && r.value.byReal.Keys == seen)
  }

  /** fs' keeps the length of every file but cur, which has n blocks. */
  predicate Lengths(fs: Fs, fs': Fs, cur: nat, n: nat) {
    && (forall g <- fs.inodes :: g in fs'.inodes && (g == cur || fs'.inodes[g].blocks == fs.inodes[g].blocks))
    && cur in fs'.inodes && fs'.inodes[cur].blocks == n
  }

  /** Blocks a file takes to grow from n to n + k. */
  function Growth(n: nat, k: nat): int {
    FileBlocks(n + k) - FileBlocks(n)
  }

  lemma AddEntrySpace(fs: Fs, cur: nat, file: nat, name: seq<byte>)
    requires Full(fs) && cur in fs.inodes && file in fs.inodes && |name| <= MAX_FNAME_LEN
    ensures var n := fs.inodes[cur].blocks;
      var r := AddEntry(fs, cur, file, name);
      && Meets(r, fs, n < LN, Growth(n, 1), fs.byReal.Keys)
      && (r.Ok? ==> Lengths(fs, r.value, cur, n + 1))
  {
    hide FilesOk, OnDisk, View, LogOk, FileBlocks, Put, StrCpy, EntryBytes;
    var fs0 := fs.(name := StrCpy(fs.name, name));
    NameOk(fs, fs0.name);
    PutOk(fs0, cur, EntryBytes(file, fs0.name), NAMELEN);
  }

  lemma {:induction false} OpenFileSpace(fs: Fs, f: nat, data: seq<byte>)
    requires Full(fs) && f in fs.inodes
    ensures var n := fs.inodes[f].blocks;
      var r := OpenFile(fs, f, data);
      && Meets(r, fs, n + NChunks(|data|) <= LN, Growth(n, NChunks(|data|)), fs.byReal.Keys)
      && (r.Ok? ==> Lengths(fs, r.value, f, n + NChunks(|data|)))
    decreases |data|
  {
    hide FilesOk, LogOk, OnDisk, Shape, View, Put, FileBlocks, NChunks, Chunk;
    Limits(fs, f);
    ChunkCount(data);
    if data != [] {
      var n := fs.inodes[f].blocks;
      var c := Chunk(data);
      PutOk(fs, f, c, |c|);
      FileBlocksMono(n + 1, n + NChunks(|data|));
      if Put(fs, f, c, |c|).Ok? {
        OpenFileSpace(Put(fs, f, c, |c|).value, f, data[|c|..]);
      }
    }
  }

  lemma Limits(fs: Fs, f: nat)
    requires Full(fs) && f in fs.inodes
    ensures fs.inodes[f].blocks <= LN && fs.next <= fs.ninos
  {
    assert FileOk(fs, f);
  }

  lemma ChunkCount(data: seq<byte>)
    ensures if data == [] then NChunks(|data|) == 0
            else NChunks(|data|) == 1 + NChunks(|data[|Chunk(data)|..]|)
  {}

  lemma AllocInodeSpace(fs: Fs, host: nat, kind: nat)
    requires Full(fs)
    ensures var a := AllocInode(fs, host, kind);
      && (a.Ok? <==> fs.next < fs.ninos) && (a.Err? ==> a.error == Wrappers.NoSpace)
      && (a.Ok? ==>
            var (fs1, f) := a.value;
            && Full(fs1) && f in fs1.inodes && f !in fs.inodes && fs1.inodes[f].blocks == 0
            && fs1.next == fs.next + 1 && fs1.ninos == fs.ninos && fs1.slack == fs.slack
            && fs1.byReal.Keys == fs.byReal.Keys + {host}
            && forall g <- fs.inodes :: g in fs1.inodes && fs1.inodes[g] == fs.inodes[g])
  {
    hide FilesOk, LogOk, OnDisk, View;
    AllocInodeOk(fs, host, kind);
  }

  lemma AddFileSpace(fs: Fs, cur: nat, name: seq<byte>, host: nat, data: seq<byte>)
    requires Full(fs) && cur in fs.inodes && |name| <= MAX_FNAME_LEN
    ensures var n := fs.inodes[cur].blocks;
      var r := AddFile(fs, cur, name, host, data);
      var known := host in fs.byReal;
      && Meets(r, fs, n < LN && (known || NChunks(|data|) <= LN),
               (if known then 0 else 1 + FileBlocks(NChunks(|data|))) + Growth(n, 1), fs.byReal.Keys + {host})
      && (r.Ok? ==> Lengths(fs, r.value, cur, n + 1))
  {
    hide FilesOk, LogOk, OnDisk, View, Shape, FileBlocks, NChunks, AddEntry, AllocInode, OpenFile;
    var n := fs.inodes[cur].blocks;
    ZeroBlocks();
    FileBlocksMono(n, n + 1);
    Limits(fs, cur);
    if host in fs.byReal {
      HostShape(fs, host);
      AddEntrySpace(fs, cur, fs.byReal[host], name);
      assert fs.byReal.Keys + {host} == fs.byReal.Keys;
    } else {
      AllocInodeSpace(fs, host, T_FILE);
      if AllocInode(fs, host, T_FILE).Ok? {
        var (fs1, f) := AllocInode(fs, host, T_FILE).value;
        OpenFileSpace(fs1, f, data);
        if OpenFile(fs1, f, data).Ok? {
          AddEntrySpace(OpenFile(fs1, f, data).value, cur, f, name);
        }
      }
    }
  }

  lemma ZeroBlocks()
    ensures FileBlocks(0) == 0
  {}

  lemma HostShape(fs: Fs, host: nat)
    requires Full(fs) && host in fs.byReal
    ensures fs.byReal[host] in fs.inodes
  {}

  lemma OpenLinkSpace(fs: Fs, f: nat, target: seq<byte>)
    requires Full(fs) && f in fs.inodes && fs.inodes[f].blocks == 0
    ensures var r := OpenLink(fs, f, target);
      && Meets(r, fs, |target| < BLKSIZE, FileBlocks(1), fs.byReal.Keys)
      && (r.Ok? ==> Lengths(fs, r.value, f, 1))
  {
    hide FilesOk, LogOk, OnDisk, View, Shape, Put;
    ZeroBlocks();
    FileBlocksMono(0, 1);
    if |target| < BLKSIZE {
      PutOk(fs, f, target, |target|);
    }
  }

  lemma AddLinkSpace(fs: Fs, cur: nat, name: seq<byte>, host: nat, target: seq<byte>)
    requires Full(fs) && cur in fs.inodes && |name| <= MAX_FNAME_LEN
    ensures var n := fs.inodes[cur].blocks;
      var r := AddLink(fs, cur, name, host, target);
      && Meets(r, fs, n < LN && |target| < BLKSIZE, 1 + FileBlocks(1) + Growth(n, 1), fs.byReal.Keys + {host})
      && (r.Ok? ==> Lengths(fs, r.value, cur, n + 1))
  {
    hide FilesOk, LogOk, OnDisk, View, Shape, AddEntry, AllocInode, OpenLink, FileBlocks;
    var n := fs.inodes[cur].blocks;
    FileBlocksMono(n, n + 1);
    FileBlocksMono(0, 1);
    ZeroBlocks();
    Limits(fs, cur);
    AllocInodeSpace(fs, host, T_LINK);
    if AllocInode(fs, host, T_LINK).Ok? {
      var (fs1, f) := AllocInode(fs, host, T_LINK).value;
      OpenLinkSpace(fs1, f, target);
      if OpenLink(fs1, f, target).Ok? {
        AddEntrySpace(OpenLink(fs1, f, target).value, cur, f, name);
      }
    }
  }

  /** OpenDir on a directory that is still empty, whose host number is already known. */
  lemma {:induction false} OpenDirSpace(fs: Fs, cur: nat, parent: nat, kids: seq<Entry>)
    requires Full(fs) && cur in fs.inodes && parent in fs.inodes && fs.inodes[cur].blocks == 0
    ensures var seen := fs.byReal.Keys;
      var r := OpenDir(fs, cur, parent, kids);
      && Meets(r, fs, 2 + Visible(kids) <= LN && Fits(kids, seen),
               FileBlocks(2 + Visible(kids)) + Need(kids, seen), Seen(kids, seen))
      && (r.Ok? ==> Lengths(fs, r.value, cur, 2 + Visible(kids)))
    decreases kids, 1
  {
    hide FilesOk, LogOk, OnDisk, View, Shape, AddEntry, FileBlocks, OpenKids, Need, Fits, Seen, Visible;
    ZeroBlocks();
    FileBlocksMono(0, 1);
    FileBlocksMono(1, 2);
    FileBlocksMono(2, 2 + Visible(kids));
    Limits(fs, cur);
    AddEntrySpace(fs, cur, cur, DOT_NAME);
    if AddEntry(fs, cur, cur, DOT_NAME).Ok? {
      var fs1 := AddEntry(fs, cur, cur, DOT_NAME).value;
      AddEntrySpace(fs1, cur, parent, DOT_DOT_NAME);
      if AddEntry(fs1, cur, parent, DOT_DOT_NAME).Ok? {
        OpenKidsSpace(AddEntry(fs1, cur, parent, DOT_DOT_NAME).value, cur, kids);
      }
    }
  }

  lemma {:induction false} AddDirSpace(fs: Fs, cur: nat, name: seq<byte>, host: nat, kids: seq<Entry>)
    requires Full(fs) && cur in fs.inodes && |name| <= MAX_FNAME_LEN
    ensures var n, seen := fs.inodes[cur].blocks, fs.byReal.Keys;
      var r := AddDir(fs, cur, name, host, kids);
      && Meets(r, fs, n < LN && host !in seen && 2 + Visible(kids) <= LN && Fits(kids, seen + {host}),
               1 + FileBlocks(2 + Visible(kids)) + Need(kids, seen + {host}) + Growth(n, 1), Seen(kids, seen + {host}))
      && (r.Ok? ==> Lengths(fs, r.value, cur, n + 1))
    decreases kids, 2
  {
    hide FilesOk, LogOk, OnDisk, View, Shape, AddEntry, AllocInode, FileBlocks, OpenDir, Need, Fits, Seen, Visible;
    var n := fs.inodes[cur].blocks;
    FileBlocksMono(n, n + 1);
    Limits(fs, cur);
    if host !in fs.byReal {
      AllocInodeSpace(fs, host, T_DIR);
      if AllocInode(fs, host, T_DIR).Ok? {
        var (fs1, d) := AllocInode(fs, host, T_DIR).value;
        OpenDirSpace(fs1, d, cur, kids);
        if OpenDir(fs1, d, cur, kids).Ok? {
          AddEntrySpace(OpenDir(fs1, d, cur, kids).value, cur, d, name);
        }
      }
    }
  }

  lemma {:induction false} AddNodeSpace(fs: Fs, cur: nat, e: Entry)
    requires Full(fs) && cur in fs.inodes
    ensures var n, seen := fs.inodes[cur].blocks, fs.byReal.Keys;
      var k := if HasEntry(e) then 1 else 0;
      var r := AddNode(fs, cur, e);
      && Meets(r, fs, n + k <= LN && FitsNode(e, seen), NeedNode(e, seen) + Growth(n, k), SeenNode(e, seen))
      && (r.Ok? ==> Lengths(fs, r.value, cur, n + k))
    decreases e, 3
  {
    hide FilesOk, LogOk, OnDisk, View, Shape, FileBlocks, AddDir, AddFile, AddLink, Visible;
    var n := fs.inodes[cur].blocks;
    Limits(fs, cur);
    if HasEntry(e) && |e.name| <= MAX_FNAME_LEN {
      match e.node
      case Reg(h, data) => AddFileSpace(fs, cur, e.name, h, data);
      case Lnk(h, target) => AddLinkSpace(fs, cur, e.name, h, target);
      case Dir(h, kids) => AddDirSpace(fs, cur, e.name, h, kids);
    }
  }

  lemma {:induction false} OpenKidsSpace(fs: Fs, cur: nat, kids: seq<Entry>)
    requires Full(fs) && cur in fs.inodes
    ensures var n, seen := fs.inodes[cur].blocks, fs.byReal.Keys;
      var r := OpenKids(fs, cur, kids);
      && Meets(r, fs, n + Visible(kids) <= LN && Fits(kids, seen),
               Need(kids, seen) + Growth(n, Visible(kids)), Seen(kids, seen))
      && (r.Ok? ==> Lengths(fs, r.value, cur, n + Visible(kids)))
    decreases kids, 0
  {
    hide FilesOk, LogOk, OnDisk, View, Shape, FileBlocks, AddNode, NeedNode, FitsNode, SeenNode;
    var n := fs.inodes[cur].blocks;
    Limits(fs, cur);
    if kids != [] {
      AddNodeSpace(fs, cur, kids[0]);
      FileBlocksMono(n + if HasEntry(kids[0]) then 1 else 0, n + Visible(kids));
      if AddNode(fs, cur, kids[0]).Ok? {
        OpenKidsSpace(AddNode(fs, cur, kids[0]).value, cur, kids[1..]);
      }
    }
  }

  // ---- the whole run ----

  lemma RunSpace(size: nat, slack: Slack, kids: seq<Entry>)
    ensures var ninos := BlocksOfImage(size);
      var free := ninos - FirstFree(ninos);
      var r := Run(size, slack, kids);
      var fits := 2 + Visible(kids) <= 32768 && Fits(kids, {0});
      && (r.Ok? <==> 0 < free && fits && Demand(kids) <= free)
      && (free <= 0 ==> r == Wrappers.Err(Wrappers.ImageTooSmall))
      && (r.Err? && 0 < free && fits ==> r.error == Wrappers.NoSpace)
      && (r.Ok? ==> r.value.ninos == ninos && r.value.slack == slack && r.value.next == FirstFree(ninos) + Demand(kids)
                    && r.value.unused == free - Demand(kids) && r.value.byReal.Keys == Seen(kids, {0}))
  {
    hide FilesOk, LogOk, OnDisk, View, OpenDir, Need, Fits, Seen, Visible, FileBlocks;
    CreateOk(size, slack);
    if Create(size, slack).Ok? {
      var fs := Create(size, slack).value;
      assert fs.byReal.Keys == {0};
      OpenDirSpace(fs, BLKN_ROOT, BLKN_ROOT, kids);
    }
  }

  /** The number n of blocks used of an image file of size bytes: whole blocks of 4096 bytes, counted in 32 bits, at
      most 524288. */
  predicate IsBlockCount(n: nat, size: nat) {
    n == if size / 4096 % 0x1_0000_0000 > 524288 then 524288 else size / 4096 % 0x1_0000_0000
  }

  /** No block of the count lies outside the file; of a file below 2^44 bytes it is the largest such number up to
      524288, and of a larger one it is iff the 32-bit count has not dropped below 524288. */
  lemma BlockCount(n: nat, size: nat)
    requires IsBlockCount(n, size)
    ensures BlocksOfImage(size) == n && n * 4096 <= size && n <= 524288
    ensures size < 0x1000_0000_0000 ==> n == 524288 || size < (n + 1) * 4096
    ensures (n == 524288 || size < (n + 1) * 4096) <==> size < 0x1000_0000_0000 || size / 4096 % 0x1_0000_0000 >= 524288
  {}

  /** c bitmap blocks of 32768 bits each are what n blocks need. */
  predicate IsBitmapSize(c: nat, n: nat) {
    n <= 32768 * c && 32768 * c < n + 32768
  }

  lemma FirstFreeIs(n: nat, c: nat)
    requires IsBitmapSize(c, n)
    ensures FirstFree(n) == 2 + c
  {}

  /** A build on an image of n blocks, c of them for the bitmap, succeeds exactly when some block is left over, the tree
      keeps every other limit, and its demand is at most the n - 2 - c blocks that are free; a tree that keeps the
      limits can only fail for lack of space. */
  lemma BuildSucceedsIff(size: nat, slack: Slack, kids: seq<Entry>, n: nat, c: nat)
    requires IsBlockCount(n, size) && IsBitmapSize(c, n)
    ensures var r := Run(size, slack, kids);
      var fits := 2 + Visible(kids) <= 32768 && Fits(kids, {0});
      && (r.Ok? <==> 2 + c < n && fits && Demand(kids) <= n - 2 - c)
      && (n <= 2 + c ==> r == Wrappers.Err(Wrappers.ImageTooSmall))
      && (r.Err? && 2 + c < n && fits ==> r.error == Wrappers.NoSpace)
      && (r.Ok? ==> r.value.ninos == n && r.value.slack == slack && r.value.next == 2 + c + Demand(kids) && r.value.unused == n - 2 - c - Demand(kids)
                    && r.value.byReal.Keys == Seen(kids, {0}))
  {
    hide Run, Fits, Seen, Visible, Demand, BlocksOfImage, FirstFree;
    BlockCount(n, size);
    FirstFreeIs(n, c);
    RunSpace(size, slack, kids);
  }

  /** No accepted run writes outside the image file. */
  lemma InsideTheFile(size: nat, slack: Slack, kids: seq<Entry>, b: nat)
    requires Run(size, slack, kids).Ok? && b < Run(size, slack, kids).value.next
    ensures (b + 1) * 4096 <= size
  {
    hide Run, Fits, Seen, Visible, Demand, BlocksOfImage, FirstFree;
    var m := size / 4096 % 0x1_0000_0000;
    var n := if m > 524288 then 524288 else m;
    BlockCount(n, size);
    RunSpace(size, slack, kids);
    RunShape(size, slack, kids);
  }

  lemma RunShape(size: nat, slack: Slack, kids: seq<Entry>)
    requires Run(size, slack, kids).Ok?
    ensures Run(size, slack, kids).value.next <= Run(size, slack, kids).value.ninos
  {
    hide FilesOk, LogOk, OnDisk, Run;
  }

  /** Which error comes first: space for the data block, then the limit of 32768 blocks; for a link, space, then a target
      of 4096 bytes or more; for a directory, a host number seen before, then space. */
  lemma FirstError(fs: Fs, f: nat, data: seq<byte>, target: seq<byte>, name: seq<byte>, host: nat, kids: seq<Entry>)
    requires Full(fs) && f in fs.inodes && |data| <= 4096 && |name| <= 255
    ensures var r := Put(fs, f, data, |data|);
      && (fs.next >= fs.ninos ==> r == Wrappers.Err(Wrappers.NoSpace))
      && (fs.next < fs.ninos && fs.inodes[f].blocks >= 32768 ==> r == Wrappers.Err(Wrappers.TooBig))
    ensures var r := OpenLink(fs, f, target);
      && (fs.next >= fs.ninos ==> r == Wrappers.Err(Wrappers.NoSpace))
      && (fs.next < fs.ninos && |target| >= 4096 ==> r == Wrappers.Err(Wrappers.LinkTooLong))
    ensures var r := AddDir(fs, f, name, host, kids);
      && (host in fs.byReal ==> r == Wrappers.Err(Wrappers.DuplicateDir))
      && (host !in fs.byReal && fs.next >= fs.ninos ==> r == Wrappers.Err(Wrappers.NoSpace))
  {
    hide FilesOk, LogOk, OnDisk, View, AppendL1, AppendL2, OpenDir, AddEntry;
  }

  /** The index blocks of a file: none up to 12 blocks, one up to 1036, then the two roots' blocks and one
      for every further 1024 data blocks begun. */
  lemma FileDemand(n: nat)
    ensures n <= 12 ==> FileBlocks(n) == n
    ensures 12 < n <= 1036 ==> FileBlocks(n) == n + 1
    ensures 1036 < n ==> exists c: nat :: 1024 * (c - 1) < n - 1036 <= 1024 * c && FileBlocks(n) == n + 2 + c
  {
    if n > 1036 {
      var c := (n - 1036 + 1023) / 1024;
      assert 1024 * (c - 1) < n - 1036 <= 1024 * c;
    }
  }
}
