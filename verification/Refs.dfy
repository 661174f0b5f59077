/** Every link count is the number of directory entries that name the inode, modulo 2^16. */
module Refs {
  import opened Bytes
  import opened Image
  import BlockMap
  import opened Store
  import opened Build
  import Space
  import opened Tree

  /** Entry blocks among blks that name g. */
  function Count(blks: seq<seq<byte>>, g: nat): nat {
    if blks == [] then 0 else Count(blks[..|blks| - 1], g) + if EntryIno(blks[|blks| - 1]) == g then 1 else 0
  }

  /** Entries that name g in the directories numbered below n. */
  function References(v: map<nat, Obj>, n: nat, g: nat): nat {
    if n == 0 then 0
    else References(v, n - 1, g) + if n - 1 in v && v[n - 1].kind == T_DIR then Count(v[n - 1].content, g) else 0
  }

  function NLinks(v: map<nat, Obj>, g: nat): nat {
    if g in v then v[g].nlinks else 0
  }

  predicate RefsOk(v: map<nat, Obj>, n: nat, g: nat) {
    NLinks(v, g) == References(v, n, g) % 0x1_0000
  }

  // ---- changes of the store ----

  predicate SameDir(v: map<nat, Obj>, v': map<nat, Obj>, k: nat) {
    var isDir := k in v && v[k].kind == T_DIR;
    var isDir' := k in v' && v'[k].kind == T_DIR;
    (isDir && isDir' && v'[k].content == v[k].content) || (!isDir && !isDir')
      || (!isDir && isDir' && v'[k].content == [])
  }

  lemma {:induction false} SameReferences(v: map<nat, Obj>, v': map<nat, Obj>, n: nat, g: nat)
    requires forall k: nat | k < n :: SameDir(v, v', k)
    ensures References(v', n, g) == References(v, n, g)
  {
    if n > 0 {
      SameReferences(v, v', n - 1, g);
      assert SameDir(v, v', n - 1);
    }
  }

  lemma {:induction false} MoreNumbers(v: map<nat, Obj>, n: nat, n': nat, g: nat)
    requires n <= n' && forall k <- v :: k < n
    ensures References(v, n', g) == References(v, n, g)
  {
    if n < n' {
      MoreNumbers(v, n, n' - 1, g);
    }
  }

  lemma {:induction false} EntryReferences(v: map<nat, Obj>, n: nat, cur: nat, file: nat, blk: seq<byte>, g: nat)
    requires cur in v && v[cur].kind == T_DIR && file in v
    ensures References(WithEntry(v, cur, file, blk), n, g)
            == References(v, n, g) + if cur < n && EntryIno(blk) == g then 1 else 0
  {
    if n > 0 {
      EntryReferences(v, n - 1, cur, file, blk, g);
      if n - 1 == cur {
        var c := v[cur].content + [blk];
        assert c[..|c| - 1] == v[cur].content;
      }
    }
  }

  lemma EntryRefs(v: map<nat, Obj>, n: nat, n': nat, cur: nat, file: nat, blk: seq<byte>, g: nat)
    requires cur in v && v[cur].kind == T_DIR && file in v && n <= n' && (forall k <- v :: k < n) && EntryIno(blk) == file
    requires RefsOk(v, n, g)
    ensures RefsOk(WithEntry(v, cur, file, blk), n', g)
  {
    EntryReferences(v, n', cur, file, blk, g);
    MoreNumbers(v, n, n', g);
  }

  /** A new object without entries, or a change of one that is no directory. */
  lemma OtherRefs(v: map<nat, Obj>, n: nat, n': nat, f: nat, o: Obj, g: nat)
    requires n <= n' && (forall k <- v :: k < n) && f < n'
    requires if f in v then v[f].kind != T_DIR && o.kind != T_DIR && o.nlinks == v[f].nlinks
             else o.nlinks == 0 && o.content == []
    requires RefsOk(v, n, g)
    ensures RefsOk(v[f := o], n', g)
  {
    MoreNumbers(v, n, n', g);
    SameReferences(v, v[f := o], n', g);
  }

  // ---- the operations ----

  /** g's count stays right and no inode changes its kind. */
  ghost predicate KeepsRefs(fs: Fs, fs': Fs, g: nat)
    requires FilesOk(fs) && FilesOk(fs')
  {
    && (RefsOk(View(fs), fs.next, g) ==> RefsOk(View(fs'), fs'.next, g))
    && (forall k <- View(fs) :: k in View(fs') && View(fs')[k].kind == View(fs)[k].kind)
  }

  predicate DirIn(fs: Fs, cur: nat)
    requires FilesOk(fs)
  {
    cur in View(fs) && View(fs)[cur].kind == T_DIR
  }

  lemma NumbersBelow(fs: Fs)
    requires Full(fs)
    ensures View(fs).Keys == fs.inodes.Keys && forall k <- View(fs) :: k < fs.next
  {
    hide LogOk, OnDisk;
    forall k | k in fs.inodes ensures k < fs.next {}
  }

  lemma AddEntryRefs(fs: Fs, cur: nat, file: nat, name: seq<byte>, g: nat)
    requires Full(fs) && cur in fs.inodes && file in fs.inodes && |name| <= MAX_FNAME_LEN && DirIn(fs, cur)
    requires AddEntry(fs, cur, file, name).Ok?
    ensures KeepsRefs(fs, AddEntry(fs, cur, file, name).value, g)
  {
    hide FilesOk, OnDisk, LogOk, View, References, AddEntry, EntryIno, EntryBlock;
    NumbersBelow(fs);
    AddEntryView(fs, cur, file, name);
    InoSmall(fs, file);
    var blk := EntryBlock(file, StrCpy(fs.name, name));
    EntryNumber(file, StrCpy(fs.name, name));
    if RefsOk(View(fs), fs.next, g) {
      EntryRefs(View(fs), fs.next, AddEntry(fs, cur, file, name).value.next, cur, file, blk, g);
    }
  }

  lemma AllocRefs(fs: Fs, host: nat, kind: nat, g: nat)
    requires Full(fs) && AllocInode(fs, host, kind).Ok?
    ensures var (fs1, f) := AllocInode(fs, host, kind).value;
      Full(fs1) && f in fs1.inodes && fs.inodes.Keys <= fs1.inodes.Keys && f in View(fs1) && View(fs1)[f].kind == kind && KeepsRefs(fs, fs1, g)
  {
    hide FilesOk, OnDisk, LogOk, View, References;
    NumbersBelow(fs);
    AllocInodeOk(fs, host, kind);
    if RefsOk(View(fs), fs.next, g) {
      OtherRefs(View(fs), fs.next, fs.next + 1, fs.next, Obj(kind, host, 0, 0, []), g);
    }
  }

  lemma PutRefs(fs: Fs, f: nat, data: seq<byte>, size: nat, g: nat)
    requires Full(fs) && f in fs.inodes && |data| <= BLKSIZE && f in View(fs) && View(fs)[f].kind != T_DIR
    requires Put(fs, f, data, size).Ok?
    ensures Full(Put(fs, f, data, size).value) && KeepsRefs(fs, Put(fs, f, data, size).value, g)
  {
    hide FilesOk, OnDisk, LogOk, View, References, Put, BlockMap.FileBlocks;
    NumbersBelow(fs);
    PutOk(fs, f, data, size);
    if RefsOk(View(fs), fs.next, g) {
      OtherRefs(View(fs), fs.next, Put(fs, f, data, size).value.next, f, Extended(View(fs)[f], data, size), g);
    }
  }

  lemma {:induction false} OpenFileRefs(fs: Fs, f: nat, data: seq<byte>, g: nat)
    requires Full(fs) && f in fs.inodes && f in View(fs) && View(fs)[f].kind != T_DIR && OpenFile(fs, f, data).Ok?
    ensures KeepsRefs(fs, OpenFile(fs, f, data).value, g)
    decreases |data|
  {
    hide FilesOk, OnDisk, LogOk, View, Put, Chunk, RefsOk, Shape;
    if data != [] {
      var c := Chunk(data);
      PutRefs(fs, f, c, |c|, g);
      var fs1 := Put(fs, f, c, |c|).value;
      PutOk(fs, f, c, |c|);
      OpenFileRefs(fs1, f, data[|c|..], g);
    }
  }

  lemma AddFileRefs(fs: Fs, cur: nat, name: seq<byte>, host: nat, data: seq<byte>, g: nat)
    requires Full(fs) && cur in fs.inodes && |name| <= MAX_FNAME_LEN && DirIn(fs, cur) && AddFile(fs, cur, name, host, data).Ok?
    ensures KeepsRefs(fs, AddFile(fs, cur, name, host, data).value, g)
  {
    hide FilesOk, OnDisk, LogOk, View, AddEntry, OpenFile, AllocInode, RefsOk, Shape;
    if host in fs.byReal {
      Space.HostShape(fs, host);
      AddEntryRefs(fs, cur, fs.byReal[host], name, g);
    } else {
      AllocRefs(fs, host, T_FILE, g);
      var (fs1, f) := AllocInode(fs, host, T_FILE).value;
      OpenFileRefs(fs1, f, data, g);
      AddEntryRefs(OpenFile(fs1, f, data).value, cur, f, name, g);
    }
  }

  lemma AddLinkRefs(fs: Fs, cur: nat, name: seq<byte>, host: nat, target: seq<byte>, g: nat)
    requires Full(fs) && cur in fs.inodes && |name| <= MAX_FNAME_LEN && DirIn(fs, cur) && AddLink(fs, cur, name, host, target).Ok?
    ensures KeepsRefs(fs, AddLink(fs, cur, name, host, target).value, g)
  {
    hide FilesOk, OnDisk, LogOk, View, AddEntry, AllocInode, RefsOk, Shape, Put;
    AllocRefs(fs, host, T_LINK, g);
    var (fs1, f) := AllocInode(fs, host, T_LINK).value;
    PutRefs(fs1, f, target, |target|, g);
    AddEntryRefs(OpenLink(fs1, f, target).value, cur, f, name, g);
  }

  lemma {:induction false} AddDirRefs(fs: Fs, cur: nat, name: seq<byte>, host: nat, kids: seq<Entry>, g: nat)
    requires Full(fs) && cur in fs.inodes && |name| <= MAX_FNAME_LEN && DirIn(fs, cur) && AddDir(fs, cur, name, host, kids).Ok?
    ensures KeepsRefs(fs, AddDir(fs, cur, name, host, kids).value, g)
    decreases kids, 2
  {
    hide FilesOk, OnDisk, LogOk, View, AddEntry, AllocInode, RefsOk, Shape, OpenDir;
    AllocRefs(fs, host, T_DIR, g);
    var (fs1, d) := AllocInode(fs, host, T_DIR).value;
    OpenDirRefs(fs1, d, cur, kids, g);
    AddEntryRefs(OpenDir(fs1, d, cur, kids).value, cur, d, name, g);
  }

  lemma {:induction false} OpenDirRefs(fs: Fs, cur: nat, parent: nat, kids: seq<Entry>, g: nat)
    requires Full(fs) && cur in fs.inodes && parent in fs.inodes && DirIn(fs, cur) && OpenDir(fs, cur, parent, kids).Ok?
    ensures KeepsRefs(fs, OpenDir(fs, cur, parent, kids).value, g)
    decreases kids, 1
  {
    hide FilesOk, OnDisk, LogOk, View, AddEntry, OpenKids, RefsOk, Shape;
    AddEntryRefs(fs, cur, cur, DOT_NAME, g);
    var fs1 := AddEntry(fs, cur, cur, DOT_NAME).value;
    AddEntryRefs(fs1, cur, parent, DOT_DOT_NAME, g);
    OpenKidsRefs(AddEntry(fs1, cur, parent, DOT_DOT_NAME).value, cur, kids, g);
  }

  lemma {:induction false} AddNodeRefs(fs: Fs, cur: nat, e: Entry, g: nat)
    requires Full(fs) && cur in fs.inodes && DirIn(fs, cur) && AddNode(fs, cur, e).Ok?
    ensures KeepsRefs(fs, AddNode(fs, cur, e).value, g)
    decreases e, 3
  {
    hide FilesOk, OnDisk, LogOk, View, AddDir, AddFile, AddLink, RefsOk, Shape;
    if Space.HasEntry(e) {
      match e.node
      case Reg(h, data) => AddFileRefs(fs, cur, e.name, h, data, g);
      case Lnk(h, target) => AddLinkRefs(fs, cur, e.name, h, target, g);
      case Dir(h, kids) => AddDirRefs(fs, cur, e.name, h, kids, g);
    }
  }

  lemma {:induction false} OpenKidsRefs(fs: Fs, cur: nat, kids: seq<Entry>, g: nat)
    requires Full(fs) && cur in fs.inodes && DirIn(fs, cur) && OpenKids(fs, cur, kids).Ok?
    ensures KeepsRefs(fs, OpenKids(fs, cur, kids).value, g)
    decreases kids, 0
  {
    hide FilesOk, OnDisk, LogOk, View, AddNode, RefsOk, Shape;
    if kids != [] {
      AddNodeRefs(fs, cur, kids[0], g);
      OpenKidsRefs(AddNode(fs, cur, kids[0]).value, cur, kids[1..], g);
    }
  }

  /** At the end of every run, for every host tree, the link count of each inode is the number of directory entries
      that name it, modulo 2^16; a number that is no inode is named by no entry, or by a multiple of 2^16. */
  lemma LinkCounts(size: nat, slack: Slack, kids: seq<Entry>, g: nat)
    requires Run(size, slack, kids).Ok?
    ensures var fs := Run(size, slack, kids).value;
      && NLinks(View(fs), g) == References(View(fs), fs.next, g) % 0x1_0000
      && (NLinks(View(fs), g) == References(View(fs), fs.next, g) <==> References(View(fs), fs.next, g) < 0x1_0000)
  {
    hide FilesOk, OnDisk, LogOk, OpenDir, References, NLinks, Create, View;
    CreatedRefs(size, slack, g);
    var fs := Create(size, slack).value;
    OpenDirRefs(fs, BLKN_ROOT, BLKN_ROOT, kids, g);
    Below16(References(View(Run(size, slack, kids).value), Run(size, slack, kids).value.next, g));
  }

  lemma Below16(n: nat)
    ensures n % 0x1_0000 == n <==> n < 0x1_0000
  {}

  /** Nothing is named before the first entry. */
  lemma CreatedRefs(size: nat, slack: Slack, g: nat)
    requires Create(size, slack).Ok?
    ensures var fs := Create(size, slack).value;
      Full(fs) && BLKN_ROOT in fs.inodes && DirIn(fs, BLKN_ROOT) && RefsOk(View(fs), fs.next, g)
  {
    hide FilesOk, OnDisk, LogOk;
    CreateOk(size, slack);
    var fs := Create(size, slack).value;
    assert View(fs)[BLKN_ROOT].content == [];
    SameReferences(map[], View(fs), fs.next, g);
    NoReferences(fs.next, g);
  }

  lemma {:induction false} NoReferences(n: nat, g: nat)
    ensures References(map[], n, g) == 0
  {
    if n > 0 {
      NoReferences(n - 1, g);
    }
  }
}
