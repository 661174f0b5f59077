/** Link counts of regular files. */
module Links {
  import opened Bytes
  import opened Image
  import BlockMap
  import opened Store
  import opened Build
  import Space
  import opened Tree
  import opened TreeBuild

  /** Directory entries for regular files of host number h. */
  function Occ(kids: seq<Entry>, h: nat): nat
    decreases kids, 0
  {
    if kids == [] then 0 else OccNode(kids[0], h) + Occ(kids[1..], h)
  }

  function OccNode(e: Entry, h: nat): nat
    decreases e, 0
  {
    if !Space.HasEntry(e) then 0
    else match e.node
      case Reg(r, _) => if r == h then 1 else 0
      case Dir(_, kids) => Occ(kids, h)
      case _ => 0
  }

  function LinksOf(v: map<nat, Obj>, rho: map<nat, nat>, h: nat): nat {
    if h in rho && rho[h] in v then v[rho[h]].nlinks else 0
  }

  /** k more references to the regular file of host number h. */
  predicate MoreLinks(v: map<nat, Obj>, rho: map<nat, nat>, v': map<nat, Obj>, rho': map<nat, nat>, h: nat, k: nat) {
    LinksOf(v', rho', h) == (LinksOf(v, rho, h) + k) % 0x1_0000
  }

  lemma AddFileLinks(fs: Fs, cur: nat, name: seq<byte>, r: nat, data: seq<byte>, files: map<nat, seq<byte>>, h: nat)
    requires Full(fs) && cur in fs.inodes && |name| <= MAX_FNAME_LEN && h in files && r in files
    requires IsDir(View(fs), cur) && FilesIn(View(fs), fs.byReal, files)
    requires AddFile(fs, cur, name, r, data).Ok? && LinksOf(View(fs), fs.byReal, h) < 0x1_0000
    ensures var fs' := AddFile(fs, cur, name, r, data).value;
      MoreLinks(View(fs), fs.byReal, View(fs'), fs'.byReal, h, if r == h then 1 else 0)
  {
    hide FilesOk, LogOk, OnDisk, View, Put, BlockMap.FileBlocks, Chunk, AddEntry, AllocInode, OpenFile, EntryBlock, EntryBytes, StrCpy, Shape;
    ViewKeys(fs);
    if r in fs.byReal {
      Space.HostShape(fs, r);
      AddEntryView(fs, cur, fs.byReal[r], name);
      HostsApart(fs, r, h);
    } else {
      NextIsNew(fs);
      AllocInodeOk(fs, r, T_FILE);
      var (fs1, f) := AllocInode(fs, r, T_FILE).value;
      OpenFileView(fs1, f, data);
      AddEntryView(OpenFile(fs1, f, data).value, cur, f, name);
    }
  }

  lemma HostsApart(fs: Fs, r: nat, h: nat)
    requires Full(fs) && r in fs.byReal
    ensures h in fs.byReal && r != h ==> fs.byReal[h] != fs.byReal[r]
  {}

  lemma AddLinkLinks(fs: Fs, cur: nat, name: seq<byte>, r: nat, target: seq<byte>, files: map<nat, seq<byte>>, h: nat)
    requires Full(fs) && cur in fs.inodes && |name| <= MAX_FNAME_LEN && h in files && r !in files
    requires IsDir(View(fs), cur) && FilesIn(View(fs), fs.byReal, files)
    requires AddLink(fs, cur, name, r, target).Ok? && LinksOf(View(fs), fs.byReal, h) < 0x1_0000
    ensures var fs' := AddLink(fs, cur, name, r, target).value;
      MoreLinks(View(fs), fs.byReal, View(fs'), fs'.byReal, h, 0)
  {
    hide FilesOk, LogOk, OnDisk, View, Put, BlockMap.FileBlocks, AddEntry, AllocInode, EntryBlock, EntryBytes, StrCpy, Shape;
    NextIsNew(fs);
    ViewKeys(fs);
    AllocInodeOk(fs, r, T_LINK);
    var (fs1, f) := AllocInode(fs, r, T_LINK).value;
    PutOk(fs1, f, target, |target|);
    AddEntryView(OpenLink(fs1, f, target).value, cur, f, name);
  }

  lemma MoreThen(v0: map<nat, Obj>, rho0: map<nat, nat>, v1: map<nat, Obj>, rho1: map<nat, nat>,
                 v2: map<nat, Obj>, rho2: map<nat, nat>, h: nat, k1: nat, k2: nat)
    requires MoreLinks(v0, rho0, v1, rho1, h, k1) && MoreLinks(v1, rho1, v2, rho2, h, k2)
    ensures MoreLinks(v0, rho0, v2, rho2, h, k1 + k2)
  {}

  /** An entry for a directory, or a directory's inode, adds no reference to a regular file. */
  lemma DirEntryLinks(v: map<nat, Obj>, rho: map<nat, nat>, files: map<nat, seq<byte>>, cur: nat, d: nat, blk: seq<byte>, h: nat)
    requires cur in v && d in v && v[cur].kind == T_DIR && v[d].kind == T_DIR && h in files && FilesIn(v, rho, files)
    requires LinksOf(v, rho, h) < 0x1_0000
    ensures MoreLinks(v, rho, WithEntry(v, cur, d, blk), rho, h, 0)
  {}

  lemma NewDirLinks(v: map<nat, Obj>, rho: map<nat, nat>, files: map<nat, seq<byte>>, d: nat, r: nat, parent: nat,
                    b0: seq<byte>, b1: seq<byte>, h: nat)
    requires IsDir(v, parent) && FilesIn(v, rho, files) && d !in v && r !in files && h in files
    requires LinksOf(v, rho, h) < 0x1_0000
    ensures MoreLinks(v, rho, FreshDir(v, d, r, parent, b0, b1), rho[r := d], h, 0)
  {
    FreshDirIs(v, rho, files, d, r, parent, b0, b1);
  }

  lemma {:induction false} AddDirLinks(fs: Fs, cur: nat, name: seq<byte>, r: nat, kids: seq<Entry>,
                                       files: map<nat, seq<byte>>, h: nat)
    requires Full(fs) && cur in fs.inodes && |name| <= MAX_FNAME_LEN && h in files && r !in files && Hosted(kids, files)
    requires IsDir(View(fs), cur) && FilesIn(View(fs), fs.byReal, files)
    requires AddDir(fs, cur, name, r, kids).Ok? && LinksOf(View(fs), fs.byReal, h) < 0x1_0000
    ensures var fs' := AddDir(fs, cur, name, r, kids).value;
      MoreLinks(View(fs), fs.byReal, View(fs'), fs'.byReal, h, Occ(kids, h))
    decreases kids, 2
  {
    hide FilesOk, LogOk, OnDisk, View, Put, BlockMap.FileBlocks, WithEntry, AddEntry, AllocInode, OpenKids, FilesIn, FreshDir,
      Hosted, KidsRealised, Frozen, SubDirs, Occ, LinksOf, MoreLinks, RhoGrows, StrCpy, EntryBlock, Shape, Fills;
    AllocInodeOk(fs, r, T_DIR);
    var fs3, d, b0, b1 := StartDir(fs, cur, r);
    FreshDirIs(View(fs), fs.byReal, files, d, r, cur, b0, b1);
    NewDirLinks(View(fs), fs.byReal, files, d, r, cur, b0, b1, h);
    MoreSmall(View(fs), fs.byReal, View(fs3), fs3.byReal, h, 0);
    OpenKidsLinks(fs3, d, kids, files, h);
    var fs4 := OpenKids(fs3, d, kids).value;
    MoreThen(View(fs), fs.byReal, View(fs3), fs3.byReal, View(fs4), fs4.byReal, h, 0, Occ(kids, h));
    MoreSmall(View(fs3), fs3.byReal, View(fs4), fs4.byReal, h, Occ(kids, h));
    var blks := OpenKidsTree(fs3, d, kids, files);
    StillDir(View(fs), View(fs4), cur, d, View(fs3), fs.byReal, fs3.byReal, fs4.byReal, files, blks, SubDirs(kids), r, b0, b1);
    AddEntryView(fs4, cur, d, name);
    NameLength(fs4);
    var blk := EntryBlock(d, StrCpy(fs4.name, name));
    DirEntryLinks(View(fs4), fs4.byReal, files, cur, d, blk, h);
    var fs5 := AddDir(fs, cur, name, r, kids).value;
    MoreThen(View(fs), fs.byReal, View(fs4), fs4.byReal, View(fs5), fs5.byReal, h, Occ(kids, h), 0);
  }

  lemma StillDir(v: map<nat, Obj>, v4: map<nat, Obj>, cur: nat, d: nat, v3: map<nat, Obj>, rho: map<nat, nat>, rho3: map<nat, nat>,
                 rho4: map<nat, nat>, files: map<nat, seq<byte>>, blks: seq<seq<byte>>, k: nat, r: nat, b0: seq<byte>, b1: seq<byte>)
    requires IsDir(v, cur) && d !in v && v3 == FreshDir(v, d, r, cur, b0, b1) && r !in files && FilesIn(v, rho, files)
    requires Fills(v3, rho3, v4, rho4, files, d, blks, k)
    ensures cur in v4 && d in v4 && v4[cur].kind == T_DIR && v4[d].kind == T_DIR && FilesIn(v4, rho4, files)
  {
    FreshDirIs(v, rho, files, d, r, cur, b0, b1);
  }

  lemma MoreSmall(v: map<nat, Obj>, rho: map<nat, nat>, v': map<nat, Obj>, rho': map<nat, nat>, h: nat, k: nat)
    requires MoreLinks(v, rho, v', rho', h, k)
    ensures LinksOf(v', rho', h) < 0x1_0000
  {}

  lemma {:induction false} AddNodeLinks(fs: Fs, cur: nat, e: Entry, files: map<nat, seq<byte>>, h: nat)
    requires Full(fs) && cur in fs.inodes && HostedNode(e, files) && h in files
    requires IsDir(View(fs), cur) && FilesIn(View(fs), fs.byReal, files)
    requires AddNode(fs, cur, e).Ok? && LinksOf(View(fs), fs.byReal, h) < 0x1_0000
    ensures var fs' := AddNode(fs, cur, e).value;
      MoreLinks(View(fs), fs.byReal, View(fs'), fs'.byReal, h, OccNode(e, h))
    decreases e, 3
  {
    hide FilesOk, LogOk, OnDisk, View, FilesIn, AddDir, AddLink, AddFile, Occ;
    if Space.HasEntry(e) {
      match e.node {
        case Reg(r, data) => AddFileLinks(fs, cur, e.name, r, data, files, h);
        case Lnk(r, target) => AddLinkLinks(fs, cur, e.name, r, target, files, h);
        case Dir(r, kids) => AddDirLinks(fs, cur, e.name, r, kids, files, h);
      }
    }
  }

  /** Building the entries of a directory adds to a regular file's link count the number of its names among them. */
  lemma {:induction false} OpenKidsLinks(fs: Fs, cur: nat, kids: seq<Entry>, files: map<nat, seq<byte>>, h: nat)
    requires Full(fs) && cur in fs.inodes && Hosted(kids, files) && h in files
    requires IsDir(View(fs), cur) && FilesIn(View(fs), fs.byReal, files)
    requires OpenKids(fs, cur, kids).Ok? && LinksOf(View(fs), fs.byReal, h) < 0x1_0000
    ensures var fs' := OpenKids(fs, cur, kids).value;
      MoreLinks(View(fs), fs.byReal, View(fs'), fs'.byReal, h, Occ(kids, h))
    decreases kids, 0
  {
    hide FilesOk, LogOk, OnDisk, View, FilesIn, Fills, Frozen, RhoGrows, IsDir, AddNode, HostedNode, KidsRealised, Shape,
      LinksOf, OccNode;
    if kids != [] {
      AddNodeLinks(fs, cur, kids[0], files, h);
      var b1 := AddNodeTree(fs, cur, kids[0], files);
      var fs1 := AddNode(fs, cur, kids[0]).value;
      var d1 := if Space.HasEntry(kids[0]) && kids[0].node.Dir? then 1 else 0;
      FillsKeeps(View(fs), fs.byReal, View(fs1), fs1.byReal, files, cur, b1, d1);
      MoreSmall(View(fs), fs.byReal, View(fs1), fs1.byReal, h, OccNode(kids[0], h));
      OpenKidsLinks(fs1, cur, kids[1..], files, h);
      var fs2 := OpenKids(fs1, cur, kids[1..]).value;
      MoreThen(View(fs), fs.byReal, View(fs1), fs1.byReal, View(fs2), fs2.byReal, h, OccNode(kids[0], h), Occ(kids[1..], h));
    }
  }
}
