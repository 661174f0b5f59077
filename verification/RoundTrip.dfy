/** Decoding the blocks of a finished image gives back the directory tree it was built from. */
module RoundTrip {
  import opened Bytes
  import Wrappers
  import opened Image
  import BlockMap
  import opened Store
  import opened Build
  import opened Space
  import opened Tree
  import TreeBuild
  import opened Links
  import opened Disk

  // ---- the decoder ----

  datatype DEntry = DEntry(name: seq<byte>, node: DNode)
  datatype DNode =
    | DDir(nlinks: nat, kids: seq<DEntry>)
    | DReg(ino: nat, nlinks: nat, data: seq<byte>)
    | DLnk(nlinks: nat, target: seq<byte>)
    | Bad

  function Join(c: seq<seq<byte>>): seq<byte> {
    if c == [] then [] else c[0] + Join(c[1..])
  }

  /** The first size bytes of a content. */
  function FileData(o: Obj): seq<byte> {
    var j := Join(o.content);
    if o.size <= |j| then j[..o.size] else j
  }

  /** The node with inode number ino in the directory parent, read down to the given depth. */
  function Decode(d: DiskImage, ino: nat, parent: nat, depth: nat): DNode
    decreases depth, 0
  {
    var o := DiskObj(d, ino, 0);
    if depth == 0 then Bad
    else if o.kind == 1 then DReg(ino, o.nlinks, FileData(o))
    else if o.kind == 3 then DLnk(o.nlinks, FileData(o))
    else if o.kind == 2 && IsDirContent(o.content, o.size, ino, parent) then
      DDir(o.nlinks, DecodeKids(d, o.content[2..], ino, depth - 1))
    else Bad
  }

  predicate IsDirContent(c: seq<seq<byte>>, size: nat, ino: nat, parent: nat) {
    && |c| >= 2 && size == 256 * |c|
    && EntryName(c[0]) == [46] && EntryIno(c[0]) == ino
    && EntryName(c[1]) == [46, 46] && EntryIno(c[1]) == parent
  }

  function DecodeKids(d: DiskImage, blks: seq<seq<byte>>, parent: nat, depth: nat): seq<DEntry>
    decreases depth, 1, |blks|
  {
    if blks == [] then []
    else [DEntry(EntryName(blks[0]), Decode(d, EntryIno(blks[0]), parent, depth))]
         + DecodeKids(d, blks[1..], parent, depth)
  }

  // ---- the tree to expect ----

  /** What is left of a host tree: no hidden or special entries, names cut at 252 bytes, one inode rho[h] for all the
      names of host file h, and link counts modulo 2^16. */
  function ExpectNode(node: Node, rho: map<nat, nat>, all: seq<Entry>): DNode
    decreases node
  {
    match node
    case Reg(h, data) => DReg(if h in rho then rho[h] else 0, Occ(all, h) % 0x1_0000, data)
    case Lnk(_, target) => DLnk(1, target)
    case Dir(_, kids) => DDir((2 + SubDirs(kids)) % 0x1_0000, ExpectKids(kids, rho, all))
    case Special => Bad
  }

  function ExpectKids(kids: seq<Entry>, rho: map<nat, nat>, all: seq<Entry>): seq<DEntry>
    decreases kids, 0
  {
    if kids == [] then []
    else if HasEntry(kids[0]) then
      [DEntry(Kept(kids[0].name), ExpectNode(kids[0].node, rho, all))] + ExpectKids(kids[1..], rho, all)
    else ExpectKids(kids[1..], rho, all)
  }

  function Max(a: nat, b: nat): nat {
    if a < b then b else a
  }

  function Height(kids: seq<Entry>): nat
    decreases kids, 0
  {
    if kids == [] then 1 else Max(NodeHeight(kids[0].node), Height(kids[1..]))
  }

  function NodeHeight(node: Node): nat
    decreases node
  {
    match node
    case Dir(_, kids) => 1 + Height(kids)
    case _ => 1
  }

  // ---- file contents ----

  lemma {:induction false} JoinChunks(data: seq<byte>)
    ensures |Join(Chunks(data))| >= |data| && Join(Chunks(data))[..|data|] == data
    ensures |Chunks(data)| == NChunks(|data|)
    decreases |data|
  {
    if data != [] {
      var c := Chunk(data);
      var rest := data[|c|..];
      JoinChunks(rest);
      assert Chunks(data)[1..] == Chunks(rest);
      if rest == [] {
        assert Join(Chunks(data))[..|data|] == Padded(c)[..|data|] == data;
      } else {
        assert |c| == BLKSIZE && Padded(c) == c;
        assert Join(Chunks(data)) == c + Join(Chunks(rest));
        assert data == c + rest;
      }
    }
  }

  // ---- the round trip ----

  /** Every regular file has as many links as the whole tree has names for it, modulo 2^16. */
  ghost predicate Counted(v: map<nat, Obj>, rho: map<nat, nat>, files: map<nat, seq<byte>>, all: seq<Entry>) {
    forall h <- rho | h in files :: rho[h] in v && v[rho[h]].nlinks == Occ(all, h) % 0x1_0000
  }

  lemma ReadObj(fs: Fs, f: nat)
    requires Full(fs) && f in fs.inodes && Sized(View(fs)[f])
    ensures DiskObj(FinalDisk(fs), f, 0) == View(fs)[f].(host := 0)
  {
    hide FilesOk, LogOk, OnDisk, Shape, FinalDisk, View, DiskContent;
    DiskObjIs(fs, f);
  }

  /** A content has one block for each block of the file, so it is short. */
  lemma ContentLimit(fs: Fs, f: nat)
    requires Full(fs) && f in fs.inodes
    ensures f in View(fs) && |View(fs)[f].content| <= LN
  {
    hide LogOk, OnDisk, FileOk;
    Limits(fs, f);
    ViewAt(fs, f);
  }

  lemma FileDecodes(d: DiskImage, ino: nat, parent: nat, depth: nat, data: seq<byte>)
    requires depth > 0 && var o := DiskObj(d, ino, 0); IsFile(o, data)
    ensures Decode(d, ino, parent, depth) == DReg(ino, DiskObj(d, ino, 0).nlinks, data)
  {
    hide DiskObj, Join, Chunks;
    JoinChunks(data);
  }

  lemma LinkDecodes(d: DiskImage, ino: nat, parent: nat, depth: nat, target: seq<byte>)
    requires depth > 0 && |target| < BLKSIZE
    requires var o := DiskObj(d, ino, 0); o.kind == T_LINK && o.size == |target| && o.content == [Padded(target)]
    ensures Decode(d, ino, parent, depth) == DLnk(DiskObj(d, ino, 0).nlinks, target)
  {
    hide DiskObj, Join;
    JoinOne(target);
  }

  lemma {:induction false} NodeDecodes(fs: Fs, files: map<nat, seq<byte>>, all: seq<Entry>, lo: nat, ino: nat, parent: nat,
                                       e: Entry, depth: nat)
    requires Full(fs) && HostedNode(e, files) && depth >= NodeHeight(e.node)
    requires Realised(View(fs), fs.byReal, lo, ino, parent, e.node) && Counted(View(fs), fs.byReal, files, all)
    ensures Decode(FinalDisk(fs), ino, parent, depth) == ExpectNode(e.node, fs.byReal, all)
    decreases e, 1
  {
    hide FilesOk, LogOk, OnDisk, Shape, FinalDisk, View, DiskObj, Join, Chunks, Occ, RealisedDir, Height, Decode;
    ViewKeys(fs);
    ContentLimit(fs, ino);
    match e.node {
      case Reg(h, data) =>
        JoinChunks(data);
        ReadObj(fs, ino);
        FileDecodes(FinalDisk(fs), ino, parent, depth, data);
      case Lnk(h, target) =>
        ReadObj(fs, ino);
        LinkDecodes(FinalDisk(fs), ino, parent, depth, target);
      case Dir(h, kids) =>
        DirDecodes(fs, files, all, lo, ino, parent, kids, depth);
    }
  }

  lemma JoinOne(target: seq<byte>)
    requires |target| < BLKSIZE
    ensures |Join([Padded(target)])| >= |target| && Join([Padded(target)])[..|target|] == target
  {
    var c := [Padded(target)];
    assert Join(c) == c[0] + Join(c[1..]) == Padded(target);
  }

  lemma {:induction false} DirDecodes(fs: Fs, files: map<nat, seq<byte>>, all: seq<Entry>, lo: nat, ino: nat, parent: nat,
                                      kids: seq<Entry>, depth: nat)
    requires Full(fs) && Hosted(kids, files) && depth >= 1 + Height(kids) && ino in View(fs)
    requires RealisedDir(View(fs), fs.byReal, lo, ino, parent, kids) && Counted(View(fs), fs.byReal, files, all)
    ensures Decode(FinalDisk(fs), ino, parent, depth) == DDir((2 + SubDirs(kids)) % 0x1_0000, ExpectKids(kids, fs.byReal, all))
    decreases kids, 2
  {
    hide FilesOk, LogOk, OnDisk, Shape, FinalDisk, View, DiskObj, Join, Chunks, Occ, KidsRealised, Height, Counted, SubDirs;
    ViewKeys(fs);
    ContentLimit(fs, ino);
    ReadObj(fs, ino);
    KidsDecode(fs, files, all, lo, ino, View(fs)[ino].content[2..], kids, depth - 1);
  }

  lemma {:induction false} KidsDecode(fs: Fs, files: map<nat, seq<byte>>, all: seq<Entry>, lo: nat, cur: nat,
                                      blks: seq<seq<byte>>, kids: seq<Entry>, depth: nat)
    requires Full(fs) && Hosted(kids, files) && depth >= Height(kids)
    requires KidsRealised(View(fs), fs.byReal, lo, cur, blks, kids) && Counted(View(fs), fs.byReal, files, all)
    ensures DecodeKids(FinalDisk(fs), blks, cur, depth) == ExpectKids(kids, fs.byReal, all)
    decreases kids, 0
  {
    hide FilesOk, LogOk, OnDisk, Shape, FinalDisk, View, Decode, Counted, Realised, ExpectNode, HostedNode, NodeHeight;
    if kids != [] {
      if HasEntry(kids[0]) {
        NodeDecodes(fs, files, all, lo, EntryIno(blks[0]), cur, kids[0], depth);
        KidsDecode(fs, files, all, lo, cur, blks[1..], kids[1..], depth);
      } else {
        KidsDecode(fs, files, all, lo, cur, blks, kids[1..], depth);
      }
    }
  }

  // ---- the root ----

  lemma CreateView(size: nat, slack: Slack)
    requires Create(size, slack).Ok?
    ensures var fs := Create(size, slack).value;
      Full(fs) && View(fs) == map[BLKN_ROOT := Obj(T_DIR, 0, 0, 0, [])] && fs.byReal == map[0 := BLKN_ROOT]
  {
    CreateOk(size, slack);
    var fs := Create(size, slack).value;
    assert BlockMap.Blocks(fs, BLKN_ROOT) == [];
    assert ReadAll(fs.disk, []) == [];
  }

  lemma RootEntries(v: map<nat, Obj>, b0: seq<byte>, b1: seq<byte>)
    requires v == map[BLKN_ROOT := Obj(T_DIR, 0, 0, 0, [])]
    ensures var v1 := WithEntry(v, BLKN_ROOT, BLKN_ROOT, b0);
      WithEntry(v1, BLKN_ROOT, BLKN_ROOT, b1) == map[BLKN_ROOT := Obj(T_DIR, 0, 2 * NAMELEN, 2, [b0, b1])]
  {
    assert [] + [b0] == [b0];
    assert [b0] + [b1] == [b0, b1];
  }

  /** The root directory with its two own entries, before the readdir loop. */
  lemma StartRoot(size: nat, slack: Slack, kids: seq<Entry>) returns (fs2: Fs, b0: seq<byte>, b1: seq<byte>)
    requires Run(size, slack, kids).Ok?
    ensures Full(fs2) && BLKN_ROOT in fs2.inodes && OpenKids(fs2, BLKN_ROOT, kids) == Run(size, slack, kids)
    ensures View(fs2) == map[BLKN_ROOT := Obj(T_DIR, 0, 2 * NAMELEN, 2, [b0, b1])] && fs2.byReal == map[0 := BLKN_ROOT]
    ensures EntryName(b0) == DOT_NAME && EntryIno(b0) == BLKN_ROOT
    ensures EntryName(b1) == DOT_DOT_NAME && EntryIno(b1) == BLKN_ROOT
  {
    hide FilesOk, LogOk, OnDisk, View, AddEntry, OpenKids, WithEntry;
    CreateView(size, slack);
    CreateOk(size, slack);
    TreeBuild.DotNames();
    var fs := Create(size, slack).value;
    AddEntryView(fs, BLKN_ROOT, BLKN_ROOT, DOT_NAME);
    EntryDecodes(BLKN_ROOT, fs.name, DOT_NAME);
    b0 := EntryBlock(BLKN_ROOT, StrCpy(fs.name, DOT_NAME));
    var fs1 := AddEntry(fs, BLKN_ROOT, BLKN_ROOT, DOT_NAME).value;
    AddEntryView(fs1, BLKN_ROOT, BLKN_ROOT, DOT_DOT_NAME);
    EntryDecodes(BLKN_ROOT, fs1.name, DOT_DOT_NAME);
    b1 := EntryBlock(BLKN_ROOT, StrCpy(fs1.name, DOT_DOT_NAME));
    fs2 := AddEntry(fs1, BLKN_ROOT, BLKN_ROOT, DOT_DOT_NAME).value;
    RootEntries(View(fs), b0, b1);
  }

  lemma RootRealised(v2: map<nat, Obj>, rho2: map<nat, nat>, v: map<nat, Obj>, rho: map<nat, nat>, files: map<nat, seq<byte>>,
                     lo: nat, kids: seq<Entry>, b0: seq<byte>, b1: seq<byte>, blks: seq<seq<byte>>)
    requires v2 == map[BLKN_ROOT := Obj(T_DIR, 0, 2 * NAMELEN, 2, [b0, b1])]
    requires TreeBuild.Fills(v2, rho2, v, rho, files, BLKN_ROOT, blks, SubDirs(kids)) && KidsRealised(v, rho, lo, BLKN_ROOT, blks, kids)
    requires EntryName(b0) == DOT_NAME && EntryIno(b0) == BLKN_ROOT
    requires EntryName(b1) == DOT_DOT_NAME && EntryIno(b1) == BLKN_ROOT
    ensures RealisedDir(v, rho, lo, BLKN_ROOT, BLKN_ROOT, kids)
  {
    hide KidsRealised, SubDirs;
    assert ([b0, b1] + blks)[2..] == blks;
  }

  lemma CountedRoot(fs2: Fs, fs: Fs, kids: seq<Entry>, files: map<nat, seq<byte>>)
    requires Full(fs2) && BLKN_ROOT in fs2.inodes && Hosted(kids, files) && OpenKids(fs2, BLKN_ROOT, kids) == Wrappers.Ok(fs)
    requires fs2.byReal == map[0 := BLKN_ROOT] && 0 !in files && TreeBuild.IsDir(View(fs2), BLKN_ROOT)
    requires TreeBuild.FilesIn(View(fs), fs.byReal, files)
    ensures Counted(View(fs), fs.byReal, files, kids)
  {
    hide FilesOk, LogOk, OnDisk, View, OpenKids, Hosted, Occ;
    forall h | h in fs.byReal && h in files
      ensures View(fs)[fs.byReal[h]].nlinks == Occ(kids, h) % 0x1_0000
    {
      OpenKidsLinks(fs2, BLKN_ROOT, kids, files, h);
    }
  }

  /** Every host tree that a build accepts is read back from the finished image, starting at the root inode in
      block 1: the names up to 252 bytes, the file contents, the link targets, the link counts, and one inode for
      all the names of one host file. files gives the contents of the host's regular files. */
  lemma ImageRoundTrip(size: nat, slack: Slack, kids: seq<Entry>, files: map<nat, seq<byte>>, depth: nat)
    requires Run(size, slack, kids).Ok? && Hosted(kids, files) && 0 !in files && depth >= 1 + Height(kids)
    ensures var fs := Run(size, slack, kids).value;
      && Decode(FinalDisk(fs), 1, 1, depth)
           == DDir((2 + SubDirs(kids)) % 0x1_0000, ExpectKids(kids, fs.byReal, kids))
      && (forall h <- fs.byReal, h' <- fs.byReal :: fs.byReal[h] == fs.byReal[h'] ==> h == h')
      && (forall h: nat :: Occ(kids, h) > 0 ==> h in fs.byReal)
  {
    hide FilesOk, LogOk, OnDisk, View, OpenKids, Hosted, Occ, KidsRealised, Decode, FinalDisk, ExpectKids, RealisedDir, Counted, Height, OpenDir, Create, SubDirs;
    var fs2, b0, b1 := StartRoot(size, slack, kids);
    var fs := Run(size, slack, kids).value;
    var blks := TreeBuild.OpenKidsTree(fs2, BLKN_ROOT, kids, files);
    RootRealised(View(fs2), fs2.byReal, View(fs), fs.byReal, files, fs2.next, kids, b0, b1, blks);
    CountedRoot(fs2, fs, kids, files);
    DirDecodes(fs, files, kids, fs2.next, BLKN_ROOT, BLKN_ROOT, kids, depth);
    forall h: nat | Occ(kids, h) > 0
      ensures h in fs.byReal
    {
      NamedFiles(View(fs), fs.byReal, fs2.next, BLKN_ROOT, blks, kids, h);
    }
  }

  /** After an accepted run every host file that has an inode is complete. */
  lemma RunFiles(size: nat, slack: Slack, kids: seq<Entry>, files: map<nat, seq<byte>>)
    requires Run(size, slack, kids).Ok? && Hosted(kids, files) && 0 !in files
    ensures TreeBuild.FilesIn(View(Run(size, slack, kids).value), Run(size, slack, kids).value.byReal, files)
  {
    hide FilesOk, LogOk, OnDisk, View, OpenKids, Hosted, KidsRealised, Run;
    var fs2, b0, b1 := StartRoot(size, slack, kids);
    var blks := TreeBuild.OpenKidsTree(fs2, BLKN_ROOT, kids, files);
  }

  lemma {:induction false} NamedFiles(v: map<nat, Obj>, rho: map<nat, nat>, lo: nat, cur: nat, blks: seq<seq<byte>>,
                                      kids: seq<Entry>, h: nat)
    requires KidsRealised(v, rho, lo, cur, blks, kids) && Occ(kids, h) > 0
    ensures h in rho
    decreases kids, 0
  {
    if !HasEntry(kids[0]) {
      NamedFiles(v, rho, lo, cur, blks, kids[1..], h);
    } else if OccNode(kids[0], h) > 0 {
      if kids[0].node.Dir? {
        var d := EntryIno(blks[0]);
        assert Realised(v, rho, lo, d, cur, kids[0].node);
        assert RealisedDir(v, rho, lo, d, cur, kids[0].node.kids);
        NamedFiles(v, rho, lo, d, v[d].content[2..], kids[0].node.kids, h);
      }
    } else {
      NamedFiles(v, rho, lo, cur, blks[1..], kids[1..], h);
    }
  }

  const SMALL_TREE: seq<Entry> := [Entry([97], Reg(7, [1, 2, 3])), Entry([98], Reg(7, [1, 2, 3])), Entry([99], Dir(8, []))]

  lemma SmallParts()
    ensures Fits(SMALL_TREE, {0}) && Visible(SMALL_TREE) == 3 && Demand(SMALL_TREE) == 10
  {
    hide BlockMap.FileBlocks;
    var k2, k3 := SMALL_TREE[1..], SMALL_TREE[2..];
    assert k2[1..] == k3 && k3[1..] == [];
    FewBlocks();
    assert Visible(k3) == 1 && Visible(k2) == 2;
    assert SeenNode(SMALL_TREE[0], {0}) == {0, 7} && SeenNode(k2[0], {0, 7}) == {0, 7};
    assert Visible([]) == 0 && Need([], {0, 7, 8}) == 0;
    assert NeedNode(k3[0], {0, 7}) == 3 && NeedNode(k2[0], {0, 7}) == 0 && NeedNode(SMALL_TREE[0], {0}) == 2;
    assert Fits(k3, {0, 7}) && Need(k3, {0, 7}) == 3;
    assert Fits(k2, {0, 7}) && Need(k2, {0, 7}) == 3;
  }

  /** A tree that meets all conditions: a file with two names and a directory fit an image of 32 blocks and need
      ten. */
  lemma SmallImage(slack: Slack)
    ensures Run(32 * BLKSIZE, slack, SMALL_TREE).Ok? && Demand(SMALL_TREE) == 10
    ensures Hosted(SMALL_TREE, map[7 := [1, 2, 3]]) && Height(SMALL_TREE) == 2
  {
    hide Run, FilesOk, LogOk, OnDisk, View, Fits, Visible, Demand;
    var k2, k3 := SMALL_TREE[1..], SMALL_TREE[2..];
    assert k2[1..] == k3 && k3[1..] == [];
    SmallParts();
    assert Height(k3) == 2 && Height(k2) == 2;
    assert Hosted(k3, map[7 := [1, 2, 3]]) && Hosted(k2, map[7 := [1, 2, 3]]);
    BuildSucceedsIff(32 * BLKSIZE, slack, SMALL_TREE, 32, 1);
  }

  lemma FewBlocks()
    ensures forall n: nat :: n <= 12 ==> BlockMap.FileBlocks(n) == n
    ensures NChunks(1) == NChunks(3) == 1
  {}

  // ---- when nothing is lost ----

  /** The tree with its host numbers replaced: by rho for regular files, by 0 for links and directories. */
  function Renumber(node: Node, rho: map<nat, nat>): Node
    decreases node
  {
    match node
    case Reg(h, data) => Reg(if h in rho then rho[h] else 0, data)
    case Lnk(_, target) => Lnk(0, target)
    case Dir(_, kids) => Dir(0, RenumberKids(kids, rho))
    case Special => Special
  }

  function RenumberKids(kids: seq<Entry>, rho: map<nat, nat>): (r: seq<Entry>)
    ensures |r| == |kids|
    decreases kids, 0
  {
    if kids == [] then [] else [Entry(kids[0].name, Renumber(kids[0].node, rho))] + RenumberKids(kids[1..], rho)
  }

  /** A decoded tree as a host tree. */
  function ToNode(n: DNode): Node
    decreases n
  {
    match n
    case DReg(ino, _, data) => Reg(ino, data)
    case DLnk(_, target) => Lnk(0, target)
    case DDir(_, kids) => Dir(0, ToKids(kids))
    case Bad => Special
  }

  function ToKids(kids: seq<DEntry>): (r: seq<Entry>)
    ensures |r| == |kids|
    decreases kids, 0
  {
    if kids == [] then [] else [Entry(kids[0].name, ToNode(kids[0].node))] + ToKids(kids[1..])
  }

  /** No hidden name, no name over 252 bytes, no special file, at any depth. */
  predicate Clean(kids: seq<Entry>)
    decreases kids, 0
  {
    kids == [] || (CleanEntry(kids[0]) && Clean(kids[1..]))
  }

  predicate CleanEntry(e: Entry)
    decreases e, 0
  {
    && (e.name == [] || e.name[0] != 46) && |e.name| <= 252 && !e.node.Special?
    && (e.node.Dir? ==> Clean(e.node.kids))
  }

  lemma {:induction false} ExpectLength(kids: seq<Entry>, rho: map<nat, nat>, all: seq<Entry>)
    ensures |ExpectKids(kids, rho, all)| <= |kids|
  {
    if kids != [] {
      ExpectLength(kids[1..], rho, all);
    }
  }

  /** The decoded tree is the host tree, inode numbers aside, if and only if no entry is hidden or special and no
      name is longer than 252 bytes. */
  lemma {:induction false} IntactIff(kids: seq<Entry>, rho: map<nat, nat>, all: seq<Entry>)
    ensures ToKids(ExpectKids(kids, rho, all)) == RenumberKids(kids, rho) <==> Clean(kids)
    decreases kids, 0
  {
    if kids != [] {
      var e, rest := kids[0], kids[1..];
      var x := ExpectKids(kids, rho, all);
      if HasEntry(e) {
        IntactIff(rest, rho, all);
        assert x[1..] == ExpectKids(rest, rho, all);
        ConsEqual(ToKids(x), Entry(Kept(e.name), ToNode(ExpectNode(e.node, rho, all))), ToKids(x[1..]),
                  RenumberKids(kids, rho), Entry(e.name, Renumber(e.node, rho)), RenumberKids(rest, rho));
        IntactNode(e, rho, all);
      } else {
        ExpectLength(rest, rho, all);
      }
    }
  }

  /** After every accepted run the tree decoded from the image is the host tree, its inode numbers aside, if and only
      if no entry is hidden or special and no name is longer than 252 bytes. */
  lemma ImageIntactIff(size: nat, slack: Slack, kids: seq<Entry>, files: map<nat, seq<byte>>, depth: nat)
    requires Run(size, slack, kids).Ok? && Hosted(kids, files) && 0 !in files && depth >= 1 + Height(kids)
    ensures var fs := Run(size, slack, kids).value;
      ToNode(Decode(FinalDisk(fs), 1, 1, depth)) == Dir(0, RenumberKids(kids, fs.byReal)) <==> Clean(kids)
  {
    hide FilesOk, LogOk, OnDisk, View, Run, Decode, FinalDisk, ExpectKids, RenumberKids, Clean, Hosted, Height;
    ImageRoundTrip(size, slack, kids, files, depth);
    IntactIff(kids, Run(size, slack, kids).value.byReal, kids);
  }

  /** A file with a name of 253 bytes. */
  const LONG_NAME: seq<Entry> := [Entry(seq(253, _ => 97), Reg(7, [1]))]

  lemma LongNameParts()
    ensures Fits(LONG_NAME, {0}) && Visible(LONG_NAME) == 1 && Demand(LONG_NAME) == 5
    ensures Hosted(LONG_NAME, map[7 := [1]]) && Height(LONG_NAME) == 1 && !Clean(LONG_NAME)
  {
    hide BlockMap.FileBlocks;
    FewBlocks();
    assert LONG_NAME[1..] == [];
    assert SeenNode(LONG_NAME[0], {0}) == {0, 7} && Need([], {0, 7}) == 0 && Visible([]) == 0;
    assert NeedNode(LONG_NAME[0], {0}) == 2 && Need(LONG_NAME, {0}) == 2;
    assert !CleanEntry(LONG_NAME[0]);
  }

  /** A build accepts a name of 253 bytes, and the image does not give it back. */
  lemma LongNameIsCut(slack: Slack)
    ensures Run(32 * BLKSIZE, slack, LONG_NAME).Ok?
    ensures var fs := Run(32 * BLKSIZE, slack, LONG_NAME).value;
      ToNode(Decode(FinalDisk(fs), 1, 1, 2)) != Dir(0, RenumberKids(LONG_NAME, fs.byReal))
  {
    hide FilesOk, LogOk, OnDisk, View, Run, Decode, FinalDisk, RenumberKids, Clean, Fits, Demand, Visible, Hosted, Height, LONG_NAME;
    LongNameParts();
    BuildSucceedsIff(32 * BLKSIZE, slack, LONG_NAME, 32, 1);
    ImageIntactIff(32 * BLKSIZE, slack, LONG_NAME, map[7 := [1]], 2);
  }

  lemma ConsEqual(s: seq<Entry>, a: Entry, s': seq<Entry>, t: seq<Entry>, b: Entry, t': seq<Entry>)
    requires s == [a] + s' && t == [b] + t'
    ensures s == t <==> a == b && s' == t'
  {
    assert s[0] == a && t[0] == b && s[1..] == s' && t[1..] == t';
  }

  lemma {:induction false} IntactNode(e: Entry, rho: map<nat, nat>, all: seq<Entry>)
    requires HasEntry(e)
    ensures Entry(Kept(e.name), ToNode(ExpectNode(e.node, rho, all))) == Entry(e.name, Renumber(e.node, rho))
            <==> CleanEntry(e)
    decreases e, 0
  {
    if e.node.Dir? {
      IntactIff(e.node.kids, rho, all);
    }
  }
}
