/** A build realises its tree in the store. */
module TreeBuild {
  import opened Bytes
  import Wrappers
  import opened Image
  import BlockMap
  import opened Store
  import opened Build
  import Space
  import opened Tree

  /** Every regular file that already has an inode is complete. */
  ghost predicate FilesIn(v: map<nat, Obj>, rho: map<nat, nat>, files: map<nat, seq<byte>>) {
    forall h <- rho | h in files :: rho[h] in v && IsFile(v[rho[h]], files[h])
  }

  /** Directory o with the entry blocks blks more and d more references. */
  function Filled(o: Obj, blks: seq<seq<byte>>, d: nat): Obj {
    o.(size := o.size + NAMELEN * |blks|, content := o.content + blks, nlinks := (o.nlinks + d) % 0x1_0000)
  }

  /** From v to v' directory cur was filled, and nothing else that was there changed. */
  ghost predicate Fills(v: map<nat, Obj>, rho: map<nat, nat>, v': map<nat, Obj>, rho': map<nat, nat>,
                        files: map<nat, seq<byte>>, cur: nat, blks: seq<seq<byte>>, d: nat) {
    && Frozen(v, v', {cur}) && RhoGrows(rho, rho', files) && FilesIn(v', rho', files)
    && v'[cur] == Filled(v[cur], blks, d)
  }

  predicate IsDir(v: map<nat, Obj>, cur: nat) {
    cur in v && v[cur].kind == T_DIR && v[cur].nlinks < 0x1_0000
  }

  lemma FillsNone(v: map<nat, Obj>, rho: map<nat, nat>, files: map<nat, seq<byte>>, cur: nat)
    requires IsDir(v, cur) && FilesIn(v, rho, files)
    ensures Fills(v, rho, v, rho, files, cur, [], 0)
  {
    assert v[cur].content + [] == v[cur].content;
  }

  lemma FillsKeeps(v: map<nat, Obj>, rho: map<nat, nat>, v': map<nat, Obj>, rho': map<nat, nat>,
                   files: map<nat, seq<byte>>, cur: nat, blks: seq<seq<byte>>, d: nat)
    requires IsDir(v, cur) && Fills(v, rho, v', rho', files, cur, blks, d)
    ensures IsDir(v', cur) && FilesIn(v', rho', files) && Frozen(v, v', {cur}) && RhoGrows(rho, rho', files)
  {}

  lemma FrozenSame(v: map<nat, Obj>, rho: map<nat, nat>, files: map<nat, seq<byte>>)
    ensures Frozen(v, v, {}) && RhoGrows(rho, rho, files)
  {}

  lemma FillsThen(v0: map<nat, Obj>, rho0: map<nat, nat>, v1: map<nat, Obj>, rho1: map<nat, nat>,
                  v2: map<nat, Obj>, rho2: map<nat, nat>, files: map<nat, seq<byte>>, cur: nat,
                  b1: seq<seq<byte>>, d1: nat, b2: seq<seq<byte>>, d2: nat)
    requires IsDir(v0, cur)
    requires Fills(v0, rho0, v1, rho1, files, cur, b1, d1) && Fills(v1, rho1, v2, rho2, files, cur, b2, d2)
    ensures Fills(v0, rho0, v2, rho2, files, cur, b1 + b2, d1 + d2)
  {
    assert v0[cur].content + b1 + b2 == v0[cur].content + (b1 + b2);
  }

  /** A new regular file and its entry. */
  lemma NewFile(v: map<nat, Obj>, rho: map<nat, nat>, files: map<nat, seq<byte>>, cur: nat, f: nat, h: nat, blk: seq<byte>)
    requires IsDir(v, cur) && FilesIn(v, rho, files) && f !in v && h !in rho && h in files
    ensures var v' := WithEntry(v[f := WithData(Obj(T_FILE, h, 0, 0, []), files[h])], cur, f, blk);
      Fills(v, rho, v', rho[h := f], files, cur, [blk], 0) && f in v' && IsFile(v'[f], files[h])
  {
    assert [] + Chunks(files[h]) == Chunks(files[h]);
  }

  /** A further name of a file that is there. */
  lemma OldFile(v: map<nat, Obj>, rho: map<nat, nat>, files: map<nat, seq<byte>>, cur: nat, h: nat, blk: seq<byte>)
    requires IsDir(v, cur) && FilesIn(v, rho, files) && h in rho && h in files
    ensures rho[h] in v
    ensures var v' := WithEntry(v, cur, rho[h], blk);
      Fills(v, rho, v', rho, files, cur, [blk], 0) && rho[h] in v' && IsFile(v'[rho[h]], files[h])
  {}

  lemma NewLink(v: map<nat, Obj>, rho: map<nat, nat>, files: map<nat, seq<byte>>, cur: nat, f: nat, h: nat,
                target: seq<byte>, blk: seq<byte>)
    requires IsDir(v, cur) && FilesIn(v, rho, files) && f !in v && h !in files && |target| < BLKSIZE
    ensures var v' := WithEntry(v[f := Extended(Obj(T_LINK, h, 0, 0, []), target, |target|)], cur, f, blk);
      && Fills(v, rho, v', rho[h := f], files, cur, [blk], 0)
      && f in v' && v'[f] == Obj(T_LINK, h, |target|, 1, [Padded(target)])
  {}

  /** A new directory d of host number h with its "." and ".." entries. */
  function FreshDir(v: map<nat, Obj>, d: nat, h: nat, parent: nat, b0: seq<byte>, b1: seq<byte>): map<nat, Obj>
    requires parent in v
  {
    WithEntry(WithEntry(v[d := Obj(T_DIR, h, 0, 0, [])], d, d, b0), d, parent, b1)
  }

  lemma FreshDirIs(v: map<nat, Obj>, rho: map<nat, nat>, files: map<nat, seq<byte>>, d: nat, h: nat, parent: nat,
                   b0: seq<byte>, b1: seq<byte>)
    requires IsDir(v, parent) && FilesIn(v, rho, files) && d !in v && h !in files
    ensures var v' := FreshDir(v, d, h, parent, b0, b1);
      && v' == v[parent := Linked(v[parent])][d := Obj(T_DIR, h, 2 * NAMELEN, 1, [b0, b1])]
      && IsDir(v', d) && FilesIn(v', rho[h := d], files) && RhoGrows(rho, rho[h := d], files)
  {
    var v0 := v[d := Obj(T_DIR, h, 0, 0, [])];
    var v1 := WithEntry(v0, d, d, b0);
    assert v1[d] == Obj(T_DIR, h, NAMELEN, 1, [b0]);
    assert [b0] + [b1] == [b0, b1];
  }

  lemma NewDir(v: map<nat, Obj>, rho: map<nat, nat>, files: map<nat, seq<byte>>, d: nat, h: nat, parent: nat,
               b0: seq<byte>, b1: seq<byte>, v4: map<nat, Obj>, rho4: map<nat, nat>, blks: seq<seq<byte>>, k: nat, blk: seq<byte>)
    requires IsDir(v, parent) && FilesIn(v, rho, files) && d !in v && h !in files
    requires Fills(FreshDir(v, d, h, parent, b0, b1), rho[h := d], v4, rho4, files, d, blks, k)
    ensures parent in v4 && d in v4
    ensures var v5 := WithEntry(v4, parent, d, blk);
      && Fills(v, rho, v5, rho4, files, parent, [blk], 1)
      && Frozen(v4, v5, {parent, d})
      && d in v5 && v5[d] == Obj(T_DIR, h, NAMELEN * (2 + |blks|), (2 + k) % 0x1_0000, [b0, b1] + blks)
  {
    FreshDirIs(v, rho, files, d, h, parent, b0, b1);
  }

  lemma DirRealised(v: map<nat, Obj>, rho: map<nat, nat>, lo: nat, d: nat, parent: nat, h: nat, kids: seq<Entry>,
                    b0: seq<byte>, b1: seq<byte>, blks: seq<seq<byte>>)
    requires d in v && d >= lo && KidsRealised(v, rho, lo, d, blks, kids)
    requires v[d] == Obj(T_DIR, h, NAMELEN * (2 + |blks|), (2 + SubDirs(kids)) % 0x1_0000, [b0, b1] + blks)
    requires EntryName(b0) == DOT_NAME && EntryIno(b0) == d && EntryName(b1) == DOT_DOT_NAME && EntryIno(b1) == parent
    ensures RealisedDir(v, rho, lo, d, parent, kids) && Realised(v, rho, lo, d, parent, Dir(h, kids))
  {
    assert ([b0, b1] + blks)[2..] == blks;
  }

  // ---- the recursion ----

  lemma NextIsNew(fs: Fs)
    requires Full(fs)
    ensures fs.next !in fs.inodes && fs.next < W32
  {}

  lemma NameLength(fs: Fs)
    requires Full(fs)
    ensures |fs.name| == NAMELEN
  {}

  lemma AddFileTree(fs: Fs, cur: nat, name: seq<byte>, h: nat, data: seq<byte>, files: map<nat, seq<byte>>)
      returns (blk: seq<byte>)
    requires Full(fs) && cur in fs.inodes && |name| <= MAX_FNAME_LEN && IsCString(name)
    requires IsDir(View(fs), cur) && FilesIn(View(fs), fs.byReal, files) && h in files && files[h] == data
    requires AddFile(fs, cur, name, h, data).Ok?
    ensures var fs' := AddFile(fs, cur, name, h, data).value;
      && Fills(View(fs), fs.byReal, View(fs'), fs'.byReal, files, cur, [blk], 0)
      && EntryName(blk) == Kept(name)
      && Realised(View(fs'), fs'.byReal, fs.next, EntryIno(blk), cur, Reg(h, data))
  {
    hide FilesOk, LogOk, OnDisk, View, Put, BlockMap.FileBlocks, Chunk, Fills, FilesIn, WithEntry, AddEntry, AllocInode,
      OpenFile, StrCpy, EntryBlock, EntryName, EntryIno, IsCString, Kept, IsDir, IsFile, Shape, WithData;
    NameLength(fs);
    if h in fs.byReal {
      Space.HostShape(fs, h);
      var f := fs.byReal[h];
      AddEntryView(fs, cur, f, name);
      InoSmall(fs, f);
      EntryDecodes(f, fs.name, name);
      blk := EntryBlock(f, StrCpy(fs.name, name));
      OldFile(View(fs), fs.byReal, files, cur, h, blk);
    } else {
      NextIsNew(fs);
      ViewKeys(fs);
      AllocInodeOk(fs, h, T_FILE);
      var (fs1, f) := AllocInode(fs, h, T_FILE).value;
      OpenFileView(fs1, f, data);
      var fs2 := OpenFile(fs1, f, data).value;
      assert View(fs2) == View(fs)[f := WithData(Obj(T_FILE, h, 0, 0, []), data)];
      AddEntryView(fs2, cur, f, name);
      NameLength(fs2);
      EntryDecodes(f, fs2.name, name);
      blk := EntryBlock(f, StrCpy(fs2.name, name));
      NewFile(View(fs), fs.byReal, files, cur, f, h, blk);
    }
  }

  lemma AddLinkTree(fs: Fs, cur: nat, name: seq<byte>, h: nat, target: seq<byte>, files: map<nat, seq<byte>>)
      returns (blk: seq<byte>)
    requires Full(fs) && cur in fs.inodes && |name| <= MAX_FNAME_LEN && IsCString(name)
    requires IsDir(View(fs), cur) && FilesIn(View(fs), fs.byReal, files) && h !in files
    requires AddLink(fs, cur, name, h, target).Ok?
    ensures var fs' := AddLink(fs, cur, name, h, target).value;
      && Fills(View(fs), fs.byReal, View(fs'), fs'.byReal, files, cur, [blk], 0)
      && EntryName(blk) == Kept(name)
      && Realised(View(fs'), fs'.byReal, fs.next, EntryIno(blk), cur, Lnk(h, target))
  {
    hide FilesOk, LogOk, OnDisk, View, Put, BlockMap.FileBlocks, Fills, FilesIn, WithEntry, AddEntry, AllocInode,
      StrCpy, EntryBlock, EntryName, EntryIno, IsCString, Kept, IsDir, Shape, Grows;
    NextIsNew(fs);
    ViewKeys(fs);
    AllocInodeOk(fs, h, T_LINK);
    var (fs1, f) := AllocInode(fs, h, T_LINK).value;
    PutOk(fs1, f, target, |target|);
    var fs2 := OpenLink(fs1, f, target).value;
    assert View(fs2) == View(fs)[f := Extended(Obj(T_LINK, h, 0, 0, []), target, |target|)];
    AddEntryView(fs2, cur, f, name);
    NameLength(fs2);
    EntryDecodes(f, fs2.name, name);
    blk := EntryBlock(f, StrCpy(fs2.name, name));
    NewLink(View(fs), fs.byReal, files, cur, f, h, target, blk);
  }

  lemma DotNames()
    ensures IsCString(DOT_NAME) && IsCString(DOT_DOT_NAME) && Kept(DOT_NAME) == DOT_NAME && Kept(DOT_DOT_NAME) == DOT_DOT_NAME
  {}

  /** A directory's inode and its "." and ".." entries. */
  lemma StartDir(fs: Fs, parent: nat, h: nat) returns (fs3: Fs, d: nat, b0: seq<byte>, b1: seq<byte>)
    requires Full(fs) && parent in fs.inodes && AllocInode(fs, h, T_DIR).Ok?
    requires var (fs1, d) := AllocInode(fs, h, T_DIR).value;
      Full(fs1) && d in fs1.inodes && parent in fs1.inodes
      && var r := AddEntry(fs1, d, d, DOT_NAME); r.Ok? && AddEntry(r.value, d, parent, DOT_DOT_NAME).Ok?
    ensures d == fs.next && d !in fs.inodes && d < W32 && parent in View(fs) && d !in View(fs)
    ensures d == AllocInode(fs, h, T_DIR).value.1
    ensures fs3 == AddEntry(AddEntry(AllocInode(fs, h, T_DIR).value.0, d, d, DOT_NAME).value, d, parent, DOT_DOT_NAME).value
    ensures Full(fs3) && d in fs3.inodes && parent in fs3.inodes && d < fs3.next && parent < fs.next < fs3.next
    ensures View(fs3) == FreshDir(View(fs), d, h, parent, b0, b1) && fs3.byReal == fs.byReal[h := d]
    ensures EntryName(b0) == DOT_NAME && EntryIno(b0) == d && EntryName(b1) == DOT_DOT_NAME && EntryIno(b1) == parent
  {
    hide FilesOk, LogOk, OnDisk, View, Put, BlockMap.FileBlocks, WithEntry, AddEntry, AllocInode;
    NextIsNew(fs);
    ViewKeys(fs);
    DotNames();
    InoSmall(fs, parent);
    AllocInodeOk(fs, h, T_DIR);
    var (fs1, d') := AllocInode(fs, h, T_DIR).value;
    d := d';
    AddEntryView(fs1, d, d, DOT_NAME);
    EntryDecodes(d, fs1.name, DOT_NAME);
    b0 := EntryBlock(d, StrCpy(fs1.name, DOT_NAME));
    var fs2 := AddEntry(fs1, d, d, DOT_NAME).value;
    AddEntryView(fs2, d, parent, DOT_DOT_NAME);
    EntryDecodes(parent, fs2.name, DOT_DOT_NAME);
    b1 := EntryBlock(parent, StrCpy(fs2.name, DOT_DOT_NAME));
    fs3 := AddEntry(fs2, d, parent, DOT_DOT_NAME).value;
  }

  lemma {:induction false} AddDirTree(fs: Fs, cur: nat, name: seq<byte>, h: nat, kids: seq<Entry>, files: map<nat, seq<byte>>)
      returns (blk: seq<byte>)
    requires Full(fs) && cur in fs.inodes && |name| <= MAX_FNAME_LEN && IsCString(name)
    requires IsDir(View(fs), cur) && FilesIn(View(fs), fs.byReal, files) && h !in files && Hosted(kids, files)
    requires AddDir(fs, cur, name, h, kids).Ok?
    ensures var fs' := AddDir(fs, cur, name, h, kids).value;
      && Fills(View(fs), fs.byReal, View(fs'), fs'.byReal, files, cur, [blk], 1)
      && EntryName(blk) == Kept(name)
      && Realised(View(fs'), fs'.byReal, fs.next, EntryIno(blk), cur, Dir(h, kids))
    decreases kids, 2
  {
    hide FilesOk, LogOk, OnDisk, View, Put, BlockMap.FileBlocks, WithEntry, AddEntry, AllocInode, OpenKids, FilesIn, FreshDir,
      Hosted, KidsRealised, Frozen, SubDirs, Fills, Realised, RealisedDir, IsDir, RhoGrows, StrCpy, EntryBlock,
      EntryName, EntryIno, IsCString, Kept, Shape;
    AllocInodeOk(fs, h, T_DIR);
    var fs3, d, b0, b1 := StartDir(fs, cur, h);
    FreshDirIs(View(fs), fs.byReal, files, d, h, cur, b0, b1);
    var blks := OpenKidsTree(fs3, d, kids, files);
    var fs4 := OpenKids(fs3, d, kids).value;
    AddEntryView(fs4, cur, d, name);
    NameLength(fs4);
    EntryDecodes(d, fs4.name, name);
    blk := EntryBlock(d, StrCpy(fs4.name, name));
    NewDir(View(fs), fs.byReal, files, d, h, cur, b0, b1, View(fs4), fs4.byReal, blks, SubDirs(kids), blk);
    var fs5 := AddDir(fs, cur, name, h, kids).value;
    FrozenSame(View(fs4), fs4.byReal, files);
    KidsKept(View(fs4), View(fs5), fs4.byReal, fs5.byReal, files, {cur, d}, fs3.next, fs.next, d, blks, kids);
    DirRealised(View(fs5), fs5.byReal, fs.next, d, cur, h, kids, b0, b1, blks);
  }

  lemma {:induction false} AddNodeTree(fs: Fs, cur: nat, e: Entry, files: map<nat, seq<byte>>) returns (blks: seq<seq<byte>>)
    requires Full(fs) && cur in fs.inodes && HostedNode(e, files)
    requires IsDir(View(fs), cur) && FilesIn(View(fs), fs.byReal, files)
    requires AddNode(fs, cur, e).Ok?
    ensures var fs' := AddNode(fs, cur, e).value;
      && Fills(View(fs), fs.byReal, View(fs'), fs'.byReal, files, cur, blks, if Space.HasEntry(e) && e.node.Dir? then 1 else 0)
      && KidsRealised(View(fs'), fs'.byReal, fs.next, cur, blks, [e])
    decreases e, 3
  {
    hide FilesOk, LogOk, OnDisk, View, Fills, FilesIn, AddDir, AddLink, AddFile;
    if !Space.HasEntry(e) {
      FillsNone(View(fs), fs.byReal, files, cur);
      blks := [];
    } else {
      var blk;
      match e.node {
        case Reg(h, data) => blk := AddFileTree(fs, cur, e.name, h, data, files);
        case Lnk(h, target) => blk := AddLinkTree(fs, cur, e.name, h, target, files);
        case Dir(h, kids) => blk := AddDirTree(fs, cur, e.name, h, kids, files);
      }
      blks := [blk];
    }
  }

  /** An entry whose name starts with a dot changes nothing, whatever it names and however long the name is. */
  lemma DotIsSkipped(fs: Fs, cur: nat, e: Entry)
    requires Full(fs) && cur in fs.inodes && e.name != [] && e.name[0] == 46
    ensures AddNode(fs, cur, e) == Wrappers.Ok(fs)
  {}

  /** Any other entry with a name of more than 255 bytes aborts the build; a special file with a shorter one changes
      nothing. */
  lemma LongOrSpecial(fs: Fs, cur: nat, e: Entry)
    requires Full(fs) && cur in fs.inodes && (e.name == [] || e.name[0] != 46)
    ensures |e.name| > 255 ==> AddNode(fs, cur, e) == Wrappers.Err(Wrappers.NameTooLong)
    ensures |e.name| <= 255 && e.node.Special? ==> AddNode(fs, cur, e) == Wrappers.Ok(fs)
  {
    hide Full, AddFile, AddLink, AddDir;
  }

  /** Every other entry that is accepted adds one block to its directory, with its name. */
  lemma OthersGetEntry(fs: Fs, cur: nat, e: Entry, files: map<nat, seq<byte>>)
    requires Full(fs) && cur in fs.inodes && HostedNode(e, files)
    requires IsDir(View(fs), cur) && FilesIn(View(fs), fs.byReal, files)
    requires AddNode(fs, cur, e).Ok? && (e.name == [] || e.name[0] != 46) && !e.node.Special?
    ensures var v, v' := View(fs), View(AddNode(fs, cur, e).value);
      && cur in v' && |v'[cur].content| == |v[cur].content| + 1 && v[cur].content == v'[cur].content[..|v[cur].content|]
      && EntryName(v'[cur].content[|v[cur].content|]) == if |e.name| <= 252 then e.name else e.name[..252]
  {
    hide FilesOk, LogOk, OnDisk, View, FilesIn, AddNode, HostedNode, Realised;
    var blks := AddNodeTree(fs, cur, e, files);
  }

  lemma {:induction false} OpenKidsTree(fs: Fs, cur: nat, kids: seq<Entry>, files: map<nat, seq<byte>>)
      returns (blks: seq<seq<byte>>)
    requires Full(fs) && cur in fs.inodes && Hosted(kids, files)
    requires IsDir(View(fs), cur) && FilesIn(View(fs), fs.byReal, files)
    requires OpenKids(fs, cur, kids).Ok?
    ensures var fs' := OpenKids(fs, cur, kids).value;
      && Fills(View(fs), fs.byReal, View(fs'), fs'.byReal, files, cur, blks, SubDirs(kids))
      && KidsRealised(View(fs'), fs'.byReal, fs.next, cur, blks, kids)
    decreases kids, 0
  {
    hide FilesOk, LogOk, OnDisk, View, FilesIn, Fills, Frozen, RhoGrows, IsDir, AddNode, HostedNode, Realised, KidsRealised, Shape;
    if kids == [] {
      FillsNone(View(fs), fs.byReal, files, cur);
      KidsNone(View(fs), fs.byReal, fs.next, cur);
      blks := [];
    } else {
      var b1 := AddNodeTree(fs, cur, kids[0], files);
      var fs1 := AddNode(fs, cur, kids[0]).value;
      var d1 := if Space.HasEntry(kids[0]) && kids[0].node.Dir? then 1 else 0;
      FillsKeeps(View(fs), fs.byReal, View(fs1), fs1.byReal, files, cur, b1, d1);
      var b2 := OpenKidsTree(fs1, cur, kids[1..], files);
      var fs2 := OpenKids(fs1, cur, kids[1..]).value;
      blks := b1 + b2;
      FillsKeeps(View(fs1), fs1.byReal, View(fs2), fs2.byReal, files, cur, b2, SubDirs(kids[1..]));
      FrozenSame(View(fs2), fs2.byReal, files);
      FillsThen(View(fs), fs.byReal, View(fs1), fs1.byReal, View(fs2), fs2.byReal, files, cur,
                b1, d1, b2, SubDirs(kids[1..]));
      InoSmall(fs, cur);
      KidsKept(View(fs1), View(fs2), fs1.byReal, fs2.byReal, files, {cur}, fs.next, fs.next, cur, b1, [kids[0]]);
      KidsKept(View(fs2), View(fs2), fs2.byReal, fs2.byReal, files, {}, fs1.next, fs.next, cur, b2, kids[1..]);
      KidsJoin(View(fs2), fs2.byReal, fs.next, cur, b1, kids[0], b2, kids[1..]);
      assert [kids[0]] + kids[1..] == kids;
    }
  }

  lemma KidsNone(v: map<nat, Obj>, rho: map<nat, nat>, lo: nat, cur: nat)
    ensures KidsRealised(v, rho, lo, cur, [], [])
  {}

  lemma KidsJoin(v: map<nat, Obj>, rho: map<nat, nat>, lo: nat, cur: nat, b1: seq<seq<byte>>, e: Entry,
                 b2: seq<seq<byte>>, kids: seq<Entry>)
    requires KidsRealised(v, rho, lo, cur, b1, [e]) && KidsRealised(v, rho, lo, cur, b2, kids)
    ensures KidsRealised(v, rho, lo, cur, b1 + b2, [e] + kids)
  {
    assert ([e] + kids)[1..] == kids;
    if Space.HasEntry(e) {
      assert b1[1..] == [];
      assert (b1 + b2)[1..] == b2;
    } else {
      assert b1 + b2 == b2;
    }
  }
}
