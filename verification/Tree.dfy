/** What the store holds for each host directory entry after a build. */
module Tree {
  import opened Bytes
  import opened Image
  import BlockMap
  import opened Store
  import opened Build
  import Space

  // ---- directory entries ----

  function EntryIno(blk: seq<byte>): nat {
    if |blk| == 4096 then ReadWord(blk, 0) else 0
  }

  function EntryName(blk: seq<byte>): seq<byte> {
    if |blk| == 4096 then CString(blk[4..260]) else []
  }

  const KEPT: nat := 252

  /** The part of a name that reaches the disk: 256 bytes hold the number and 252 bytes of name. */
  function Kept(name: seq<byte>): seq<byte> {
    if |name| <= KEPT then name else name[..KEPT]
  }

  predicate IsCString(name: seq<byte>) {
    forall k :: 0 <= k < |name| ==> name[k] != 0
  }

  function EntryBlock(file: nat, buf: seq<byte>): seq<byte>
    requires |buf| == NAMELEN
  {
    Padded(EntryBytes(file, buf))
  }

  lemma EntryNumber(file: nat, nm: seq<byte>)
    requires file < W32 && |nm| == NAMELEN
    ensures EntryIno(EntryBlock(file, nm)) == file
  {
    var blk := EntryBlock(file, nm);
    ReadFlat([file], nm, 0);
    assert forall j :: 0 <= j < 4 ==> blk[j] == (Flat([file]) + nm)[j];
    assert ReadWord(blk, 0) == ReadWord(Flat([file]) + nm, 0);
  }

  /** An entry block gives back the number, and the name up to its 252nd byte. */
  lemma EntryDecodes(file: nat, buf: seq<byte>, name: seq<byte>)
    requires file < W32 && |buf| == NAMELEN && |name| <= MAX_FNAME_LEN && IsCString(name)
    ensures EntryIno(EntryBlock(file, StrCpy(buf, name))) == file
    ensures EntryName(EntryBlock(file, StrCpy(buf, name))) == Kept(name)
  {
    var nm := StrCpy(buf, name);
    var blk := EntryBlock(file, nm);
    EntryNumber(file, nm);
    var area := blk[4..4 + NAMELEN];
    assert forall j :: 4 <= j < NAMELEN ==> blk[j] == (Flat([file]) + nm)[j];
    assert forall j :: 0 <= j < KEPT ==> area[j] == nm[j];
    assert area[KEPT] == 0;
    assert Kept(name) == area[..|Kept(name)|];
    CStringIs(area, Kept(name));
  }

  // ---- views ----

  /** The view after an entry in directory cur for object file. */
  function WithEntry(v: map<nat, Obj>, cur: nat, file: nat, blk: seq<byte>): map<nat, Obj>
    requires cur in v && file in v
  {
    var o := v[cur];
    var v1 := v[cur := o.(size := o.size + NAMELEN, content := o.content + [blk])];
    v1[file := Linked(v1[file])]
  }

  lemma AddEntryView(fs: Fs, cur: nat, file: nat, name: seq<byte>)
    requires Full(fs) && cur in fs.inodes && file in fs.inodes && |name| <= MAX_FNAME_LEN
    requires AddEntry(fs, cur, file, name).Ok?
    ensures cur in View(fs) && file in View(fs)
    ensures var fs' := AddEntry(fs, cur, file, name).value;
      && View(fs') == WithEntry(View(fs), cur, file, EntryBlock(file, StrCpy(fs.name, name)))
      && fs'.byReal == fs.byReal && fs'.next >= fs.next && fs'.inodes.Keys == fs.inodes.Keys
      && fs'.name == StrCpy(fs.name, name)
  {
    hide FilesOk, OnDisk, LogOk, Put, View, BlockMap.FileBlocks;
    ViewKeys(fs);
    var fs0 := fs.(name := StrCpy(fs.name, name));
    NameOk(fs, fs0.name);
    PutOk(fs0, cur, EntryBytes(file, fs0.name), NAMELEN);
    var fs1 := Put(fs0, cur, EntryBytes(file, fs0.name), NAMELEN).value;
    LinkOk(fs1, file);
  }

  lemma ViewKeys(fs: Fs)
    requires FilesOk(fs)
    ensures View(fs).Keys == fs.inodes.Keys
  {}

  lemma InoSmall(fs: Fs, f: nat)
    requires Full(fs) && f in fs.inodes
    ensures f < W32 && f < fs.next && FirstFree(fs.ninos) <= fs.next
  {}

  function Chunks(data: seq<byte>): seq<seq<byte>>
    decreases |data|
  {
    if data == [] then [] else [Padded(Chunk(data))] + Chunks(data[|Chunk(data)|..])
  }

  function WithData(o: Obj, data: seq<byte>): Obj {
    o.(size := o.size + |data|, content := o.content + Chunks(data))
  }

  lemma {:induction false} OpenFileView(fs: Fs, f: nat, data: seq<byte>)
    requires Full(fs) && f in fs.inodes && OpenFile(fs, f, data).Ok?
    ensures f in View(fs)
    ensures var fs' := OpenFile(fs, f, data).value;
      && View(fs') == View(fs)[f := WithData(View(fs)[f], data)]
      && fs'.byReal == fs.byReal && fs'.next >= fs.next && fs'.inodes.Keys == fs.inodes.Keys && fs'.name == fs.name
    decreases |data|
  {
    hide FilesOk, LogOk, OnDisk, Shape, View, Put, BlockMap.FileBlocks, Chunk, Grows, WithData, Extended;
    ViewKeys(fs);
    DataGrows(View(fs)[f], data);
    if data != [] {
      var c := Chunk(data);
      PutOk(fs, f, c, |c|);
      OpenFileView(Put(fs, f, c, |c|).value, f, data[|c|..]);
    }
  }

  /** The first chunk and then the rest. */
  lemma DataGrows(o: Obj, data: seq<byte>)
    ensures data == [] ==> WithData(o, data) == o
    ensures data != [] ==>
      var c := Chunk(data); WithData(Extended(o, c, |c|), data[|c|..]) == WithData(o, data)
  {
    if data == [] {
      assert o.content + [] == o.content;
    } else {
      var c := Chunk(data);
      assert o.content + [Padded(c)] + Chunks(data[|c|..]) == o.content + Chunks(data);
    }
  }

  // ---- what the store holds for a host node ----

  function SubDirs(kids: seq<Entry>): nat {
    if kids == [] then 0
    else (if Space.HasEntry(kids[0]) && kids[0].node.Dir? then 1 else 0) + SubDirs(kids[1..])
  }

  predicate IsFile(o: Obj, data: seq<byte>) {
    o.kind == T_FILE && o.size == |data| && o.content == Chunks(data)
  }

  /** Object ino is the image of node, in a directory whose number is parent: every directory below has a number of
      at least lo, and a regular file is the one object rho gives for its host number. */
  predicate Realised(v: map<nat, Obj>, rho: map<nat, nat>, lo: nat, ino: nat, parent: nat, node: Node)
    decreases node
  {
    ino in v &&
    match node
    case Reg(h, data) => h in rho && rho[h] == ino && IsFile(v[ino], data)
    case Lnk(h, target) =>
      && v[ino].kind == T_LINK && v[ino].size == |target| && v[ino].nlinks == 1
      && |target| < BLKSIZE && v[ino].content == [Padded(target)]
    case Dir(h, kids) => ino >= lo && RealisedDir(v, rho, lo, ino, parent, kids)
    case Special => false
  }

  predicate RealisedDir(v: map<nat, Obj>, rho: map<nat, nat>, lo: nat, ino: nat, parent: nat, kids: seq<Entry>)
    requires ino in v
    decreases kids, 1
  {
    var c := v[ino].content;
    && v[ino].kind == T_DIR && v[ino].size == NAMELEN * |c| && v[ino].nlinks == (2 + SubDirs(kids)) % 0x1_0000
    && |c| >= 2
    && EntryName(c[0]) == DOT_NAME && EntryIno(c[0]) == ino
    && EntryName(c[1]) == DOT_DOT_NAME && EntryIno(c[1]) == parent
    && KidsRealised(v, rho, lo, ino, c[2..], kids)
  }

  predicate KidsRealised(v: map<nat, Obj>, rho: map<nat, nat>, lo: nat, cur: nat, blks: seq<seq<byte>>, kids: seq<Entry>)
    decreases kids, 0
  {
    if kids == [] then blks == []
    else if !Space.HasEntry(kids[0]) then KidsRealised(v, rho, lo, cur, blks, kids[1..])
    else
      && blks != []
      && EntryName(blks[0]) == Kept(kids[0].name)
      && Realised(v, rho, lo, EntryIno(blks[0]), cur, kids[0].node)
      && KidsRealised(v, rho, lo, cur, blks[1..], kids[1..])
  }

  // ---- nothing already built changes ----

  /** From v to v' only the directories in s, all numbered below lo, and link counts of regular files may change. */
  ghost predicate Frozen(v: map<nat, Obj>, v': map<nat, Obj>, s: set<nat>) {
    && (forall g <- v :: g in v' && (g in s || v'[g] == v[g] || (v[g].kind == T_FILE && v'[g] == v[g].(nlinks := v'[g].nlinks))))
    && (forall g <- s :: g in v && g in v' && v[g].kind == T_DIR)
  }

  ghost predicate RhoGrows(rho: map<nat, nat>, rho': map<nat, nat>, files: map<nat, seq<byte>>) {
    forall h <- rho | h in files :: h in rho' && rho'[h] == rho[h]
  }

  /** The regular files of a tree have the contents that files gives for their host numbers; no link or directory
      shares a number with a regular file; names are C strings. */
  predicate HostedNode(e: Entry, files: map<nat, seq<byte>>)
    decreases e, 0
  {
    IsCString(e.name) &&
    match e.node
    case Reg(h, data) => h in files && files[h] == data
    case Lnk(h, _) => h !in files
    case Dir(h, kids) => h !in files && Hosted(kids, files)
    case Special => true
  }

  predicate Hosted(kids: seq<Entry>, files: map<nat, seq<byte>>)
    decreases kids, 0
  {
    kids == [] || (HostedNode(kids[0], files) && Hosted(kids[1..], files))
  }

  lemma {:induction false} RealisedKept(v: map<nat, Obj>, v': map<nat, Obj>, rho: map<nat, nat>, rho': map<nat, nat>,
      files: map<nat, seq<byte>>, s: set<nat>, lo: nat, lo': nat, ino: nat, parent: nat, e: Entry)
    requires Frozen(v, v', s) && (forall g <- s :: g < lo) && lo' <= lo && RhoGrows(rho, rho', files)
    requires HostedNode(e, files) && Realised(v, rho, lo, ino, parent, e.node)
    ensures Realised(v', rho', lo', ino, parent, e.node)
    decreases e, 1
  {
    if e.node.Dir? {
      KidsKept(v, v', rho, rho', files, s, lo, lo', ino, v[ino].content[2..], e.node.kids);
    }
  }

  lemma {:induction false} KidsKept(v: map<nat, Obj>, v': map<nat, Obj>, rho: map<nat, nat>, rho': map<nat, nat>,
      files: map<nat, seq<byte>>, s: set<nat>, lo: nat, lo': nat, cur: nat, blks: seq<seq<byte>>, kids: seq<Entry>)
    requires Frozen(v, v', s) && (forall g <- s :: g < lo) && lo' <= lo && RhoGrows(rho, rho', files)
    requires Hosted(kids, files) && KidsRealised(v, rho, lo, cur, blks, kids)
    ensures KidsRealised(v', rho', lo', cur, blks, kids)
    decreases kids, 0
  {
    if kids != [] {
      if Space.HasEntry(kids[0]) {
        RealisedKept(v, v', rho, rho', files, s, lo, lo', EntryIno(blks[0]), cur, kids[0]);
        KidsKept(v, v', rho, rho', files, s, lo, lo', cur, blks[1..], kids[1..]);
      } else {
        KidsKept(v, v', rho, rho', files, s, lo, lo', cur, blks, kids[1..]);
      }
    }
  }
}
