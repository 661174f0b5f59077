/** Building the image of a directory tree. */
module Build {
  import opened Bytes
  import opened Wrappers
  import opened Image
  import opened Store

  const DOT_NAME: seq<byte> := [DOT]
  const DOT_DOT_NAME: seq<byte> := [DOT, DOT]

  /** fs' is a full state that still has every inode of fs. */
  ghost predicate Later(fs: Fs, fs': Fs) {
    Full(fs') && fs.inodes.Keys <= fs'.inodes.Keys && fs.next <= fs'.next
  }

  lemma NameOk(fs: Fs, nm: seq<byte>)
    requires Full(fs) && |nm| == NAMELEN
    ensures Full(fs.(name := nm)) && View(fs.(name := nm)) == View(fs)
  {
    hide FilesOk, OnDisk, View;
    SameStore(fs, fs.(name := nm));
  }

  function AddEntry(fs: Fs, cur: nat, file: nat, name: seq<byte>): (r: Result<Fs>)
    requires Full(fs) && cur in fs.inodes && file in fs.inodes && |name| <= MAX_FNAME_LEN
    ensures r.Ok? ==> Later(fs, r.value)
  {
    hide FilesOk, OnDisk, View, LogOk;
    var fs0 := fs.(name := StrCpy(fs.name, name));
    NameOk(fs, fs0.name);
    PutOk(fs0, cur, EntryBytes(file, fs0.name), NAMELEN);
    var fs1 :- Put(fs0, cur, EntryBytes(file, fs0.name), NAMELEN);
    LinkOk(fs1, file);
    Ok(Link(fs1, file))
  }

  /** The bytes of one read of at most a block. */
  function Chunk(data: seq<byte>): (r: seq<byte>)
    ensures |r| <= BLKSIZE && |r| <= |data| && r == data[..|r|] && (data != [] ==> r != [])
  {
    if |data| <= BLKSIZE then data else data[..BLKSIZE]
  }

  function OpenFile(fs: Fs, f: nat, data: seq<byte>): (r: Result<Fs>)
    requires Full(fs) && f in fs.inodes
    ensures r.Ok? ==> Later(fs, r.value)
    decreases |data|
  {
    hide FilesOk, OnDisk, View, LogOk;
    if data == [] then Ok(fs)
    else
      var c := Chunk(data);
      PutOk(fs, f, c, |c|);
      var fs1 :- Put(fs, f, c, |c|);
      OpenFile(fs1, f, data[|c|..])
  }

  /** A link target of a whole block or more is an error, found after its block has been allocated. */
  function OpenLink(fs: Fs, f: nat, target: seq<byte>): (r: Result<Fs>)
    requires Full(fs) && f in fs.inodes
    ensures r.Ok? ==> Later(fs, r.value)
  {
    hide FilesOk, OnDisk, View, LogOk;
    if fs.next >= fs.ninos then Err(NoSpace)
    else if |target| >= BLKSIZE then Err(LinkTooLong)
    else
      PutOk(fs, f, target, |target|);
      Put(fs, f, target, |target|)
  }

  function AddFile(fs: Fs, cur: nat, name: seq<byte>, host: nat, data: seq<byte>): (r: Result<Fs>)
    requires Full(fs) && cur in fs.inodes && |name| <= MAX_FNAME_LEN
    ensures r.Ok? ==> Later(fs, r.value)
  {
    hide FilesOk, OnDisk, View, LogOk;
    if host in fs.byReal then AddEntry(fs, cur, fs.byReal[host], name)
    else
      AllocInodeOk(fs, host, T_FILE);
      var (fs1, f) :- AllocInode(fs, host, T_FILE);
      var fs2 :- OpenFile(fs1, f, data);
      AddEntry(fs2, cur, f, name)
  }

  function AddLink(fs: Fs, cur: nat, name: seq<byte>, host: nat, target: seq<byte>): (r: Result<Fs>)
    requires Full(fs) && cur in fs.inodes && |name| <= MAX_FNAME_LEN
    ensures r.Ok? ==> Later(fs, r.value)
  {
    hide FilesOk, OnDisk, View, LogOk;
    AllocInodeOk(fs, host, T_LINK);
    var (fs1, f) :- AllocInode(fs, host, T_LINK);
    var fs2 :- OpenLink(fs1, f, target);
    AddEntry(fs2, cur, f, name)
  }

  function AddDir(fs: Fs, parent: nat, name: seq<byte>, host: nat, kids: seq<Entry>): (r: Result<Fs>)
    requires Full(fs) && parent in fs.inodes && |name| <= MAX_FNAME_LEN
    ensures r.Ok? ==> Later(fs, r.value)
    decreases kids, 2
  {
    hide FilesOk, OnDisk, View, LogOk;
    if host in fs.byReal then Err(DuplicateDir)
    else
      AllocInodeOk(fs, host, T_DIR);
      var (fs1, d) :- AllocInode(fs, host, T_DIR);
      var fs2 :- OpenDir(fs1, d, parent, kids);
      AddEntry(fs2, parent, d, name)
  }

  function OpenDir(fs: Fs, cur: nat, parent: nat, kids: seq<Entry>): (r: Result<Fs>)
    requires Full(fs) && cur in fs.inodes && parent in fs.inodes
    ensures r.Ok? ==> Later(fs, r.value)
    decreases kids, 1
  {
    hide FilesOk, OnDisk, View, LogOk;
    var fs1 :- AddEntry(fs, cur, cur, DOT_NAME);
    var fs2 :- AddEntry(fs1, cur, parent, DOT_DOT_NAME);
    OpenKids(fs2, cur, kids)
  }

  predicate Hidden(e: Entry) {
    e.name != [] && e.name[0] == DOT
  }

  /** One round of the readdir loop. */
  function AddNode(fs: Fs, cur: nat, e: Entry): (r: Result<Fs>)
    requires Full(fs) && cur in fs.inodes
    ensures r.Ok? ==> Later(fs, r.value)
    decreases e, 3
  {
    hide FilesOk, OnDisk, View, LogOk;
    if Hidden(e) then Ok(fs)
    else if |e.name| > MAX_FNAME_LEN then Err(NameTooLong)
    else match e.node
      case Lnk(host, target) => AddLink(fs, cur, e.name, host, target)
      case Dir(host, kids) => AddDir(fs, cur, e.name, host, kids)
      case Reg(host, data) => AddFile(fs, cur, e.name, host, data)
      case Special => Ok(fs)
  }

  function OpenKids(fs: Fs, cur: nat, kids: seq<Entry>): (r: Result<Fs>)
    requires Full(fs) && cur in fs.inodes
    ensures r.Ok? ==> Later(fs, r.value)
    decreases kids, 0
  {
    hide FilesOk, OnDisk, View, LogOk;
    if kids == [] then Ok(fs)
    else
      var fs1 :- AddNode(fs, cur, kids[0]);
      OpenKids(fs1, cur, kids[1..])
  }

  lemma CreateOk(size: nat, slack: Slack)
    ensures Create(size, slack).Ok? ==> Full(Create(size, slack).value) && Create(size, slack).value.inodes.Keys == {BLKN_ROOT}
    ensures Create(size, slack).Ok? ==> Create(size, slack).value.name == Zeros(256)
  {
    if Create(size, slack).Ok? {
      var fs := Create(size, slack).value;
      assert FileOk(fs, BLKN_ROOT);
    }
  }

  /** The whole run up to the flush: an empty image, then the root directory. */
  function Run(size: nat, slack: Slack, kids: seq<Entry>): (r: Result<Fs>)
    ensures r.Ok? ==> Full(r.value)
  {
    hide FilesOk, OnDisk, View, LogOk;
    CreateOk(size, slack);
    var fs :- Create(size, slack);
    OpenDir(fs, BLKN_ROOT, BLKN_ROOT, kids)
  }
}
