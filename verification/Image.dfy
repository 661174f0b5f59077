/** The state of the SFS image builder as a value, and what each of its operations does to that state. */
module Image {
  import opened Bytes
  import opened Wrappers

  const MAGIC: nat := 0x2f8dbe2a
  const NDIRECT: nat := 12
  const BLKSIZE: nat := 4096
  const BLKBITS: nat := 32768
  const MAX_NBLKS: nat := 524288
  const MAX_FNAME_LEN: nat := 255
  const NAMELEN: nat := 256
  const NENTRY: nat := 1024
  const L0: nat := 12
  const L1: nat := 1036
  const L2: nat := 1049612
  const LN: nat := 32768
  const BLKN_SUPER: nat := 0
  const BLKN_ROOT: nat := 1
  const BLKN_FREEMAP: nat := 2
  const T_FILE: nat := 1
  const T_DIR: nat := 2
  const T_LINK: nat := 3
  const DOT: byte := 46

  /** The part of the superblock's label behind its terminator, which keeps what the allocated memory held. */
  type Slack = s: seq<byte> | |s| == 13 witness Zeros(13)

  /** What the host directory holds, in readdir order; a directory lists its entries without "." and "..". */
  datatype Entry = Entry(name: seq<byte>, node: Node)
  datatype Node =
    | Dir(host: nat, kids: seq<Entry>)
    | Reg(host: nat, data: seq<byte>)
    | Lnk(host: nat, target: seq<byte>)
    | Special

  datatype Inode = Inode(kind: nat, host: nat, size: nat, nlinks: nat, blocks: nat,
                         direct: seq<nat>, indirect: nat, dbl: nat)

  /** A cached index block; (file, pos) names the slot that holds its number: 0 for the indirect slot,
      1 for the double-indirect slot, 2 + q for word q of the double-indirect block. */
  datatype Index = Index(words: seq<nat>, file: nat, pos: nat)

  /** byReal maps a host inode number to the newest image inode made for it; log counts the writes of each block;
      name is the static entry buffer, which keeps the tail of earlier names. */
  datatype Fs = Fs(ninos: nat, next: nat, unused: int,
                   inodes: map<nat, Inode>, byReal: map<nat, nat>, index: map<nat, Index>,
                   disk: map<nat, seq<byte>>, log: multiset<nat>, name: seq<byte>, slack: Slack)

  function NewNode(kind: nat, host: nat): Inode {
    Inode(kind, host, 0, 0, 0, Zeros(NDIRECT), 0, 0)
  }

  /** First block after the superblock, the root inode and the bitmap. */
  function FirstFree(ninos: nat): nat {
    BLKN_FREEMAP + (ninos + BLKBITS - 1) / BLKBITS
  }

  function BlocksOfImage(size: nat): nat {
    var n := size / BLKSIZE % W32;
    if n > MAX_NBLKS then MAX_NBLKS else n
  }

  function EmptyFs(ninos: nat, next: nat, slack: Slack): Fs {
    Fs(ninos, next, ninos - next, map[BLKN_ROOT := NewNode(T_DIR, 0)], map[0 := BLKN_ROOT],
       map[], map[], multiset{}, Zeros(NAMELEN), slack)
  }

  function Create(size: nat, slack: Slack): Result<Fs> {
    var ninos := BlocksOfImage(size);
    var next := FirstFree(ninos);
    if next >= ninos then Err(ImageTooSmall)
    else Ok(EmptyFs(ninos, next, slack))
  }

  // ---- the state invariant ----

  predicate WordsOk(fs: Fs) {
    forall b <- fs.index :: |fs.index[b].words| == NENTRY
  }

  /** The index block in slot (f, pos) exists exactly when the file is long enough to need it. */
  predicate SlotOk(fs: Fs, slot: nat, f: nat, pos: nat, needed: bool) {
    && (slot != 0 <==> needed)
    && (needed ==> slot in fs.index && fs.index[slot].file == f && fs.index[slot].pos == pos)
  }

  predicate FileOk(fs: Fs, f: nat)
    requires f in fs.inodes && WordsOk(fs)
  {
    var i := fs.inodes[f];
    && |i.direct| == NDIRECT
    && i.blocks <= LN
    && SlotOk(fs, i.indirect, f, 0, i.blocks > L0)
    && SlotOk(fs, i.dbl, f, 1, i.blocks > L1)
    && (i.blocks > L1 ==>
          forall q :: 0 <= q < NENTRY ==> SlotOk(fs, fs.index[i.dbl].words[q], f, 2 + q, i.blocks > L1 + q * NENTRY))
  }

  /** What appending to file f needs of the state. */
  predicate Core(fs: Fs, f: nat) {
    f in fs.inodes && WordsOk(fs) && FileOk(fs, f) && 0 < fs.next && (forall b <- fs.index :: b < fs.next)
  }

  predicate FilesOk(fs: Fs) {
    WordsOk(fs) && forall f <- fs.inodes :: FileOk(fs, f)
  }

  predicate Shape(fs: Fs) {
    && FirstFree(fs.ninos) <= fs.next <= fs.ninos <= MAX_NBLKS
    && fs.unused == fs.ninos - fs.next
    && |fs.name| == NAMELEN
    && BLKN_ROOT in fs.inodes
    && (forall f <- fs.inodes :: f == BLKN_ROOT || FirstFree(fs.ninos) <= f < fs.next)
    && (forall b <- fs.index :: FirstFree(fs.ninos) <= b < fs.next && b !in fs.inodes)
    && (forall r <- fs.byReal :: fs.byReal[r] in fs.inodes && fs.inodes[fs.byReal[r]].host == r)
  }

  predicate Inv(fs: Fs) {
    Shape(fs) && FilesOk(fs)
  }

  // ---- operations ----

  function AllocIno(fs: Fs): Result<(Fs, nat)> {
    if fs.next < fs.ninos then Ok((fs.(unused := fs.unused - 1, next := fs.next + 1), fs.next)) else Err(NoSpace)
  }

  function Padded(data: seq<byte>): (r: seq<byte>)
    requires |data| <= BLKSIZE
    ensures |r| == BLKSIZE
  {
    data + Zeros(BLKSIZE - |data|)
  }

  function WriteBlock(fs: Fs, data: seq<byte>, b: nat): Fs
    requires |data| <= BLKSIZE
  {
    fs.(disk := fs.disk[b := Padded(data)], log := fs.log + multiset{b})
  }

  /** Allocate a block and write data to it. */
  function Emit(fs: Fs, data: seq<byte>): Result<(Fs, nat)>
    requires |data| <= BLKSIZE
  {
    var (fs1, b) :- AllocIno(fs);
    Ok((WriteBlock(fs1, data, b), b))
  }

  function AllocInode(fs: Fs, host: nat, kind: nat): Result<(Fs, nat)> {
    var (fs1, f) :- AllocIno(fs);
    Ok((fs1.(inodes := fs1.inodes[f := NewNode(kind, host)], byReal := fs1.byReal[host := f]), f))
  }

  /** The index block in a slot, allocated when the slot is still empty. */
  function UpdateSlot(fs: Fs, slot: nat, f: nat, pos: nat): Result<(Fs, nat)> {
    if slot != 0 then Ok((fs, slot))
    else
      var (fs1, b) :- AllocIno(fs);
      Ok((fs1.(index := fs1.index[b := Index(Zeros(NENTRY), f, pos)]), b))
  }

  function SetWord(index: map<nat, Index>, b: nat, k: nat, v: nat): map<nat, Index>
    requires b in index && k < |index[b].words|
  {
    index[b := index[b].(words := index[b].words[k := v])]
  }

  function Grow(i: Inode, size: nat): Inode {
    i.(size := i.size + size, blocks := i.blocks + 1)
  }

  function AppendL1(fs: Fs, f: nat, size: nat, b: nat): Result<Fs>
    requires Core(fs, f) && L0 <= fs.inodes[f].blocks < L1
  {
    var i := fs.inodes[f];
    var (fs1, s) :- UpdateSlot(fs, i.indirect, f, 0);
    Ok(fs1.(index := SetWord(fs1.index, s, i.blocks - L0, b),
            inodes := fs1.inodes[f := Grow(i, size).(indirect := s)]))
  }

  function AppendL2(fs: Fs, f: nat, size: nat, b: nat): Result<Fs>
    requires Core(fs, f) && L1 <= fs.inodes[f].blocks < LN
  {
    var i := fs.inodes[f];
    var q, r := (i.blocks - L1) / NENTRY, (i.blocks - L1) % NENTRY;
    var (fs1, s2) :- UpdateSlot(fs, i.dbl, f, 1);
    var (fs2, s1) :- UpdateSlot(fs1, fs1.index[s2].words[q], f, 2 + q);
    Ok(fs2.(index := SetWord(SetWord(fs2.index, s2, q, s1), s1, r, b),
            inodes := fs2.inodes[f := Grow(i, size).(dbl := s2)]))
  }

  /** Append block number b, holding size bytes, to file f. */
  function AppendBlock(fs: Fs, f: nat, size: nat, b: nat): Result<Fs>
    requires Core(fs, f)
  {
    var i := fs.inodes[f];
    if i.blocks >= LN then Err(TooBig)
    else if i.blocks < L0 then
      Ok(fs.(inodes := fs.inodes[f := Grow(i, size).(direct := i.direct[i.blocks := b])]))
    else if i.blocks < L1 then AppendL1(fs, f, size, b)
    else AppendL2(fs, f, size, b)
  }

  /** strcpy into the entry buffer: the name, a zero byte, and what was there before. */
  function StrCpy(buf: seq<byte>, s: seq<byte>): (r: seq<byte>)
    requires |s| < |buf|
    ensures |r| == |buf|
  {
    s + [0] + buf[|s| + 1..]
  }

  /** The first 256 of the 260 bytes of a directory entry. */
  function EntryBytes(f: nat, nm: seq<byte>): (r: seq<byte>)
    requires |nm| == NAMELEN
    ensures |r| == NAMELEN
  {
    (Flat([f]) + nm)[..NAMELEN]
  }

  function Link(fs: Fs, f: nat): Fs
    requires f in fs.inodes
  {
    var i := fs.inodes[f];
    fs.(inodes := fs.inodes[f := i.(nlinks := (i.nlinks + 1) % 0x1_0000)])
  }
}
