/** The image after the flush, and reading it back. */
module Disk {
  import opened Bytes
  import opened Image
  import opened BlockMap
  import opened Store
  import opened Bitmap

  type DiskImage = map<nat, seq<byte>>

  // ---- what close_sfs writes ----

  function InodeWords(i: Inode): seq<nat> {
    [i.size, i.kind + 0x1_0000 * i.nlinks, i.blocks] + i.direct + [i.indirect, i.dbl]
  }

  const INFO: seq<byte> := [115, 105, 109, 112, 108, 101, 32, 102, 105, 108, 101, 32, 115, 121, 115, 116, 101, 109]

  function SuperBytes(ninos: nat, unused: nat, slack: Slack): (r: seq<byte>)
    ensures |r| == 44
  {
    Flat([MAGIC, ninos, unused]) + INFO + [0] + slack
  }

  function InodeBytes(i: Inode): (r: seq<byte>)
    requires |i.direct| == NDIRECT
    ensures |r| == 68
  {
    Flat(InodeWords(i))
  }

  /** The last content of block b. */
  function FinalBlock(fs: Fs, b: nat): seq<byte>
    requires Inv(fs)
    requires b < fs.next && (b in fs.disk || b in fs.inodes || b in fs.index || b < FirstFree(fs.ninos))
  {
    if b in fs.inodes then assert FileOk(fs, b); Padded(InodeBytes(fs.inodes[b]))
    else if b in fs.index then Flat(fs.index[b].words)
    else if b == BLKN_SUPER then Padded(SuperBytes(fs.ninos, fs.unused, fs.slack))
    else if b < FirstFree(fs.ninos) then Flat(BitmapWords(fs.ninos, fs.next, b - BLKN_FREEMAP))
    else fs.disk[b]
  }

  function FinalDisk(fs: Fs): DiskImage
    requires Full(fs)
  {
    map b: nat | 0 <= b < fs.next :: FinalBlock(fs, b)
  }

  // ---- write once ----

  /** Superblock and bitmap. */
  predicate IsMeta(ninos: nat, b: nat) {
    b < FirstFree(ninos) && b != BLKN_ROOT
  }

  function MetaBlocks(ninos: nat): set<nat> {
    set b: nat | 0 <= b < FirstFree(ninos) && IsMeta(ninos, b)
  }

  /** Blocks written by the flush, each once: superblock, bitmap, index blocks, inodes. */
  ghost function FinalLog(fs: Fs): multiset<nat>
  {
    fs.log + (multiset(MetaBlocks(fs.ninos)) + multiset(fs.index.Keys) + multiset(fs.inodes.Keys))
  }

  /** Over a complete run every block below next_ino is written exactly once and no other block is written. */
  lemma WriteOnce(fs: Fs)
    requires Full(fs)
    ensures forall b: nat :: FinalLog(fs)[b] == if b < fs.next then 1 else 0
  {
    hide FilesOk, OnDisk;
    forall b: nat
      ensures FinalLog(fs)[b] == if b < fs.next then 1 else 0
    {
    }
  }

  // ---- reading the image ----

  /** Word i of block b, 0 when there is no such block. */
  function Word(d: DiskImage, b: nat, i: nat): nat
    requires i < 1024
  {
    if b in d && |d[b]| == 4096 then ReadWord(d[b], i) else 0
  }

  function DiskBmap(d: DiskImage, ino: nat, k: nat): nat
    requires k < 1049612
  {
    if k < 12 then Word(d, ino, 3 + k)
    else if k < 1036 then Word(d, Word(d, ino, 15), k - 12)
    else Word(d, Word(d, Word(d, ino, 16), (k - 1036) / 1024), (k - 1036) % 1024)
  }

  function DiskContent(d: DiskImage, ino: nat): seq<seq<byte>> {
    var n := Word(d, ino, 2);
    if n > 32768 then []
    else seq(n, k requires 0 <= k < n => BlockAt(d, DiskBmap(d, ino, k)))
  }

  /** Inode ino as the image gives it. */
  function DiskObj(d: DiskImage, ino: nat, host: nat): Obj {
    Obj(Word(d, ino, 1) % 0x1_0000, host, Word(d, ino, 0), Word(d, ino, 1) / 0x1_0000, DiskContent(d, ino))
  }

  /** Object f fits the fields of an on-disk inode. */
  predicate Sized(o: Obj) {
    o.kind < 0x1_0000 && o.nlinks < 0x1_0000 && o.size < W32
  }

  lemma InodeWord(fs: Fs, f: nat, w: nat)
    requires Full(fs) && f in fs.inodes && w < 17
    requires Ready(fs, f) && InodeWords(fs.inodes[f])[w] < W32
    ensures Word(FinalDisk(fs), f, w) == InodeWords(fs.inodes[f])[w]
  {
    hide FilesOk, LogOk, OnDisk, ReadWord;
    var ws := InodeWords(fs.inodes[f]);
    ReadFlat(ws, Zeros(BLKSIZE - 68), w);
    assert f in FinalDisk(fs);
  }

  lemma IndexWord(fs: Fs, b: nat, w: nat)
    requires Full(fs) && b in fs.index && w < NENTRY
    requires WordsOk(fs) && fs.index[b].words[w] < W32
    ensures Word(FinalDisk(fs), b, w) == fs.index[b].words[w]
  {
    hide FilesOk, LogOk, OnDisk, ReadWord;
    var ws := fs.index[b].words;
    ReadFlat(ws, [], w);
    assert Flat(ws) + [] == Flat(ws);
    assert b in FinalDisk(fs);
  }

  lemma DataBlock(fs: Fs, b: nat)
    requires Full(fs) && b in fs.disk
    ensures BlockAt(FinalDisk(fs), b) == fs.disk[b] && b < W32
  {
    hide FilesOk, OnDisk;
    assert IsData(fs, b);
    assert b in FinalDisk(fs);
  }

  lemma IndexSmall(fs: Fs, b: nat)
    requires Full(fs) && b in fs.index
    ensures b < W32
  {}

  lemma InOnDisk(fs: Fs, f: nat, k: nat)
    requires FilesOk(fs) && OnDisk(fs) && f in fs.inodes && k < fs.inodes[f].blocks
    ensures Ready(fs, f) && Bmap(fs, f, k) in fs.disk
  {
    assert Blocks(fs, f)[k] == Bmap(fs, f, k);
    assert Blocks(fs, f)[k] in Blocks(fs, f);
  }

  /** The walk on the image finds the block that the walk in memory found. */
  lemma DiskBmapIs(fs: Fs, f: nat, k: nat)
    requires Full(fs) && Ready(fs, f) && k < fs.inodes[f].blocks
    ensures k < L2 && DiskBmap(FinalDisk(fs), f, k) == Bmap(fs, f, k)
  {
    hide FilesOk, LogOk, OnDisk, Shape, FinalDisk, Word;
    InOnDisk(fs, f, k);
    DataBlock(fs, Bmap(fs, f, k));
    var i := fs.inodes[f];
    if k < L0 {
      InodeWord(fs, f, 3 + k);
    } else if k < L1 {
      IndexSmall(fs, i.indirect);
      InodeWord(fs, f, 15);
      IndexWord(fs, i.indirect, k - L0);
    } else {
      var q := (k - L1) / NENTRY;
      var s := fs.index[i.dbl].words[q];
      assert SlotOk(fs, s, f, 2 + q, i.blocks > L1 + q * NENTRY);
      IndexSmall(fs, i.dbl);
      IndexSmall(fs, s);
      InodeWord(fs, f, 16);
      IndexWord(fs, i.dbl, q);
      IndexWord(fs, s, (k - L1) % NENTRY);
    }
  }

  /** Reading any inode of the finished image gives the object the builder made. */
  lemma DiskObjIs(fs: Fs, f: nat)
    requires Full(fs) && f in fs.inodes && Sized(View(fs)[f])
    ensures DiskObj(FinalDisk(fs), f, fs.inodes[f].host) == View(fs)[f]
  {
    hide FilesOk, LogOk, OnDisk, Shape, FinalDisk, Word, View, DiskBmap, Bmap;
    CoreOf(fs, f);
    ViewAt(fs, f);
    var d, i := FinalDisk(fs), fs.inodes[f];
    InodeWord(fs, f, 0);
    InodeWord(fs, f, 1);
    InodeWord(fs, f, 2);
    assert (i.kind + 0x1_0000 * i.nlinks) % 0x1_0000 == i.kind;
    forall k | 0 <= k < i.blocks
      ensures k < L2 && BlockAt(d, DiskBmap(d, f, k)) == BlockAt(fs.disk, Blocks(fs, f)[k])
    {
      DiskBmapIs(fs, f, k);
      InOnDisk(fs, f, k);
      DataBlock(fs, Bmap(fs, f, k));
      assert Blocks(fs, f)[k] == Bmap(fs, f, k);
    }
  }

  /** The superblock gives the magic number, the size of the image, the free count, and the label. */
  lemma SuperOnDisk(fs: Fs)
    requires Full(fs)
    ensures var d := FinalDisk(fs);
      && Word(d, BLKN_SUPER, 0) == MAGIC && Word(d, BLKN_SUPER, 1) == fs.ninos
      && Word(d, BLKN_SUPER, 2) == fs.ninos - fs.next
      && CString(d[BLKN_SUPER][12..44]) == INFO
  {
    hide FilesOk, LogOk, OnDisk, ReadWord, Flat, CString;
    var ws := [MAGIC, fs.ninos, fs.unused];
    var rest := INFO + [0] + fs.slack + Zeros(BLKSIZE - 44);
    var b := FinalDisk(fs)[BLKN_SUPER];
    assert b == Flat(ws) + rest;
    ReadFlat(ws, rest, 0);
    ReadFlat(ws, rest, 1);
    ReadFlat(ws, rest, 2);
    assert b[12..44] == INFO + [0] + fs.slack;
    CStringIs(b[12..44], INFO);
  }

  // ---- the free bitmap ----

  /** Bit k of the concatenated bitmap blocks. */
  predicate DiskBit(d: DiskImage, k: nat) {
    Bit(Word(d, 2 + k / 32768, k % 32768 / 32), k % 32)
  }

  function SetBits(d: DiskImage, n: nat): nat {
    if n == 0 then 0 else SetBits(d, n - 1) + if DiskBit(d, n - 1) then 1 else 0
  }

  /** In every bitmap block, the last partial one included, the bits of the free blocks and no others are set. */
  lemma FreeBitmap(fs: Fs, k: nat)
    requires Full(fs) && k / BLKBITS < FirstFree(fs.ninos) - BLKN_FREEMAP
    ensures DiskBit(FinalDisk(fs), k) <==> fs.next <= k < fs.ninos
  {
    hide FilesOk, LogOk, OnDisk, ReadWord, Bit, BitmapWords, Flat, FinalDisk, Full;
    Digits(k);
    BitmapBlockOnDisk(fs, k / BLKBITS);
    var ws := BitmapWords(fs.ninos, fs.next, k / BLKBITS);
    BitmapBits(fs.ninos, fs.next, k);
    ReadFlat(ws, [], k % BLKBITS / WORD);
    assert Flat(ws) + [] == Flat(ws);
  }

  lemma BitmapBlockOnDisk(fs: Fs, i: nat)
    requires Full(fs) && i < FirstFree(fs.ninos) - BLKN_FREEMAP
    ensures BLKBITS * i < fs.ninos
    ensures BLKN_FREEMAP + i in FinalDisk(fs)
    ensures FinalDisk(fs)[BLKN_FREEMAP + i] == Flat(BitmapWords(fs.ninos, fs.next, i))
  {
    hide FilesOk, LogOk, OnDisk, BitmapWords, Flat;
    assert BLKN_FREEMAP + i !in fs.inodes && BLKN_FREEMAP + i !in fs.index;
  }

  lemma {:induction false} CountBits(fs: Fs, n: nat)
    requires Full(fs) && n <= fs.ninos
    ensures SetBits(FinalDisk(fs), n) == if n <= fs.next then 0 else n - fs.next
  {
    hide FilesOk, LogOk, OnDisk, FinalDisk, DiskBit;
    if n > 0 {
      CountBits(fs, n - 1);
      FreeBitmap(fs, n - 1);
    }
  }

  /** The number of set bits is the superblock's count of unused blocks. */
  lemma BitmapCountsUnused(fs: Fs)
    requires Full(fs)
    ensures SetBits(FinalDisk(fs), fs.ninos) == fs.unused
  {
    hide FilesOk, LogOk, OnDisk, FinalDisk, SetBits;
    CountBits(fs, fs.ninos);
  }
}
