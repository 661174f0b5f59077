/** Where the first index block of a file lies, and that it is filed under the wrong hash value. */
module FirstIndex {
  import opened Bytes
  import opened Image
  import opened Store
  import opened Build
  import BlockMap
  import Caches
  import Space

  /** Beyond the data block, exactly the numbers that Put takes become index blocks. */
  lemma PutIndexKeys(fs: Fs, f: nat, data: seq<byte>, size: nat)
    requires Full(fs) && f in fs.inodes && |data| <= BLKSIZE && Put(fs, f, data, size).Ok?
    ensures var r := Put(fs, f, data, size).value;
      forall c: nat :: c in r.index <==> c in fs.index || fs.next + 1 <= c < r.next
  {
    hide FilesOk, LogOk, OnDisk, View, AppendBlock;
    EmitOk(fs, data);
    var (fs1, b) := Emit(fs, data).value;
    CoreOf(fs1, f);
    BlockMap.AppendIndexKeys(fs1, f, size, b);
  }

  lemma {:induction false} IndexGrows(fs: Fs, f: nat, data: seq<byte>)
    requires Full(fs) && f in fs.inodes && OpenFile(fs, f, data).Ok?
    ensures fs.index.Keys <= OpenFile(fs, f, data).value.index.Keys
    decreases |data|
  {
    hide FilesOk, LogOk, OnDisk, View, Put, Shape;
    if data != [] {
      var c := Chunk(data);
      PutOk(fs, f, c, |c|);
      PutIndexKeys(fs, f, c, |c|);
      IndexGrows(Put(fs, f, c, |c|).value, f, data[|c|..]);
    }
  }

  /** The first index block of a file follows its thirteenth data block. */
  lemma {:induction false} FirstIndexBlock(fs: Fs, f: nat, data: seq<byte>)
    requires Full(fs) && f in fs.inodes && OpenFile(fs, f, data).Ok?
    requires var n := fs.inodes[f].blocks; n <= L0 < n + Space.NChunks(|data|)
    ensures fs.next + (L0 - fs.inodes[f].blocks) + 1 in OpenFile(fs, f, data).value.index
    decreases |data|
  {
    hide FilesOk, LogOk, OnDisk, View, Put, Shape;
    var n := fs.inodes[f].blocks;
    var c := Chunk(data);
    PutOk(fs, f, c, |c|);
    PutIndexKeys(fs, f, c, |c|);
    Space.ChunkCount(data);
    var fs1 := Put(fs, f, c, |c|).value;
    if n < L0 {
      FirstIndexBlock(fs1, f, data[|c|..]);
    } else {
      IndexGrows(fs1, f, data[|c|..]);
    }
  }

  lemma EntryIndexGrows(fs: Fs, cur: nat, file: nat, name: seq<byte>)
    requires Full(fs) && cur in fs.inodes && file in fs.inodes && |name| <= MAX_FNAME_LEN
    requires AddEntry(fs, cur, file, name).Ok?
    ensures fs.index.Keys <= AddEntry(fs, cur, file, name).value.index.Keys
  {
    hide FilesOk, LogOk, OnDisk, View, Put;
    var fs0 := fs.(name := StrCpy(fs.name, name));
    NameOk(fs, fs0.name);
    PutOk(fs0, cur, EntryBytes(file, fs0.name), NAMELEN);
    PutIndexKeys(fs0, cur, EntryBytes(file, fs0.name), NAMELEN);
  }

  /** A new file of more than twelve blocks has its first index block fourteen numbers behind its inode. */
  lemma FileIndexBlock(fs: Fs, cur: nat, name: seq<byte>, host: nat, data: seq<byte>)
    requires Full(fs) && cur in fs.inodes && |name| <= MAX_FNAME_LEN && host !in fs.byReal
    requires AddFile(fs, cur, name, host, data).Ok? && Space.NChunks(|data|) > L0
    ensures fs.next + 14 in AddFile(fs, cur, name, host, data).value.index
  {
    hide FilesOk, LogOk, OnDisk, View, Put, Shape, AllocInode, OpenFile, AddEntry;
    AllocInodeOk(fs, host, T_FILE);
    Space.AllocInodeSpace(fs, host, T_FILE);
    var (fs1, f) := AllocInode(fs, host, T_FILE).value;
    FirstIndexBlock(fs1, f, data);
    EntryIndexGrows(OpenFile(fs1, f, data).value, cur, f, name);
  }

  /** A file of thirteen blocks. */
  const BIG_FILE: seq<Entry> := [Entry([97], Reg(7, Zeros(13 * BLKSIZE)))]

  lemma BigFileFits()
    ensures Space.Fits(BIG_FILE, {0}) && Space.Visible(BIG_FILE) == 1 && Space.Demand(BIG_FILE) == 18
    ensures Space.NChunks(13 * BLKSIZE) == 13
  {
    hide BlockMap.FileBlocks;
    assert BlockMap.FileBlocks(3) == 3 && BlockMap.FileBlocks(13) == 14 by { Costs(); }
    assert BIG_FILE[1..] == [];
    assert Space.SeenNode(BIG_FILE[0], {0}) == {0, 7} && Space.Need([], {0, 7}) == 0 && Space.Visible([]) == 0;
    assert Space.NeedNode(BIG_FILE[0], {0}) == 15 && Space.Need(BIG_FILE, {0}) == 15;
  }

  lemma Costs()
    ensures forall n: nat :: n <= 12 ==> BlockMap.FileBlocks(n) == n
    ensures BlockMap.FileBlocks(13) == 14
  {}

  lemma OneEntry(fs: Fs, cur: nat, file: nat, name: seq<byte>)
    requires Full(fs) && cur in fs.inodes && file in fs.inodes && |name| <= MAX_FNAME_LEN && fs.inodes[cur].blocks < L0
    requires AddEntry(fs, cur, file, name).Ok?
    ensures var r := AddEntry(fs, cur, file, name).value;
      r.next == fs.next + 1 && r.byReal.Keys == fs.byReal.Keys && cur in r.inodes
      && r.inodes[cur].blocks == fs.inodes[cur].blocks + 1
  {
    hide FilesOk, LogOk, OnDisk, View, BlockMap.FileBlocks, AddEntry;
    Costs();
    Space.AddEntrySpace(fs, cur, file, name);
  }

  lemma Created(size: nat, slack: Slack)
    requires Create(size, slack).Ok?
    ensures var fs := Create(size, slack).value;
      Full(fs) && BLKN_ROOT in fs.inodes && fs.inodes[BLKN_ROOT].blocks == 0 && fs.byReal.Keys == {0}
      && fs.next == FirstFree(BlocksOfImage(size))
  {
    CreateOk(size, slack);
  }

  /** The root directory starts with two entries in the first two free blocks. */
  lemma RunStarts(size: nat, slack: Slack, kids: seq<Entry>) returns (fs2: Fs)
    requires Run(size, slack, kids).Ok?
    ensures Full(fs2) && BLKN_ROOT in fs2.inodes && OpenKids(fs2, BLKN_ROOT, kids) == Run(size, slack, kids)
    ensures fs2.next == FirstFree(BlocksOfImage(size)) + 2 && fs2.byReal.Keys == {0}
  {
    hide Full, AddEntry, OpenKids, FirstFree, BlocksOfImage, Create;
    Created(size, slack);
    var fs := Create(size, slack).value;
    OneEntry(fs, BLKN_ROOT, BLKN_ROOT, DOT_NAME);
    var fs1 := AddEntry(fs, BLKN_ROOT, BLKN_ROOT, DOT_NAME).value;
    OneEntry(fs1, BLKN_ROOT, BLKN_ROOT, DOT_DOT_NAME);
    fs2 := AddEntry(fs1, BLKN_ROOT, BLKN_ROOT, DOT_DOT_NAME).value;
  }

  /** A complete run whose index block 19 a search by number would miss. */
  lemma SearchWouldMiss(slack: Slack)
    ensures Run(32 * BLKSIZE, slack, BIG_FILE).Ok?
    ensures 19 in Run(32 * BLKSIZE, slack, BIG_FILE).value.index && Caches.Bucket(19) != Caches.Bucket(0)
  {
    hide FilesOk, LogOk, OnDisk, View, Space.Fits, Space.Demand, Space.Visible, OpenKids, Run, Caches.Bucket, BIG_FILE;
    BigFileFits();
    Space.BuildSucceedsIff(32 * BLKSIZE, slack, BIG_FILE, 32, 1);
    Caches.WrongChain();
    var fs := RunStarts(32 * BLKSIZE, slack, BIG_FILE);
    FirstEntry(fs);
  }

  lemma FirstEntry(fs: Fs)
    requires Full(fs) && BLKN_ROOT in fs.inodes && 7 !in fs.byReal && fs.next == 5
    requires OpenKids(fs, BLKN_ROOT, BIG_FILE).Ok?
    ensures 19 in OpenKids(fs, BLKN_ROOT, BIG_FILE).value.index
  {
    hide FilesOk, LogOk, OnDisk, View, AddFile, Shape, Zeros;
    BigFileFits();
    assert BIG_FILE[1..] == [];
    FileIndexBlock(fs, BLKN_ROOT, [97], 7, Zeros(13 * BLKSIZE));
  }
}
