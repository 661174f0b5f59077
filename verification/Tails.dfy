/** What is not used of a file's inode and index blocks is zero. */
module Tails {
  import opened Bytes
  import opened Image
  import opened Store
  import opened Build
  import opened Disk
  import BlockMap
  import Space

  /** Word w of an index block at position pos is not yet needed by a file of n blocks. */
  predicate Unused(pos: nat, w: nat, n: nat) {
    if pos == 0 then 12 + w >= n
    else if pos == 1 then 1036 + 1024 * w >= n
    else 1036 + 1024 * (pos - 2) + w >= n
  }

  predicate DirectTail(i: Inode) {
    |i.direct| == 12 && forall k :: i.blocks <= k < 12 ==> i.direct[k] == 0
  }

  predicate IndexTail(x: Index, n: nat) {
    forall w :: 0 <= w < |x.words| && Unused(x.pos, w, n) ==> x.words[w] == 0
  }

  /** The unused words of all inodes and index blocks are zero. */
  predicate TailOk(inodes: map<nat, Inode>, index: map<nat, Index>) {
    && (forall f <- inodes :: DirectTail(inodes[f]))
    && (forall b <- index :: index[b].file in inodes && IndexTail(index[b], inodes[index[b].file].blocks))
  }

  // ---- appending ----

  lemma FreshTail(f: nat, pos: nat, n: nat)
    ensures IndexTail(Index(Zeros(NENTRY), f, pos), n)
  {}

  /** A slot is used as it is, or gets a block of zeros. */
  lemma SlotTail(fs: Fs, slot: nat, f: nat, pos: nat)
    requires TailOk(fs.inodes, fs.index) && f in fs.inodes && UpdateSlot(fs, slot, f, pos).Ok?
    ensures var (fs1, s) := UpdateSlot(fs, slot, f, pos).value; TailOk(fs1.inodes, fs1.index) && fs1.inodes == fs.inodes
  {
    FreshTail(f, pos, fs.inodes[f].blocks);
  }

  /** One more block of f, and its number in the first unused word. */
  lemma StoredTail(inodes: map<nat, Inode>, index: map<nat, Index>, f: nat, i: Inode, s: nat, w: nat, v: nat)
    requires TailOk(inodes, index) && f in inodes && i.blocks == inodes[f].blocks + 1 && DirectTail(i)
    requires s in index && index[s].file == f && w < |index[s].words| && !Unused(index[s].pos, w, i.blocks)
    ensures TailOk(inodes[f := i], SetWord(index, s, w, v))
  {
    var inodes', index' := inodes[f := i], SetWord(index, s, w, v);
    forall b | b in index'
      ensures index'[b].file in inodes' && IndexTail(index'[b], inodes'[index'[b].file].blocks)
    {
      assert IndexTail(index[b], inodes[index[b].file].blocks);
    }
  }

  lemma StoredWord(inodes: map<nat, Inode>, index: map<nat, Index>, f: nat, s: nat, w: nat, v: nat)
    requires TailOk(inodes, index) && f in inodes && s in index && index[s].file == f && w < |index[s].words|
    requires v == index[s].words[w] || !Unused(index[s].pos, w, inodes[f].blocks)
    ensures TailOk(inodes, SetWord(index, s, w, v))
  {
    var index' := SetWord(index, s, w, v);
    forall b | b in index'
      ensures index'[b].file in inodes && IndexTail(index'[b], inodes[index'[b].file].blocks)
    {
      assert IndexTail(index[b], inodes[index[b].file].blocks);
    }
  }

  lemma DirectStored(inodes: map<nat, Inode>, index: map<nat, Index>, f: nat, i: Inode)
    requires TailOk(inodes, index) && f in inodes && i.blocks == inodes[f].blocks + 1 && DirectTail(i)
    ensures TailOk(inodes[f := i], index)
  {
    forall b | b in index
      ensures index[b].file in inodes && IndexTail(index[b], inodes[f := i][index[b].file].blocks)
    {
      assert IndexTail(index[b], inodes[index[b].file].blocks);
    }
  }

  /** The slot that appending uses belongs to f and has its position. */
  lemma SlotOwner(fs: Fs, slot: nat, f: nat, pos: nat, needed: bool)
    requires SlotOk(fs, slot, f, pos, needed) && UpdateSlot(fs, slot, f, pos).Ok? && WordsOk(fs)
    ensures var (fs1, s) := UpdateSlot(fs, slot, f, pos).value;
      s in fs1.index && fs1.index[s].file == f && fs1.index[s].pos == pos && |fs1.index[s].words| == NENTRY
  {}

  lemma AppendL1Tail(fs: Fs, f: nat, size: nat, b: nat)
    requires Core(fs, f) && L0 <= fs.inodes[f].blocks < L1 && AppendL1(fs, f, size, b).Ok? && TailOk(fs.inodes, fs.index)
    ensures var r := AppendL1(fs, f, size, b).value; TailOk(r.inodes, r.index)
  {
    hide TailOk;
    var i := fs.inodes[f];
    DirectOf(fs, f);
    SlotTail(fs, i.indirect, f, 0);
    SlotOwner(fs, i.indirect, f, 0, i.blocks > L0);
    var (fs1, s) := UpdateSlot(fs, i.indirect, f, 0).value;
    StoredTail(fs1.inodes, fs1.index, f, Grow(i, size).(indirect := s), s, i.blocks - L0, b);
  }

  lemma DirectOf(fs: Fs, f: nat)
    requires TailOk(fs.inodes, fs.index) && f in fs.inodes
    ensures DirectTail(fs.inodes[f])
  {}

  /** The two index blocks that the next block of f uses. */
  lemma BothSlots(fs: Fs, f: nat)
    requires Core(fs, f) && L1 <= fs.inodes[f].blocks < LN && UpdateSlot(fs, fs.inodes[f].dbl, f, 1).Ok?
    requires TailOk(fs.inodes, fs.index)
    ensures var i := fs.inodes[f];
      var q := (i.blocks - L1) / NENTRY;
      var (fs1, s2) := UpdateSlot(fs, i.dbl, f, 1).value;
      && s2 in fs1.index && fs1.index[s2].file == f && fs1.index[s2].pos == 1 && |fs1.index[s2].words| == NENTRY
      && var u := UpdateSlot(fs1, fs1.index[s2].words[q], f, 2 + q);
         u.Ok? ==>
           var (fs2, s1) := u.value;
           && fs2.inodes == fs.inodes && TailOk(fs2.inodes, fs2.index)
           && s2 in fs2.index && fs2.index[s2] == fs1.index[s2] && s1 != s2
           && s1 in fs2.index && fs2.index[s1].file == f && fs2.index[s1].pos == 2 + q && |fs2.index[s1].words| == NENTRY
  {
    hide TailOk, FileOk;
    var i := fs.inodes[f];
    var q := (i.blocks - L1) / NENTRY;
    OuterSlot(fs, f);
    SlotTail(fs, i.dbl, f, 1);
    SlotOwner(fs, i.dbl, f, 1, i.blocks > L1);
    var (fs1, s2) := UpdateSlot(fs, i.dbl, f, 1).value;
    var w := fs1.index[s2].words[q];
    InnerSlot(fs, f);
    if UpdateSlot(fs1, w, f, 2 + q).Ok? {
      SlotTail(fs1, w, f, 2 + q);
      SlotOwner(fs1, w, f, 2 + q, i.blocks > L1 + q * NENTRY);
    }
  }

  lemma OuterSlot(fs: Fs, f: nat)
    requires Core(fs, f)
    ensures SlotOk(fs, fs.inodes[f].dbl, f, 1, fs.inodes[f].blocks > L1) && WordsOk(fs)
    ensures forall b <- fs.index :: b < fs.next
  {}

  lemma AppendL2Tail(fs: Fs, f: nat, size: nat, b: nat)
    requires Core(fs, f) && L1 <= fs.inodes[f].blocks < LN && AppendL2(fs, f, size, b).Ok? && TailOk(fs.inodes, fs.index)
    ensures var r := AppendL2(fs, f, size, b).value; TailOk(r.inodes, r.index)
  {
    hide TailOk, FileOk, WordsOk, UpdateSlot;
    var i := fs.inodes[f];
    var q, k := (i.blocks - L1) / NENTRY, (i.blocks - L1) % NENTRY;
    DirectOf(fs, f);
    BothSlots(fs, f);
    var (fs1, s2) := UpdateSlot(fs, i.dbl, f, 1).value;
    var (fs2, s1) := UpdateSlot(fs1, fs1.index[s2].words[q], f, 2 + q).value;
    var i' := Grow(i, size).(dbl := s2);
    StoredTail(fs2.inodes, fs2.index, f, i', s2, q, s1);
    StoredWord(fs2.inodes[f := i'], SetWord(fs2.index, s2, q, s1), f, s1, k, b);
  }

  /** The word of the double-indirect block for the next block of f. */
  lemma InnerSlot(fs: Fs, f: nat)
    requires Core(fs, f) && L1 <= fs.inodes[f].blocks < LN && UpdateSlot(fs, fs.inodes[f].dbl, f, 1).Ok?
    ensures var i := fs.inodes[f];
      var q := (i.blocks - L1) / NENTRY;
      var (fs1, s2) := UpdateSlot(fs, i.dbl, f, 1).value;
      s2 in fs1.index && |fs1.index[s2].words| == NENTRY && WordsOk(fs1)
      && SlotOk(fs1, fs1.index[s2].words[q], f, 2 + q, i.blocks > L1 + q * NENTRY)
  {
    var i := fs.inodes[f];
    var q := (i.blocks - L1) / NENTRY;
    assert i.dbl != 0 ==> SlotOk(fs, fs.index[i.dbl].words[q], f, 2 + q, i.blocks > L1 + q * NENTRY);
  }

  lemma AppendTail(fs: Fs, f: nat, size: nat, b: nat)
    requires Core(fs, f) && AppendBlock(fs, f, size, b).Ok? && TailOk(fs.inodes, fs.index)
    ensures var r := AppendBlock(fs, f, size, b).value; TailOk(r.inodes, r.index)
  {
    hide TailOk, AppendL1, AppendL2;
    var i := fs.inodes[f];
    DirectOf(fs, f);
    if i.blocks < L0 {
      DirectStored(fs.inodes, fs.index, f, Grow(i, size).(direct := i.direct[i.blocks := b]));
    } else if i.blocks < L1 {
      AppendL1Tail(fs, f, size, b);
    } else {
      AppendL2Tail(fs, f, size, b);
    }
  }

  // ---- over a run ----

  ghost predicate Clear(fs: Fs) {
    TailOk(fs.inodes, fs.index)
  }

  lemma PutClear(fs: Fs, f: nat, data: seq<byte>, size: nat)
    requires Full(fs) && f in fs.inodes && |data| <= BLKSIZE && Put(fs, f, data, size).Ok? && Clear(fs)
    ensures Full(Put(fs, f, data, size).value) && Clear(Put(fs, f, data, size).value)
  {
    hide FilesOk, LogOk, OnDisk, View, AppendBlock, TailOk, BlockMap.FileBlocks;
    EmitOk(fs, data);
    var (fs1, b) := Emit(fs, data).value;
    CoreOf(fs1, f);
    AppendTail(fs1, f, size, b);
    PutOk(fs, f, data, size);
  }

  lemma LinkClear(fs: Fs, f: nat)
    requires f in fs.inodes && Clear(fs)
    ensures Clear(Link(fs, f))
  {
    var fs1 := Link(fs, f);
    forall b | b in fs1.index
      ensures fs1.index[b].file in fs1.inodes && IndexTail(fs1.index[b], fs1.inodes[fs1.index[b].file].blocks)
    {
      assert IndexTail(fs.index[b], fs.inodes[fs.index[b].file].blocks);
    }
  }

  lemma AllocClear(fs: Fs, host: nat, kind: nat)
    requires Full(fs) && AllocInode(fs, host, kind).Ok? && Clear(fs)
    ensures var (fs1, f) := AllocInode(fs, host, kind).value;
      Full(fs1) && f in fs1.inodes && fs.inodes.Keys <= fs1.inodes.Keys && Clear(fs1)
  {
    hide FilesOk, LogOk, OnDisk, View, Unused;
    AllocInodeOk(fs, host, kind);
    NewIsFresh(fs);
  }

  lemma NewIsFresh(fs: Fs)
    requires Full(fs)
    ensures fs.next !in fs.inodes
  {
    hide FilesOk, LogOk, OnDisk;
  }

  lemma EntryClear(fs: Fs, cur: nat, file: nat, name: seq<byte>)
    requires Full(fs) && cur in fs.inodes && file in fs.inodes && |name| <= MAX_FNAME_LEN
    requires AddEntry(fs, cur, file, name).Ok? && Clear(fs)
    ensures Clear(AddEntry(fs, cur, file, name).value)
  {
    hide FilesOk, LogOk, OnDisk, View, Put, TailOk;
    var fs0 := fs.(name := StrCpy(fs.name, name));
    NameOk(fs, fs0.name);
    PutClear(fs0, cur, EntryBytes(file, fs0.name), NAMELEN);
    PutOk(fs0, cur, EntryBytes(file, fs0.name), NAMELEN);
    LinkClear(Put(fs0, cur, EntryBytes(file, fs0.name), NAMELEN).value, file);
  }

  lemma {:induction false} FileClear(fs: Fs, f: nat, data: seq<byte>)
    requires Full(fs) && f in fs.inodes && OpenFile(fs, f, data).Ok? && Clear(fs)
    ensures Clear(OpenFile(fs, f, data).value)
    decreases |data|
  {
    hide FilesOk, LogOk, OnDisk, View, Put, Chunk, Shape, Clear;
    if data != [] {
      var c := Chunk(data);
      PutOk(fs, f, c, |c|);
      PutClear(fs, f, c, |c|);
      FileClear(Put(fs, f, c, |c|).value, f, data[|c|..]);
    }
  }

  lemma AddFileClear(fs: Fs, cur: nat, name: seq<byte>, host: nat, data: seq<byte>)
    requires Full(fs) && cur in fs.inodes && |name| <= MAX_FNAME_LEN && AddFile(fs, cur, name, host, data).Ok? && Clear(fs)
    ensures Clear(AddFile(fs, cur, name, host, data).value)
  {
    hide FilesOk, LogOk, OnDisk, View, AddEntry, OpenFile, AllocInode, Shape, Clear;
    if host in fs.byReal {
      Space.HostShape(fs, host);
      EntryClear(fs, cur, fs.byReal[host], name);
    } else {
      AllocClear(fs, host, T_FILE);
      var (fs1, f) := AllocInode(fs, host, T_FILE).value;
      FileClear(fs1, f, data);
      EntryClear(OpenFile(fs1, f, data).value, cur, f, name);
    }
  }

  lemma AddLinkClear(fs: Fs, cur: nat, name: seq<byte>, host: nat, target: seq<byte>)
    requires Full(fs) && cur in fs.inodes && |name| <= MAX_FNAME_LEN && AddLink(fs, cur, name, host, target).Ok? && Clear(fs)
    ensures Clear(AddLink(fs, cur, name, host, target).value)
  {
    hide FilesOk, LogOk, OnDisk, View, AddEntry, AllocInode, Shape, Put, Clear;
    AllocClear(fs, host, T_LINK);
    var (fs1, f) := AllocInode(fs, host, T_LINK).value;
    PutOk(fs1, f, target, |target|);
    PutClear(fs1, f, target, |target|);
    EntryClear(OpenLink(fs1, f, target).value, cur, f, name);
  }

  lemma {:induction false} AddDirClear(fs: Fs, cur: nat, name: seq<byte>, host: nat, kids: seq<Entry>)
    requires Full(fs) && cur in fs.inodes && |name| <= MAX_FNAME_LEN && AddDir(fs, cur, name, host, kids).Ok? && Clear(fs)
    ensures Clear(AddDir(fs, cur, name, host, kids).value)
    decreases kids, 2
  {
    hide FilesOk, LogOk, OnDisk, View, AddEntry, AllocInode, Shape, OpenDir, Clear;
    AllocClear(fs, host, T_DIR);
    var (fs1, d) := AllocInode(fs, host, T_DIR).value;
    OpenDirClear(fs1, d, cur, kids);
    EntryClear(OpenDir(fs1, d, cur, kids).value, cur, d, name);
  }

  lemma {:induction false} OpenDirClear(fs: Fs, cur: nat, parent: nat, kids: seq<Entry>)
    requires Full(fs) && cur in fs.inodes && parent in fs.inodes && OpenDir(fs, cur, parent, kids).Ok? && Clear(fs)
    ensures Clear(OpenDir(fs, cur, parent, kids).value)
    decreases kids, 1
  {
    hide FilesOk, LogOk, OnDisk, View, AddEntry, OpenKids, Shape, Clear;
    EntryClear(fs, cur, cur, DOT_NAME);
    var fs1 := AddEntry(fs, cur, cur, DOT_NAME).value;
    EntryClear(fs1, cur, parent, DOT_DOT_NAME);
    OpenKidsClear(AddEntry(fs1, cur, parent, DOT_DOT_NAME).value, cur, kids);
  }

  lemma {:induction false} AddNodeClear(fs: Fs, cur: nat, e: Entry)
    requires Full(fs) && cur in fs.inodes && AddNode(fs, cur, e).Ok? && Clear(fs)
    ensures Clear(AddNode(fs, cur, e).value)
    decreases e, 3
  {
    hide FilesOk, LogOk, OnDisk, View, AddDir, AddFile, AddLink, Shape, Clear;
    if Space.HasEntry(e) {
      match e.node
      case Reg(h, data) => AddFileClear(fs, cur, e.name, h, data);
      case Lnk(h, target) => AddLinkClear(fs, cur, e.name, h, target);
      case Dir(h, kids) => AddDirClear(fs, cur, e.name, h, kids);
    }
  }

  lemma {:induction false} OpenKidsClear(fs: Fs, cur: nat, kids: seq<Entry>)
    requires Full(fs) && cur in fs.inodes && OpenKids(fs, cur, kids).Ok? && Clear(fs)
    ensures Clear(OpenKids(fs, cur, kids).value)
    decreases kids, 0
  {
    hide FilesOk, LogOk, OnDisk, View, AddNode, Shape, Clear;
    if kids != [] {
      AddNodeClear(fs, cur, kids[0]);
      OpenKidsClear(AddNode(fs, cur, kids[0]).value, cur, kids[1..]);
    }
  }

  lemma RunClear(size: nat, slack: Slack, kids: seq<Entry>)
    requires Run(size, slack, kids).Ok?
    ensures Clear(Run(size, slack, kids).value)
  {
    hide FilesOk, LogOk, OnDisk, View, OpenDir, FirstFree, BlocksOfImage;
    CreateOk(size, slack);
    OpenDirClear(Create(size, slack).value, BLKN_ROOT, BLKN_ROOT, kids);
  }

  // ---- on the image ----

  /** After an accepted run the words of inode f behind its last block number are zero: the direct ones up to 12, the
      indirect ones unless it has more than 12 or 1036 blocks, and everything behind word 16; and so are the unused
      words of its index blocks. n is the number of its blocks. */
  lemma UnusedLaw(size: nat, slack: Slack, kids: seq<Entry>, f: nat, n: nat)
    requires Run(size, slack, kids).Ok? && f in Run(size, slack, kids).value.inodes
    requires n == Run(size, slack, kids).value.inodes[f].blocks
    ensures var d := FinalDisk(Run(size, slack, kids).value);
      && Word(d, f, 2) == n
      && (forall i :: 3 + n <= i < 15 ==> Word(d, f, i) == 0)
      && (Word(d, f, 15) == 0 <==> n <= 12) && (Word(d, f, 16) == 0 <==> n <= 1036)
      && (forall i :: 17 <= i < 1024 ==> Word(d, f, i) == 0)
      && (n > 12 ==> forall w :: 0 <= w < 1024 && 12 + w >= n ==> Word(d, Word(d, f, 15), w) == 0)
      && (n > 1036 ==> forall q :: 0 <= q < 1024 ==>
            && (Word(d, Word(d, f, 16), q) == 0 <==> 1036 + 1024 * q >= n)
            && (1036 + 1024 * q < n ==> forall w :: 0 <= w < 1024 && 1036 + 1024 * q + w >= n ==>
                  Word(d, Word(d, Word(d, f, 16), q), w) == 0))
  {
    hide Run, FinalDisk, Word, InodeWords, FilesOk, LogOk, OnDisk, Shape;
    RunClear(size, slack, kids);
    var fs := Run(size, slack, kids).value;
    CoreOf(fs, f);
    InodeTail(fs, f);
    if n > 12 {
      forall w | 0 <= w < 1024 && 12 + w >= n
        ensures Word(FinalDisk(fs), fs.inodes[f].indirect, w) == 0
      {
        IndexZero(fs, fs.inodes[f].indirect, f, w);
      }
    }
    if n > 1036 {
      forall q | 0 <= q < 1024
        ensures Word(FinalDisk(fs), fs.inodes[f].dbl, q) == fs.index[fs.inodes[f].dbl].words[q]
        ensures fs.index[fs.inodes[f].dbl].words[q] == 0 <==> 1036 + 1024 * q >= n
      {
        InnerWord(fs, f, q);
      }
      forall q, w | 0 <= q < 1024 && 0 <= w < 1024 && 1036 + 1024 * q < n <= 1036 + 1024 * q + w
        ensures Word(FinalDisk(fs), fs.index[fs.inodes[f].dbl].words[q], w) == 0
      {
        InnerWord(fs, f, q);
        IndexZero(fs, fs.index[fs.inodes[f].dbl].words[q], f, w);
      }
    }
  }

  lemma InodeTail(fs: Fs, f: nat)
    requires Full(fs) && f in fs.inodes && Clear(fs) && Core(fs, f)
    ensures var d, i := FinalDisk(fs), fs.inodes[f];
      && Word(d, f, 2) == i.blocks && Word(d, f, 15) == i.indirect && Word(d, f, 16) == i.dbl
      && (forall k :: 3 + i.blocks <= k < 15 ==> Word(d, f, k) == 0)
      && (forall k :: 17 <= k < 1024 ==> Word(d, f, k) == 0)
  {
    hide FilesOk, LogOk, OnDisk, Word, FinalDisk, IndexTail;
    var i := fs.inodes[f];
    BlockMapReady(fs, f);
    DirectOf(fs, f);
    if i.indirect != 0 { IndexSmall(fs, i.indirect); }
    if i.dbl != 0 { IndexSmall(fs, i.dbl); }
    InodeWord(fs, f, 2);
    InodeWord(fs, f, 15);
    InodeWord(fs, f, 16);
    forall k | 3 + i.blocks <= k < 15
      ensures Word(FinalDisk(fs), f, k) == 0
    {
      InodeWord(fs, f, k);
    }
    forall k | 17 <= k < 1024
      ensures Word(FinalDisk(fs), f, k) == 0
    {
      InodePadding(fs, f, k);
    }
  }

  lemma BlockMapReady(fs: Fs, f: nat)
    requires Core(fs, f)
    ensures BlockMap.Ready(fs, f)
    ensures var i := fs.inodes[f];
      |i.direct| == 12 && i.blocks <= 32768 && (i.indirect != 0 ==> i.indirect in fs.index) && (i.dbl != 0 ==> i.dbl in fs.index)
  {}

  lemma InodePadding(fs: Fs, f: nat, k: nat)
    requires Full(fs) && f in fs.inodes && 17 <= k < 1024
    ensures Word(FinalDisk(fs), f, k) == 0
  {
    hide FilesOk, LogOk, OnDisk, Flat;
    assert f in FinalDisk(fs);
    assert forall j :: 68 <= j < 4096 ==> FinalDisk(fs)[f][j] == 0;
  }

  lemma IndexZero(fs: Fs, b: nat, f: nat, w: nat)
    requires Full(fs) && f in fs.inodes && Clear(fs) && b in fs.index && fs.index[b].file == f && w < 1024
    requires Unused(fs.index[b].pos, w, fs.inodes[f].blocks)
    ensures Word(FinalDisk(fs), b, w) == 0
  {
    hide FilesOk, LogOk, OnDisk, Word, FinalDisk, Unused;
    assert IndexTail(fs.index[b], fs.inodes[f].blocks);
    CoreOf(fs, f);
    IndexWord(fs, b, w);
  }

  lemma InnerWord(fs: Fs, f: nat, q: nat)
    requires Full(fs) && f in fs.inodes && Core(fs, f) && fs.inodes[f].blocks > 1036 && q < 1024
    ensures var s := fs.inodes[f].dbl;
      && s in fs.index && |fs.index[s].words| == 1024
      && Word(FinalDisk(fs), s, q) == fs.index[s].words[q]
      && SlotOk(fs, fs.index[s].words[q], f, 2 + q, fs.inodes[f].blocks > 1036 + 1024 * q)
  {
    hide LogOk, OnDisk, Word, FinalDisk;
    var s := fs.inodes[f].dbl;
    assert SlotOk(fs, fs.index[s].words[q], f, 2 + q, fs.inodes[f].blocks > L1 + q * NENTRY);
    if fs.index[s].words[q] != 0 {
      IndexSmall(fs, fs.index[s].words[q]);
    }
    IndexWord(fs, s, q);
  }
}
