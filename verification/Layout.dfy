/** The image byte by byte. */
module Layout {
  import opened Bytes
  import opened Image
  import opened Store
  import opened Build
  import opened Disk
  import Arith
  import Bitmap
  import BlockMap
  import Space
  import Tree
  import TreeBuild
  import Refs
  import RoundTrip

  /** The little-endian number in the four bytes from o on. */
  function Le(bs: seq<byte>, o: nat): int
    requires o + 4 <= |bs|
  {
    var b0: int, b1: int, b2: int, b3: int := bs[o], bs[o + 1], bs[o + 2], bs[o + 3];
    b0 + 0x100 * b1 + 0x1_0000 * b2 + 0x100_0000 * b3
  }

  /** The words that decoding reads are little-endian numbers. */
  lemma WordIs(d: DiskImage, b: nat, i: nat)
    requires i < 1024 && b in d && |d[b]| == 4096
    ensures Word(d, b, i) == Le(d[b], 4 * i)
  {}

  /** Where an inode keeps its fields: size, type and link count (two bytes each), number of blocks, then the numbers of
      the first 12 blocks, of the indirect and of the double-indirect block. */
  lemma InodeFields(d: DiskImage, f: nat, host: nat)
    requires f in d && |d[f]| == 4096
    ensures var o, b := DiskObj(d, f, host), d[f];
      var b4: int, b5: int, b6: int, b7: int := b[4], b[5], b[6], b[7];
      && o.size == Le(b, 0) && o.kind == b4 + 0x100 * b5 && o.nlinks == b6 + 0x100 * b7
      && (Le(b, 8) <= 32768 ==>
            && |o.content| == Le(b, 8)
            && forall k :: 0 <= k < |o.content| ==>
                 var m := DiskBmap(d, f, k); o.content[k] == if m in d then d[m] else [])
  {
    WordIs(d, f, 0);
    WordIs(d, f, 1);
    WordIs(d, f, 2);
    Split16(d[f]);
  }

  lemma Split16(b: seq<byte>)
    requires |b| == 4096
    ensures var b4: int, b5: int, b6: int, b7: int := b[4], b[5], b[6], b[7];
      Le(b, 4) % 0x1_0000 == b4 + 0x100 * b5 && Le(b, 4) / 0x1_0000 == b6 + 0x100 * b7
  {}

  /** The number of block k of a file: in its inode up to 12, in the indirect block up to 1036, and else in one of the
      blocks that the double-indirect block names. */
  lemma MapLaw(d: DiskImage, f: nat, k: nat)
    requires f in d && |d[f]| == 4096 && k < 1049612
    ensures var s, t := Le(d[f], 60), Le(d[f], 64);
      && (k < 12 ==> DiskBmap(d, f, k) == Le(d[f], 12 + 4 * k))
      && (12 <= k < 1036 && s in d && |d[s]| == 4096 ==> DiskBmap(d, f, k) == Le(d[s], 4 * (k - 12)))
      && (k >= 1036 && t in d && |d[t]| == 4096 ==>
            var u := Le(d[t], 4 * ((k - 1036) / 1024));
            u in d && |d[u]| == 4096 ==> DiskBmap(d, f, k) == Le(d[u], 4 * ((k - 1036) % 1024)))
  {
    hide Le, Word;
    WordIs(d, f, 15);
    WordIs(d, f, 16);
    if k < 12 {
      WordIs(d, f, 3 + k);
    } else if k < 1036 {
      var s := Word(d, f, 15);
      if s in d && |d[s]| == 4096 { WordIs(d, s, k - 12); }
    } else {
      var t := Word(d, f, 16);
      if t in d && |d[t]| == 4096 {
        WordIs(d, t, (k - 1036) / 1024);
        var u := Word(d, t, (k - 1036) / 1024);
        if u in d && |d[u]| == 4096 { WordIs(d, u, (k - 1036) % 1024); }
      }
    }
  }

  // ---- the superblock ----

  /** After an accepted run block 0 holds the magic number, the number of blocks, the number of free ones, the label with
      its terminator, what memory held behind it, and zeros. */
  lemma SuperblockLaw(size: nat, slack: Slack, kids: seq<Entry>, n: nat, c: nat)
    requires Run(size, slack, kids).Ok? && Space.IsBlockCount(n, size) && Space.IsBitmapSize(c, n)
    ensures var d := FinalDisk(Run(size, slack, kids).value);
      && 0 in d && |d[0]| == 4096
      && Le(d[0], 0) == 0x2f8dbe2a && Le(d[0], 4) == n && Le(d[0], 8) == n - 2 - c - Space.Demand(kids)
      && (forall i :: 0 <= i < 18 ==> d[0][12 + i] == "simple file system"[i] as int) && d[0][30] == 0
      && d[0][31..44] == slack && (forall i :: 44 <= i < 4096 ==> d[0][i] == 0)
  {
    hide Run, FinalDisk, ReadWord, Space.IsBlockCount, Space.IsBitmapSize, Space.Fits, Space.Visible, Space.Demand, Space.Seen;
    Space.BuildSucceedsIff(size, slack, kids, n, c);
    var fs := Run(size, slack, kids).value;
    SuperBlockIs(fs);
    SuperOnDisk(fs);
    WordIs(FinalDisk(fs), 0, 0);
    WordIs(FinalDisk(fs), 0, 1);
    WordIs(FinalDisk(fs), 0, 2);
  }

  lemma SuperBlockIs(fs: Fs)
    requires Full(fs)
    ensures var d := FinalDisk(fs);
      && 0 in d && |d[0]| == 4096
      && (forall i :: 0 <= i < 18 ==> d[0][12 + i] == "simple file system"[i] as int) && d[0][30] == 0
      && d[0][31..44] == fs.slack && (forall i :: 44 <= i < 4096 ==> d[0][i] == 0)
  {
    hide FilesOk, LogOk, OnDisk, Flat;
    var b := FinalDisk(fs)[0];
    assert b == Flat([MAGIC, fs.ninos, fs.unused]) + (INFO + [0] + fs.slack) + Zeros(4052);
    assert b[12..44] == INFO + [0] + fs.slack;
    assert forall i :: 0 <= i < 18 ==> b[12 + i] == b[12..44][i] == INFO[i];
    assert b[31..44] == fs.slack;
  }

  // ---- the bytes of files, links and entries ----

  /** Byte j of chunk k of a file is byte 4096 k + j of the file, or 0 behind its end. */
  lemma {:induction false} ChunkBytes(data: seq<byte>, k: nat, j: nat)
    requires k < (|data| + 4095) / 4096 && j < 4096
    ensures var c := Tree.Chunks(data);
      && |c| == (|data| + 4095) / 4096 && |c[k]| == 4096
      && c[k][j] == if 4096 * k + j < |data| then data[4096 * k + j] else 0
    decreases |data|
  {
    RoundTrip.JoinChunks(data);
    var c := Chunk(data);
    var rest := data[|c|..];
    assert Tree.Chunks(data) == [Padded(c)] + Tree.Chunks(rest);
    if k > 0 {
      assert |c| == 4096;
      ChunkBytes(rest, k - 1, j);
    }
  }

  /** The blocks hold the bytes of data, each one 4096 of them, and behind the last byte zeros. */
  ghost predicate InBlocks(blocks: seq<seq<byte>>, data: seq<byte>) {
    && |blocks| == (|data| + 4095) / 4096
    && (forall k :: 0 <= k < |blocks| ==> |blocks[k]| == 4096)
    && forall k, j :: 0 <= k < |blocks| && 0 <= j < 4096 && j < |blocks[k]| ==>
         blocks[k][j] == if 4096 * k + j < |data| then data[4096 * k + j] else 0
  }

  lemma ChunksAre(data: seq<byte>)
    ensures InBlocks(Tree.Chunks(data), data)
  {
    hide Tree.Chunks;
    RoundTrip.JoinChunks(data);
    forall k, j | 0 <= k < (|data| + 4095) / 4096 && 0 <= j < 4096
      ensures var c := Tree.Chunks(data);
        |c[k]| == 4096 && c[k][j] == if 4096 * k + j < |data| then data[4096 * k + j] else 0
    {
      ChunkBytes(data, k, j);
    }
    forall k | 0 <= k < (|data| + 4095) / 4096
      ensures |Tree.Chunks(data)[k]| == 4096
    {
      ChunkBytes(data, k, 0);
    }
  }

  lemma SmallLinks(size: nat, slack: Slack, kids: seq<Entry>, f: nat)
    requires Run(size, slack, kids).Ok?
    ensures var v := View(Run(size, slack, kids).value); f in v ==> v[f].nlinks < 0x1_0000
  {
    hide Run, View, Refs.References;
    Refs.LinkCounts(size, slack, kids, f);
  }

  /** After an accepted run the image holds, for each host file h that it has, an inode of type 1 with the size of the
      file, and in its blocks the bytes of the file followed by zeros. */
  lemma FileLaw(size: nat, slack: Slack, kids: seq<Entry>, files: map<nat, seq<byte>>, h: nat)
    requires Run(size, slack, kids).Ok? && Tree.Hosted(kids, files) && 0 !in files && h in files
    requires h in Run(size, slack, kids).value.byReal
    ensures var fs := Run(size, slack, kids).value;
      var o := DiskObj(FinalDisk(fs), fs.byReal[h], 0);
      o.kind == 1 && o.size == |files[h]| && InBlocks(o.content, files[h])
  {
    hide FilesOk, LogOk, OnDisk, View, Run, FinalDisk, DiskObj, Tree.Chunks, Shape, InBlocks;
    var fs := Run(size, slack, kids).value;
    var data := files[h];
    RoundTrip.RunFiles(size, slack, kids, files);
    var f := fs.byReal[h];
    RoundTrip.JoinChunks(data);
    SmallLinks(size, slack, kids, f);
    Tree.ViewKeys(fs);
    RoundTrip.ContentLimit(fs, f);
    RoundTrip.ReadObj(fs, f);
    ChunksAre(data);
    assert Tree.IsFile(View(fs)[f], data) && DiskObj(FinalDisk(fs), f, 0) == View(fs)[f].(host := 0);
  }

  /** The block of a link target, or of the bytes of an entry, is filled up with zeros. */
  lemma PaddedBytes(data: seq<byte>, j: nat)
    requires |data| <= 4096 && j < 4096
    ensures |Padded(data)| == 4096 && Padded(data)[j] == if j < |data| then data[j] else 0
  {}

  /** A directory entry takes a block: the inode number in four bytes, lowest first, then the name and a zero byte, as far
      as they lie within the first 256 bytes, behind them up to byte 256 what the entry buffer held before, and zeros. */
  lemma EntryLaw(file: nat, buf: seq<byte>, name: seq<byte>)
    requires file < 0x1_0000_0000 && |buf| == 256 && |name| <= 255
    ensures var b := Tree.EntryBlock(file, StrCpy(buf, name));
      && |b| == 4096 && Le(b, 0) == file
      && (forall j :: 0 <= j < 252 ==> b[4 + j] == if j < |name| then name[j] else if j == |name| then 0 else buf[j])
      && (forall j :: 256 <= j < 4096 ==> b[j] == 0)
  {
    Tree.EntryNumber(file, StrCpy(buf, name));
  }

  // ---- the bitmap ----

  /** Bit t of a number, by division. */
  lemma {:induction false} BitIs(w: nat, t: nat)
    ensures Bitmap.Bit(w, t) <==> w / Arith.Pow2(t) % 2 == 1
  {
    if t > 0 {
      BitIs(w / 2, t - 1);
      DivTwice(w, Arith.Pow2(t - 1));
    }
  }

  lemma DivTwice(w: nat, p: nat)
    requires p > 0
    ensures w / 2 / p == w / (2 * p)
  {
    var q, r := w / 2 / p, w / 2 % p;
    assert w / 2 == p * q + r;
    assert w == (2 * p) * q + (2 * r + w % 2);
    Arith.DivUnique(w, 2 * p, q, 2 * r + w % 2);
  }

  /** Bit k of the bitmap is bit k % 8, the lowest being 0, of byte k / 8 of the blocks from 2 on; it is set iff block k
      is free. */
  lemma BitmapLaw(fs: Fs, k: nat, c: nat)
    requires Full(fs) && Space.IsBitmapSize(c, fs.ninos) && k < 32768 * c
    ensures var d := FinalDisk(fs);
      && 2 + k / 32768 in d && |d[2 + k / 32768]| == 4096
      && (d[2 + k / 32768][k % 32768 / 8] / Arith.Pow2(k % 8) % 2 == 1 <==> fs.next <= k < fs.ninos)
  {
    hide Full, FinalDisk, DiskBit, Bitmap.Bit, Arith.Pow2, FirstFree, Le;
    Space.FirstFreeIs(fs.ninos, c);
    Small(k, c);
    BitmapBytes(fs, k, c);
    FreeBitmap(fs, k);
    BitIs(FinalDisk(fs)[2 + k / 32768][k % 32768 / 8], k % 8);
  }

  lemma Small(k: nat, c: nat)
    requires k < 32768 * c
    ensures k / 32768 < c && k % 32768 / 32 < 1024 && k % 32768 / 8 < 4096
    ensures 4 * (k % 32768 / 32) + k % 32 / 8 == k % 32768 / 8 && k % 32 % 8 == k % 8
  {
    var n, x, t, u := k / 32768, k % 32768 / 32, k % 32768 % 32 / 8, k % 32768 % 32 % 8;
    Arith.DivUnique(k, 32, 1024 * n + x, 8 * t + u);
    Arith.DivUnique(k, 8, 4 * (1024 * n + x) + t, u);
    Arith.DivUnique(k % 32768, 8, 4 * x + t, u);
    Arith.DivUnique(8 * t + u, 8, t, u);
  }

  lemma BitmapBytes(fs: Fs, k: nat, c: nat)
    requires Full(fs) && FirstFree(fs.ninos) == 2 + c && k < 32768 * c
    ensures var d := FinalDisk(fs);
      && 2 + k / 32768 in d && |d[2 + k / 32768]| == 4096
      && (DiskBit(d, k) <==> Bitmap.Bit(d[2 + k / 32768][k % 32768 / 8], k % 8))
  {
    hide Full, FinalDisk, Bitmap.Bit, FirstFree, Le, Bitmap.BitmapWords, Flat, ReadWord;
    Small(k, c);
    BitmapBlockOnDisk(fs, k / 32768);
    WordIs(FinalDisk(fs), 2 + k / 32768, k % 32768 / 32);
    ByteBit(FinalDisk(fs)[2 + k / 32768], k % 32768 / 32, k % 32);
  }

  /** Bit t of a little-endian word is bit t % 8 of its byte t / 8. */
  lemma ByteBit(bs: seq<byte>, i: nat, t: nat)
    requires 4 * i + 4 <= |bs| && t < 32
    ensures Le(bs, 4 * i) >= 0
    ensures Bitmap.Bit(Le(bs, 4 * i), t) == Bitmap.Bit(bs[4 * i + t / 8], t % 8)
  {
    hide Bitmap.Bit;
    var b0: int, b1: int, b2: int, b3: int := bs[4 * i], bs[4 * i + 1], bs[4 * i + 2], bs[4 * i + 3];
    LowByte(b0, b1 + 0x100 * b2 + 0x1_0000 * b3, t);
    if t >= 8 {
      LowByte(b1, b2 + 0x100 * b3, t - 8);
      if t >= 16 {
        LowByte(b2, b3, t - 16);
      }
    }
  }

  lemma LowByte(b: nat, w: nat, t: nat)
    requires b < 256
    ensures t < 8 ==> Bitmap.Bit(b + 0x100 * w, t) == Bitmap.Bit(b, t)
    ensures t >= 8 ==> Bitmap.Bit(b + 0x100 * w, t) == Bitmap.Bit(w, t - 8)
  {
    Halve(b, 8, w, t);
  }

  /** The lower e bits of a number are those of its remainder by 2^e, the others those of the quotient. */
  lemma {:induction false} Halve(b: nat, e: nat, w: nat, t: nat)
    requires b < Arith.Pow2(e)
    ensures Bitmap.Bit(b + Arith.Pow2(e) * w, t) == if t < e then Bitmap.Bit(b, t) else Bitmap.Bit(w, t - e)
  {
    if e > 0 {
      var p := Arith.Pow2(e - 1);
      assert b + 2 * p * w == b + 2 * (p * w);
      assert (b + 2 * (p * w)) / 2 == b / 2 + p * w && (b + 2 * (p * w)) % 2 == b % 2;
      if t > 0 {
        Halve(b / 2, e - 1, w, t - 1);
      }
    }
  }
}
