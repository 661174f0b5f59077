/** Direct, indirect and double-indirect blocks refine the sequence of the blocks appended to a file. */
module BlockMap {
  import Bytes
  import Wrappers
  import opened Image

  predicate Ready(fs: Fs, f: nat) {
    f in fs.inodes && WordsOk(fs) && FileOk(fs, f)
  }

  /** The block number found for logical block k by walking the direct and index blocks. */
  function Bmap(fs: Fs, f: nat, k: nat): nat
    requires Ready(fs, f) && k < fs.inodes[f].blocks
  {
    var i := fs.inodes[f];
    if k < L0 then i.direct[k]
    else if k < L1 then fs.index[i.indirect].words[k - L0]
    else
      var s := fs.index[i.dbl].words[(k - L1) / NENTRY];
      fs.index[s].words[(k - L1) % NENTRY]
  }

  function Blocks(fs: Fs, f: nat): (r: seq<nat>)
    requires Ready(fs, f)
    ensures |r| == fs.inodes[f].blocks
  {
    seq(fs.inodes[f].blocks, k requires 0 <= k < fs.inodes[f].blocks => Bmap(fs, f, k))
  }

  /** No index block of another file than f changes. */
  ghost predicate IndexFrame(fs: Fs, fs': Fs, f: nat) {
    && (forall b <- fs.index :: b in fs'.index && (fs.index[b].file == f || fs'.index[b] == fs.index[b]))
    && WordsOk(fs')
  }

  lemma OtherFile(fs: Fs, fs': Fs, f: nat, g: nat)
    requires IndexFrame(fs, fs', f) && f != g
    requires Ready(fs, g) && g in fs'.inodes && fs'.inodes[g] == fs.inodes[g]
    ensures Ready(fs', g) && Blocks(fs', g) == Blocks(fs, g)
  {}

  // ---- appending ----

  /** What fs' says about file f after one more block. */
  ghost predicate Appended(fs: Fs, fs': Fs, f: nat, b: nat) {
    && Ready(fs, f) && Ready(fs', f)
    && IndexFrame(fs, fs', f)
    && Blocks(fs', f) == Blocks(fs, f) + [b]
  }

  lemma AppendDirect(fs: Fs, f: nat, size: nat, b: nat)
    requires Core(fs, f) && fs.inodes[f].blocks < L0
    ensures AppendBlock(fs, f, size, b).Ok? && Appended(fs, AppendBlock(fs, f, size, b).value, f, b)
  {
  }

  /** The index blocks after UpdateSlot: an old slot is kept, a new one is a fresh block full of zeros. */
  ghost predicate SlotGiven(ix: map<nat, Index>, ix': map<nat, Index>, slot: nat, s: nat, f: nat, pos: nat) {
    if slot != 0 then ix' == ix && s == slot
    else s !in ix && s != 0 && ix' == ix[s := Index(Bytes.Zeros(NENTRY), f, pos)]
  }

  lemma SlotLemma(fs: Fs, slot: nat, f: nat, pos: nat)
    requires fs.next > 0 && (forall b <- fs.index :: b < fs.next)
    ensures var u := UpdateSlot(fs, slot, f, pos);
      if u.Ok? then
        && SlotGiven(fs.index, u.value.0.index, slot, u.value.1, f, pos)
        && u.value.0.inodes == fs.inodes && u.value.0.next >= fs.next
        && forall b <- u.value.0.index :: b < u.value.0.next
      else slot == 0 && fs.next >= fs.ninos && u == Wrappers.Err(Wrappers.NoSpace)
  {}

  lemma IndirectReady(fs: Fs, f: nat, size: nat, b: nat)
    requires Core(fs, f) && L0 <= fs.inodes[f].blocks < L1 && AppendL1(fs, f, size, b).Ok?
    ensures Ready(AppendL1(fs, f, size, b).value, f)
  {
    SlotLemma(fs, fs.inodes[f].indirect, f, 0);
  }

  lemma AppendIndirect(fs: Fs, f: nat, size: nat, b: nat)
    requires Core(fs, f) && L0 <= fs.inodes[f].blocks < L1
    requires AppendL1(fs, f, size, b).Ok?
    ensures Appended(fs, AppendL1(fs, f, size, b).value, f, b)
  {
    var i := fs.inodes[f];
    SlotLemma(fs, i.indirect, f, 0);
    var (fs1, s) := UpdateSlot(fs, i.indirect, f, 0).value;
    var fs' := AppendL1(fs, f, size, b).value;
    IndirectReady(fs, f, size, b);
    assert IndexFrame(fs, fs', f);
    forall k | 0 <= k < i.blocks
      ensures Bmap(fs', f, k) == Bmap(fs, f, k)
    {
    }
  }

  predicate Wide(ix: map<nat, Index>) {
    forall b <- ix :: |ix[b].words| == NENTRY
  }

  function WordsOrZeros(ix: map<nat, Index>, b: nat): (r: seq<nat>)
    requires Wide(ix) && (b != 0 ==> b in ix)
    ensures |r| == NENTRY
  {
    if b != 0 then ix[b].words else Bytes.Zeros(NENTRY)
  }

  /** The index blocks after a double-indirect append of b at word r of block s1, word q of block s2. */
  ghost predicate L2Given(ix: map<nat, Index>, ix': map<nat, Index>, dbl: nat, f: nat, b: nat, q: nat, r: nat, s2: nat, s1: nat)
    requires Wide(ix) && (dbl != 0 ==> dbl in ix) && q < NENTRY && r < NENTRY
  {
    var w2 := WordsOrZeros(ix, dbl);
    && s2 != s1 && s2 != 0 && s1 != 0
    && (if dbl != 0 then s2 == dbl else s2 !in ix)
    && (if w2[q] != 0 then s1 == w2[q] && s1 in ix else s1 !in ix)
    && ix' == ix[s2 := Index(w2[q := s1], f, 1)][s1 := Index(WordsOrZeros(ix, w2[q])[r := b], f, 2 + q)]
  }

  lemma L2FromSlots(ix: map<nat, Index>, ix1: map<nat, Index>, ix2: map<nat, Index>,
                    dbl: nat, f: nat, b: nat, q: nat, r: nat, s2: nat, s1: nat)
    requires Wide(ix) && q < NENTRY && r < NENTRY
    requires dbl != 0 ==> dbl in ix && ix[dbl].file == f && ix[dbl].pos == 1
    requires var w := WordsOrZeros(ix, dbl)[q]; w != 0 ==> w in ix && ix[w].file == f && ix[w].pos == 2 + q
    requires SlotGiven(ix, ix1, dbl, s2, f, 1)
    requires SlotGiven(ix1, ix2, ix1[s2].words[q], s1, f, 2 + q)
    ensures L2Given(ix, SetWord(SetWord(ix2, s2, q, s1), s1, r, b), dbl, f, b, q, r, s2, s1)
  {
    assert s1 != s2;
  }

  lemma L2Shape(fs: Fs, f: nat, size: nat, b: nat) returns (s2: nat, s1: nat)
    requires Core(fs, f) && L1 <= fs.inodes[f].blocks < LN
    requires AppendL2(fs, f, size, b).Ok?
    ensures AppendL2(fs, f, size, b).value.inodes == fs.inodes[f := Grow(fs.inodes[f], size).(dbl := s2)]
    ensures var i := fs.inodes[f];
      L2Given(fs.index, AppendL2(fs, f, size, b).value.index, i.dbl, f, b,
              (i.blocks - L1) / NENTRY, (i.blocks - L1) % NENTRY, s2, s1)
  {
    var i := fs.inodes[f];
    var q := (i.blocks - L1) / NENTRY;
    SlotLemma(fs, i.dbl, f, 1);
    var (fs1, s2') := UpdateSlot(fs, i.dbl, f, 1).value;
    var slot := fs1.index[s2'].words[q];
    assert i.dbl != 0 ==> SlotOk(fs, slot, f, 2 + q, i.blocks > L1 + q * NENTRY);
    SlotLemma(fs1, slot, f, 2 + q);
    var (fs2, s1') := UpdateSlot(fs1, slot, f, 2 + q).value;
    s2, s1 := s2', s1';
    L2FromSlots(fs.index, fs1.index, fs2.index, i.dbl, f, b, q, (i.blocks - L1) % NENTRY, s2, s1);
  }

  lemma L2Ready(fs: Fs, fs': Fs, f: nat, size: nat, b: nat, s2: nat, s1: nat)
    requires Core(fs, f) && L1 <= fs.inodes[f].blocks < LN
    requires fs'.inodes == fs.inodes[f := Grow(fs.inodes[f], size).(dbl := s2)]
    requires var n := fs.inodes[f].blocks;
      L2Given(fs.index, fs'.index, fs.inodes[f].dbl, f, b, (n - L1) / NENTRY, (n - L1) % NENTRY, s2, s1)
    ensures Ready(fs', f) && IndexFrame(fs, fs', f)
  {
    var i := fs.inodes[f];
    var q0 := (i.blocks - L1) / NENTRY;
    var w2 := WordsOrZeros(fs.index, i.dbl);
    forall q | 0 <= q < NENTRY
      ensures SlotOk(fs', w2[q0 := s1][q], f, 2 + q, i.blocks + 1 > L1 + q * NENTRY)
    {
      assert i.dbl != 0 ==> SlotOk(fs, w2[q], f, 2 + q, i.blocks > L1 + q * NENTRY);
    }
  }

  lemma L2Same(fs: Fs, fs': Fs, f: nat, size: nat, b: nat, s2: nat, s1: nat, k: nat)
    requires Core(fs, f) && L1 <= fs.inodes[f].blocks < LN && Ready(fs', f)
    requires fs'.inodes == fs.inodes[f := Grow(fs.inodes[f], size).(dbl := s2)]
    requires var n := fs.inodes[f].blocks;
      L2Given(fs.index, fs'.index, fs.inodes[f].dbl, f, b, (n - L1) / NENTRY, (n - L1) % NENTRY, s2, s1)
    requires k < fs.inodes[f].blocks
    ensures Bmap(fs', f, k) == Bmap(fs, f, k)
  {
    if k >= L1 {
      var q := (k - L1) / NENTRY;
      assert SlotOk(fs, fs.index[fs.inodes[f].dbl].words[q], f, 2 + q, fs.inodes[f].blocks > L1 + q * NENTRY);
    }
  }

  lemma L2Last(fs: Fs, fs': Fs, f: nat, size: nat, b: nat, s2: nat, s1: nat)
    requires Core(fs, f) && L1 <= fs.inodes[f].blocks < LN && Ready(fs', f)
    requires fs'.inodes == fs.inodes[f := Grow(fs.inodes[f], size).(dbl := s2)]
    requires var n := fs.inodes[f].blocks;
      L2Given(fs.index, fs'.index, fs.inodes[f].dbl, f, b, (n - L1) / NENTRY, (n - L1) % NENTRY, s2, s1)
    ensures Bmap(fs', f, fs.inodes[f].blocks) == b
  {}

  lemma L2Map(fs: Fs, fs': Fs, f: nat, size: nat, b: nat, s2: nat, s1: nat)
    requires Core(fs, f) && L1 <= fs.inodes[f].blocks < LN && Ready(fs', f)
    requires fs'.inodes == fs.inodes[f := Grow(fs.inodes[f], size).(dbl := s2)]
    requires var n := fs.inodes[f].blocks;
      L2Given(fs.index, fs'.index, fs.inodes[f].dbl, f, b, (n - L1) / NENTRY, (n - L1) % NENTRY, s2, s1)
    ensures Blocks(fs', f) == Blocks(fs, f) + [b]
  {
    hide Bmap, L2Given, WordsOk;
    forall k | 0 <= k < fs.inodes[f].blocks
      ensures Bmap(fs', f, k) == Bmap(fs, f, k)
    {
      L2Same(fs, fs', f, size, b, s2, s1, k);
    }
    L2Last(fs, fs', f, size, b, s2, s1);
  }

  // ---- space ----

  /** Index blocks of a file of n blocks. */
  function IndexBlocks(n: nat): nat {
    if n <= L0 then 0 else if n <= L1 then 1 else 2 + (n - L1 + NENTRY - 1) / NENTRY
  }

  /** All blocks of a file of n data blocks, without its inode. */
  function FileBlocks(n: nat): nat {
    n + IndexBlocks(n)
  }

  /** The result r of appending to file f: whether there is room, and that nothing but the index blocks, the free counts
      and inode f changes. */
  predicate Spent(r: Wrappers.Result<Fs>, fs: Fs, f: nat, size: nat)
    requires f in fs.inodes
  {
    var n := fs.inodes[f].blocks;
    var cost := IndexBlocks(n + 1) - IndexBlocks(n);
    && (r.Ok? <==> n < LN && (cost == 0 || fs.next + cost <= fs.ninos))
    && (r.Err? && n < LN ==> r.error == Wrappers.NoSpace)
    && (r.Ok? ==>
          && f in r.value.inodes
          && r.value.inodes == fs.inodes[f := r.value.inodes[f]]
          && r.value.inodes[f] == Grow(fs.inodes[f], size).(direct := r.value.inodes[f].direct,
                                    indirect := r.value.inodes[f].indirect, dbl := r.value.inodes[f].dbl)
          && r.value == fs.(inodes := r.value.inodes, index := r.value.index,
                            next := fs.next + cost, unused := fs.unused - cost))
  }

  lemma AppendL1Space(fs: Fs, f: nat, size: nat, b: nat)
    requires Core(fs, f) && L0 <= fs.inodes[f].blocks < L1
    ensures Spent(AppendL1(fs, f, size, b), fs, f, size)
  {}

  lemma AppendL2Space(fs: Fs, f: nat, size: nat, b: nat)
    requires Core(fs, f) && L1 <= fs.inodes[f].blocks < LN
    ensures Spent(AppendL2(fs, f, size, b), fs, f, size)
  {
    var i := fs.inodes[f];
    var q := (i.blocks - L1) / NENTRY;
    assert i.dbl != 0 ==> SlotOk(fs, fs.index[i.dbl].words[q], f, 2 + q, i.blocks > L1 + q * NENTRY);
  }

  /** Appending succeeds exactly when the file may grow and the index blocks it needs are free; nothing but
      the index blocks, the free counts and inode f changes. */
  lemma AppendSpace(fs: Fs, f: nat, size: nat, b: nat)
    requires Core(fs, f)
    ensures IndexBlocks(fs.inodes[f].blocks + 1) >= IndexBlocks(fs.inodes[f].blocks)
    ensures Spent(AppendBlock(fs, f, size, b), fs, f, size)
  {
    hide AppendL1, AppendL2;
    var n := fs.inodes[f].blocks;
    if L0 <= n < L1 {
      AppendL1Space(fs, f, size, b);
    } else if L1 <= n < LN {
      AppendL2Space(fs, f, size, b);
    }
  }

  /** Exactly the blocks taken from the free area become index blocks. */
  lemma AppendIndexKeys(fs: Fs, f: nat, size: nat, b: nat)
    requires Core(fs, f) && AppendBlock(fs, f, size, b).Ok?
    ensures var r := AppendBlock(fs, f, size, b).value;
      forall c: nat :: c in r.index <==> c in fs.index || fs.next <= c < r.next
  {
    var i := fs.inodes[f];
    var n := i.blocks;
    if L0 <= n < L1 {
      SlotLemma(fs, i.indirect, f, 0);
    } else if L1 <= n < LN {
      var q := (n - L1) / NENTRY;
      assert i.dbl != 0 ==> SlotOk(fs, fs.index[i.dbl].words[q], f, 2 + q, n > L1 + q * NENTRY);
      SlotLemma(fs, i.dbl, f, 1);
    }
  }

  /** The walk through direct and index blocks after appending b: the old walk followed by b. */
  lemma AppendRefines(fs: Fs, f: nat, size: nat, b: nat)
    requires Core(fs, f) && AppendBlock(fs, f, size, b).Ok?
    ensures Appended(fs, AppendBlock(fs, f, size, b).value, f, b)
  {
    var n := fs.inodes[f].blocks;
    if n < L0 {
      AppendDirect(fs, f, size, b);
    } else if n < L1 {
      AppendIndirect(fs, f, size, b);
    } else {
      var fs' := AppendL2(fs, f, size, b).value;
      var s2, s1 := L2Shape(fs, f, size, b);
      L2Ready(fs, fs', f, size, b, s2, s1);
      L2Map(fs, fs', f, size, b, s2, s1);
    }
  }

  /** Appending to f leaves the map of every other file alone. */
  lemma AppendOther(fs: Fs, f: nat, size: nat, b: nat, g: nat)
    requires Core(fs, f) && Ready(fs, g) && f != g && AppendBlock(fs, f, size, b).Ok?
    ensures var fs' := AppendBlock(fs, f, size, b).value;
      Ready(fs', g) && fs'.inodes[g] == fs.inodes[g] && Blocks(fs', g) == Blocks(fs, g)
  {
    AppendSpace(fs, f, size, b);
    AppendRefines(fs, f, size, b);
    OtherFile(fs, AppendBlock(fs, f, size, b).value, f, g);
  }

  lemma AppendOthers(fs: Fs, f: nat, size: nat, b: nat)
    requires Core(fs, f) && FilesOk(fs) && AppendBlock(fs, f, size, b).Ok?
    ensures var fs' := AppendBlock(fs, f, size, b).value;
      && FilesOk(fs') && fs'.disk == fs.disk && fs'.inodes.Keys == fs.inodes.Keys
      && forall g <- fs.inodes | g != f ::
           Ready(fs, g) && Ready(fs', g) && fs'.inodes[g] == fs.inodes[g] && Blocks(fs', g) == Blocks(fs, g)
  {
    hide AppendBlock, IndexBlocks, Bmap, Blocks, FileOk, WordsOk, Grow;
    AppendSpace(fs, f, size, b);
    AppendRefines(fs, f, size, b);
    forall g | g in fs.inodes && g != f
      ensures var fs' := AppendBlock(fs, f, size, b).value;
        Ready(fs, g) && Ready(fs', g) && fs'.inodes[g] == fs.inodes[g] && Blocks(fs', g) == Blocks(fs, g)
    {
      AppendOther(fs, f, size, b, g);
    }
  }

  lemma AppendShape(fs: Fs, f: nat, size: nat, b: nat)
    requires Core(fs, f) && Shape(fs) && AppendBlock(fs, f, size, b).Ok?
    ensures Shape(AppendBlock(fs, f, size, b).value)
  {
    AppendSpace(fs, f, size, b);
    AppendIndexKeys(fs, f, size, b);
  }
}
