/**
 The on-disk structures of the file system as values: the free bitmap, block pointers (direct
 and through the indirect block), which block belongs to which file, and a file as bytes.
 */
module FsLayout {
  import opened Params

  const NDIRECT := 12
  const NINDIRECT := BSIZE / 4
  const MAXFILE := NDIRECT + NINDIRECT
  const INDIRECT: nat := MAXFILE      // the slot of the indirect block itself
  const BPB := BSIZE * 8
  const IPB := 8

  type Byte = x: int | 0 <= x < 256

  type Block = seq<Byte>

  function Zeros(): (b: Block)
    ensures |b| == BSIZE && forall i | 0 <= i < BSIZE :: b[i] == 0
  {
    seq(BSIZE, i => 0)
  }

  // ----- Bits

  function Mask(i: nat): bv8
    requires i < 8
  {
    match i
    case 0 => 0x01
    case 1 => 0x02
    case 2 => 0x04
    case 3 => 0x08
    case 4 => 0x10
    case 5 => 0x20
    case 6 => 0x40
    case _ => 0x80
  }

  predicate TestBit(x: bv8, i: nat)
    requires i < 8
  {
    x & Mask(i) != 0
  }

  function SetBit(x: bv8, i: nat): bv8
    requires i < 8
  {
    x | Mask(i)
  }

  function ClearBit(x: bv8, i: nat): bv8
    requires i < 8
  {
    x & !Mask(i)
  }

  lemma MaskBits(x: bv8, i: nat, j: nat)
    requires i < 8 && j < 8
    ensures TestBit(SetBit(x, i), j) <==> i == j || TestBit(x, j)
    ensures TestBit(ClearBit(x, i), j) <==> i != j && TestBit(x, j)
  {
  }

  predicate Marked(bitmap: seq<bv8>, b: nat)
    requires b < 8 * |bitmap|
  {
    TestBit(bitmap[b / 8], b % 8)
  }

  function Mark(bitmap: seq<bv8>, b: nat): (r: seq<bv8>)
    requires b < 8 * |bitmap|
    ensures |r| == |bitmap|
  {
    bitmap[b / 8 := SetBit(bitmap[b / 8], b % 8)]
  }

  function Unmark(bitmap: seq<bv8>, b: nat): (r: seq<bv8>)
    requires b < 8 * |bitmap|
    ensures |r| == |bitmap|
  {
    bitmap[b / 8 := ClearBit(bitmap[b / 8], b % 8)]
  }

  lemma SameBit(b: nat, c: nat)
    ensures b == c <==> b / 8 == c / 8 && b % 8 == c % 8
  {
  }

  /** Marking a block marks that block and no other; unmarking undoes exactly that. */
  lemma MarkIs(bitmap: seq<bv8>, b: nat, c: nat)
    requires b < 8 * |bitmap| && c < 8 * |bitmap|
    ensures Marked(Mark(bitmap, b), c) <==> c == b || Marked(bitmap, c)
    ensures Marked(Unmark(bitmap, b), c) <==> c != b && Marked(bitmap, c)
  {
    hide TestBit, SetBit, ClearBit;
    SameBit(b, c);
    MaskBits(bitmap[b / 8], b % 8, c % 8);
  }

  // ----- Words

  /** The 32-bit little-endian word `j` of a block. */
  function Word(b: Block, j: nat): nat
    requires 4 * j + 4 <= |b|
  {
    b[4 * j] as int + 256 * (b[4 * j + 1] as int) + 65536 * (b[4 * j + 2] as int) + 16777216 * (b[4 * j + 3] as int)
  }

  function PutWord(b: Block, j: nat, w: nat): (r: Block)
    requires 4 * j + 4 <= |b|
    ensures |r| == |b|
  {
    b[4 * j := w % 256][4 * j + 1 := w / 256 % 256][4 * j + 2 := w / 65536 % 256][4 * j + 3 := w / 16777216 % 256]
  }

  lemma WordOfPut(b: Block, j: nat, w: nat, k: nat)
    requires 4 * j + 4 <= |b| && 4 * k + 4 <= |b| && w < U32
    ensures Word(PutWord(b, j, w), k) == if k == j then w else Word(b, k)
  {
    if k == j {
      Bytes(w);
    }
  }

  lemma Bytes(w: nat)
    requires w < U32
    ensures w == w % 256 + 256 * (w / 256 % 256) + 65536 * (w / 65536 % 256) + 16777216 * (w / 16777216 % 256)
  {
    assert w / 65536 == w / 256 / 256 && w / 16777216 == w / 256 / 256 / 256;
  }

  // ----- Inodes and their block pointers

  datatype Inode = Inode(size: nat, addrs: seq<nat>)

  predicate InodeOk(ip: Inode) {
    |ip.addrs| == NDIRECT + 1
  }

  predicate BlocksOk(blocks: seq<Block>) {
    forall b | 0 <= b < |blocks| :: |blocks[b]| == BSIZE
  }

  predicate ShapeOk(inodes: map<nat, Inode>, blocks: seq<Block>) {
    && BlocksOk(blocks)
    && forall i | i in inodes :: InodeOk(inodes[i]) && inodes[i].addrs[NDIRECT] < |blocks|
  }

  /** The block number in a slot: block `s` of the file, or the indirect block; 0 when there is none. */
  function Ptr(ip: Inode, blocks: seq<Block>, s: nat): nat
    requires InodeOk(ip) && ip.addrs[NDIRECT] < |blocks| && BlocksOk(blocks) && s <= INDIRECT
  {
    if s < NDIRECT then ip.addrs[s]
    else if s == INDIRECT then ip.addrs[NDIRECT]
    else if ip.addrs[NDIRECT] == 0 then 0
    else Word(blocks[ip.addrs[NDIRECT]], s - NDIRECT)
  }

  type Slot = (nat, nat)

  /** All slots of all inodes. */
  ghost function Table(inodes: map<nat, Inode>, blocks: seq<Block>): (t: map<Slot, nat>)
    requires ShapeOk(inodes, blocks)
    ensures forall i, s :: (i, s) in t <==> i in inodes && 0 <= s <= INDIRECT
    ensures forall i, s | (i, s) in t :: t[(i, s)] == Ptr(inodes[i], blocks, s)
  {
    map i, s | i in inodes && 0 <= s <= INDIRECT :: (i, s) := Ptr(inodes[i], blocks, s)
  }

  /** The block number in a slot of a table. */
  ghost function PtrAt(t: map<Slot, nat>, i: nat, s: nat): nat {
    if (i, s) in t then t[(i, s)] else 0
  }

  // ----- Ownership

  /** Blocks below `first` hold the log, inodes and bitmap; `first` to `size` are for files. */
  datatype Geometry = Geometry(first: nat, size: nat, bmapstart: nat, inodestart: nat) {
    predicate Valid() {
      1 <= first <= size < U32
    }
  }

  /** Every pointer leads to a file block that belongs to this slot alone; a block is marked in the bitmap
      exactly when it is metadata or belongs to a slot. */
  ghost predicate Owned(g: Geometry, t: map<Slot, nat>, owner: map<nat, Slot>, bitmap: seq<bv8>) {
    && g.Valid() && g.size <= 8 * |bitmap|
    && (forall k | k in t && t[k] != 0 :: t[k] in owner && owner[t[k]] == k)
    && (forall p | p in owner :: g.first <= p < g.size && owner[p] in t && t[owner[p]] == p)
    && (forall b: nat | b < g.size :: Marked(bitmap, b) <==> b < g.first || b in owner)
  }

  lemma OwnedGrows(g: Geometry, t: map<Slot, nat>, owner: map<nat, Slot>, bitmap: seq<bv8>, k: Slot, b: nat)
    requires Owned(g, t, owner, bitmap) && k in t && t[k] == 0 && b < g.size && !Marked(bitmap, b)
    ensures g.first <= b && b !in owner
    ensures Owned(g, t[k := b], owner[b := k], Mark(bitmap, b))
  {
    forall c: nat | c < g.size ensures Marked(Mark(bitmap, b), c) <==> c < g.first || c in owner[b := k] {
      MarkIs(bitmap, b, c);
    }
  }

  lemma OwnedShrinks(g: Geometry, t: map<Slot, nat>, owner: map<nat, Slot>, bitmap: seq<bv8>, k: Slot)
    requires Owned(g, t, owner, bitmap) && k in t && t[k] != 0
    ensures t[k] < g.size && Marked(bitmap, t[k])
    ensures Owned(g, t[k := 0], owner - {t[k]}, Unmark(bitmap, t[k]))
  {
    var b := t[k];
    forall c: nat | c < g.size ensures Marked(Unmark(bitmap, b), c) <==> c < g.first || c in owner - {b} {
      MarkIs(bitmap, b, c);
    }
  }

  // ----- Attaching a fresh block to a slot

  lemma TableUpdated(inodes: map<nat, Inode>, blocks: seq<Block>, inodes': map<nat, Inode>, blocks': seq<Block>, k: Slot, v: nat)
    requires ShapeOk(inodes, blocks) && ShapeOk(inodes', blocks') && inodes'.Keys == inodes.Keys
    requires k.0 in inodes && k.1 <= INDIRECT
    requires forall i, s: nat | i in inodes && s <= INDIRECT ::
      Ptr(inodes'[i], blocks', s) == if (i, s) == k then v else Ptr(inodes[i], blocks, s)
    ensures Table(inodes', blocks') == Table(inodes, blocks)[k := v]
  {
    var t, t' := Table(inodes, blocks), Table(inodes', blocks');
    assert (k.0, k.1) in t;
    forall x: Slot ensures x in t' <==> x in t[k := v] {
      assert x == (x.0, x.1);
    }
    forall x: Slot | x in t' ensures t'[x] == t[k := v][x] {
      assert x == (x.0, x.1);
      assert (x.0, x.1) in t;
    }
  }

  lemma OtherPtr(ip: Inode, blocks: seq<Block>, blocks': seq<Block>, s: nat)
    requires BlocksOk(blocks) && BlocksOk(blocks') && |blocks| == |blocks'|
    requires InodeOk(ip) && ip.addrs[NDIRECT] < |blocks| && s <= INDIRECT
    requires ip.addrs[NDIRECT] != 0 ==> blocks'[ip.addrs[NDIRECT]] == blocks[ip.addrs[NDIRECT]]
    ensures Ptr(ip, blocks', s) == Ptr(ip, blocks, s)
  {
  }

  lemma AttachDirect(inodes: map<nat, Inode>, blocks: seq<Block>, inum: nat, s: nat, b: nat)
    requires ShapeOk(inodes, blocks) && inum in inodes && s < NDIRECT && b < |blocks|
    requires forall i | i in inodes :: inodes[i].addrs[NDIRECT] != b || b == 0
    ensures var inodes' := inodes[inum := inodes[inum].(addrs := inodes[inum].addrs[s := b])];
            && ShapeOk(inodes', blocks[b := Zeros()])
            && Table(inodes', blocks[b := Zeros()]) == Table(inodes, blocks)[(inum, s) := b]
  {
    var inodes' := inodes[inum := inodes[inum].(addrs := inodes[inum].addrs[s := b])];
    var blocks' := blocks[b := Zeros()];
    forall i, t: nat | i in inodes && t <= INDIRECT
      ensures Ptr(inodes'[i], blocks', t) == if (i, t) == (inum, s) then b else Ptr(inodes[i], blocks, t)
    {
      OtherPtr(inodes'[i], blocks, blocks', t);
    }
    TableUpdated(inodes, blocks, inodes', blocks', (inum, s), b);
  }

  lemma ZeroWords(j: nat)
    requires 4 * j + 4 <= BSIZE
    ensures Word(Zeros(), j) == 0
  {
  }

  lemma AttachIndirect(inodes: map<nat, Inode>, blocks: seq<Block>, inum: nat, b: nat)
    requires ShapeOk(inodes, blocks) && inum in inodes && b < |blocks|
    requires inodes[inum].addrs[NDIRECT] == 0
    requires forall i | i in inodes :: inodes[i].addrs[NDIRECT] != b || b == 0
    ensures var inodes' := inodes[inum := inodes[inum].(addrs := inodes[inum].addrs[NDIRECT := b])];
            && ShapeOk(inodes', blocks[b := Zeros()])
            && Table(inodes', blocks[b := Zeros()]) == Table(inodes, blocks)[(inum, INDIRECT) := b]
  {
    hide Table, Word;
    var inodes' := inodes[inum := inodes[inum].(addrs := inodes[inum].addrs[NDIRECT := b])];
    var blocks' := blocks[b := Zeros()];
    forall i, t: nat | i in inodes && t <= INDIRECT
      ensures Ptr(inodes'[i], blocks', t) == if (i, t) == (inum, INDIRECT) then b else Ptr(inodes[i], blocks, t)
    {
      if i != inum {
        OtherPtr(inodes[i], blocks, blocks', t);
      } else if NDIRECT <= t < INDIRECT {
        ZeroWords(t - NDIRECT);
      }
    }
    TableUpdated(inodes, blocks, inodes', blocks', (inum, INDIRECT), b);
  }

  lemma AttachWord(inodes: map<nat, Inode>, blocks: seq<Block>, inum: nat, s: nat, b: nat)
    requires ShapeOk(inodes, blocks) && inum in inodes && NDIRECT <= s < INDIRECT && b < |blocks| && b < U32
    requires inodes[inum].addrs[NDIRECT] != 0
    requires forall i | i in inodes :: inodes[i].addrs[NDIRECT] != b
    requires forall i | i in inodes && i != inum :: inodes[i].addrs[NDIRECT] != inodes[inum].addrs[NDIRECT]
    ensures var d := inodes[inum].addrs[NDIRECT];
            var blocks1 := blocks[b := Zeros()];
            var blocks2 := blocks1[d := PutWord(blocks1[d], s - NDIRECT, b)];
            && ShapeOk(inodes, blocks2)
            && Table(inodes, blocks2) == Table(inodes, blocks)[(inum, s) := b]
  {
    hide Table, Word, PutWord;
    var d := inodes[inum].addrs[NDIRECT];
    var blocks1 := blocks[b := Zeros()];
    var blocks2 := blocks1[d := PutWord(blocks1[d], s - NDIRECT, b)];
    forall i, t: nat | i in inodes && t <= INDIRECT
      ensures Ptr(inodes[i], blocks2, t) == if (i, t) == (inum, s) then b else Ptr(inodes[i], blocks, t)
    {
      if i != inum {
        OtherPtr(inodes[i], blocks, blocks2, t);
      } else if NDIRECT <= t < INDIRECT {
        WordOfPut(blocks1[d], s - NDIRECT, b, t - NDIRECT);
      }
    }
    TableUpdated(inodes, blocks, inodes, blocks2, (inum, s), b);
  }

  /** Equal pointers make equal tables. */
  lemma SameTable(inodes: map<nat, Inode>, blocks: seq<Block>, inodes': map<nat, Inode>, blocks': seq<Block>)
    requires ShapeOk(inodes, blocks) && ShapeOk(inodes', blocks') && inodes'.Keys == inodes.Keys
    requires forall i, s: nat | i in inodes && s <= INDIRECT :: Ptr(inodes'[i], blocks', s) == Ptr(inodes[i], blocks, s)
    ensures Table(inodes', blocks') == Table(inodes, blocks)
  {
    hide Table, Ptr;
    var t, t' := Table(inodes, blocks), Table(inodes', blocks');
    forall x: Slot ensures x in t' <==> x in t {
      assert x == (x.0, x.1);
    }
    forall x: Slot | x in t' ensures t'[x] == t[x] {
      assert x == (x.0, x.1) && (x.0, x.1) in t;
    }
  }

  /** Writing a block that is no inode's indirect block moves no pointer. */
  lemma WriteKeepsTable(inodes: map<nat, Inode>, blocks: seq<Block>, b: nat, data: Block)
    requires ShapeOk(inodes, blocks) && b < |blocks| && |data| == BSIZE
    requires forall i | i in inodes :: inodes[i].addrs[NDIRECT] != b || b == 0
    ensures ShapeOk(inodes, blocks[b := data]) && Table(inodes, blocks[b := data]) == Table(inodes, blocks)
  {
    hide Table, Word;
    var blocks' := blocks[b := data];
    forall i, s: nat | i in inodes && s <= INDIRECT ensures Ptr(inodes[i], blocks', s) == Ptr(inodes[i], blocks, s) {
      OtherPtr(inodes[i], blocks, blocks', s);
    }
    SameTable(inodes, blocks, inodes, blocks');
  }

  // ----- File contents

  /** Block pointers of file `i` cover its size exactly: no hole below it and no block beyond it. */
  ghost predicate NoHoles(t: map<Slot, nat>, i: nat, size: nat) {
    && size <= MAXFILE * BSIZE
    && (forall s: nat | s < MAXFILE :: (i, s) in t && (t[(i, s)] != 0 <==> s * BSIZE < size))
    && (i, INDIRECT) in t && (t[(i, INDIRECT)] != 0 <==> NDIRECT * BSIZE < size)
  }

  function ByteAt(t: map<Slot, nat>, blocks: seq<Block>, i: nat, x: nat): Byte {
    var k := (i, x / BSIZE);
    if k in t && t[k] < |blocks| && |blocks[t[k]]| == BSIZE then blocks[t[k]][x % BSIZE] else 0
  }

  /** The file as a flat byte sequence. */
  ghost function Content(t: map<Slot, nat>, blocks: seq<Block>, i: nat, size: nat): (c: seq<Byte>)
    ensures |c| == size
    ensures forall x | 0 <= x < size :: c[x] == ByteAt(t, blocks, i, x)
  {
    seq(size, x requires 0 <= x < size => ByteAt(t, blocks, i, x))
  }

  // ----- Reading and writing inside one block

  lemma InBlock(off: nat, m: nat, x: nat)
    requires off % BSIZE + m <= BSIZE && off <= x < off + m
    ensures x / BSIZE == off / BSIZE && x % BSIZE == off % BSIZE + (x - off)
  {
  }

  lemma OtherBlock(off: nat, m: nat, x: nat)
    requires off % BSIZE + m <= BSIZE && m > 0 && x / BSIZE == off / BSIZE && !(off <= x < off + m)
    ensures x % BSIZE < off % BSIZE || off % BSIZE + m <= x % BSIZE
  {
    assert x == x / BSIZE * BSIZE + x % BSIZE && off == off / BSIZE * BSIZE + off % BSIZE;
  }

  function Patch(data: Block, y: nat, chunk: seq<Byte>): (r: Block)
    requires y + |chunk| <= |data|
    ensures |r| == |data|
    ensures forall z | 0 <= z < |data| :: r[z] == if y <= z < y + |chunk| then chunk[z - y] else data[z]
  {
    data[..y] + chunk + data[y + |chunk|..]
  }

  /** The bytes of a file that lie in one block are a slice of that block. */
  lemma ReadSlice(t: map<Slot, nat>, blocks: seq<Block>, i: nat, size: nat, off: nat, m: nat)
    requires off % BSIZE + m <= BSIZE && off + m <= size && BlocksOk(blocks)
    requires (i, off / BSIZE) in t && t[(i, off / BSIZE)] < |blocks|
    ensures var y := off % BSIZE;
            blocks[t[(i, off / BSIZE)]][y..y + m] == Content(t, blocks, i, size)[off..off + m]
  {
    var y := off % BSIZE;
    var a, c := blocks[t[(i, off / BSIZE)]][y..y + m], Content(t, blocks, i, size)[off..off + m];
    forall z | 0 <= z < m ensures a[z] == c[z] {
      InBlock(off, m, off + z);
      assert c[z] == ByteAt(t, blocks, i, off + z);
    }
  }

  /** Bytes of slots that had a block are as before, except that file `inum` holds `done` from `off` on. */
  ghost predicate Written(t: map<Slot, nat>, blocks: seq<Block>, t': map<Slot, nat>, blocks': seq<Block>,
                          inum: nat, off: nat, done: seq<Byte>)
  {
    forall i: nat, x: nat |
      && x / BSIZE < MAXFILE && (i, x / BSIZE) in t
      && (t[(i, x / BSIZE)] != 0 || (i == inum && off <= x < off + |done|)) ::
      ByteAt(t', blocks', i, x) ==
      if i == inum && off <= x < off + |done| then done[x - off] else ByteAt(t, blocks, i, x)
  }

  lemma WrittenTrans(t: map<Slot, nat>, b: seq<Block>, t1: map<Slot, nat>, b1: seq<Block>, t2: map<Slot, nat>, b2: seq<Block>,
                     inum: nat, off: nat, done: seq<Byte>, chunk: seq<Byte>)
    requires Written(t, b, t1, b1, inum, off, done) && Written(t1, b1, t2, b2, inum, off + |done|, chunk)
    requires t1.Keys == t.Keys && forall k | k in t && t[k] != 0 :: t1[k] == t[k]
    requires forall x: nat | off <= x < off + |done| && (inum, x / BSIZE) in t :: t1[(inum, x / BSIZE)] != 0
    ensures Written(t, b, t2, b2, inum, off, done + chunk)
  {
    hide ByteAt;
    var all := done + chunk;
    forall i: nat, x: nat |
      && x / BSIZE < MAXFILE && (i, x / BSIZE) in t
      && (t[(i, x / BSIZE)] != 0 || (i == inum && off <= x < off + |all|))
      ensures ByteAt(t2, b2, i, x) == if i == inum && off <= x < off + |all| then all[x - off] else ByteAt(t, b, i, x)
    {
      assert (i, x / BSIZE) in t1;
      if i == inum && off + |done| <= x < off + |all| {
        assert all[x - off] == chunk[x - off - |done|];
      } else if i == inum && off <= x < off + |done| {
        assert t1[(i, x / BSIZE)] != 0;
        assert ByteAt(t2, b2, i, x) == ByteAt(t1, b1, i, x);
      } else {
        assert t1[(i, x / BSIZE)] == t[(i, x / BSIZE)];
        assert ByteAt(t2, b2, i, x) == ByteAt(t1, b1, i, x);
      }
    }
  }

  /** Storing a chunk in the block of one slot changes those bytes of that file and nothing else. */
  lemma StoreChunk(g: Geometry, t: map<Slot, nat>, owner: map<nat, Slot>, bitmap: seq<bv8>, blocks: seq<Block>,
                   inum: nat, off: nat, chunk: seq<Byte>)
    requires Owned(g, t, owner, bitmap) && BlocksOk(blocks) && |blocks| == g.size
    requires off % BSIZE + |chunk| <= BSIZE && |chunk| > 0 && off / BSIZE < MAXFILE
    requires (inum, off / BSIZE) in t && t[(inum, off / BSIZE)] != 0
    ensures t[(inum, off / BSIZE)] < g.size
    ensures var p := t[(inum, off / BSIZE)];
            Written(t, blocks, t, blocks[p := Patch(blocks[p], off % BSIZE, chunk)], inum, off, chunk)
  {
    var p := t[(inum, off / BSIZE)];
    var blocks' := blocks[p := Patch(blocks[p], off % BSIZE, chunk)];
    forall i: nat, x: nat |
      && x / BSIZE < MAXFILE && (i, x / BSIZE) in t
      && (t[(i, x / BSIZE)] != 0 || (i == inum && off <= x < off + |chunk|))
      ensures ByteAt(t, blocks', i, x) ==
              if i == inum && off <= x < off + |chunk| then chunk[x - off] else ByteAt(t, blocks, i, x)
    {
      if i == inum && off <= x < off + |chunk| {
        InBlock(off, |chunk|, x);
      } else if t[(i, x / BSIZE)] == p {
        assert owner[p] == (i, x / BSIZE) == (inum, off / BSIZE);
        OtherBlock(off, |chunk|, x);
      }
    }
  }

  lemma NoHolesGrows(t: map<Slot, nat>, t': map<Slot, nat>, inum: nat, size: nat, off: nat, m: nat)
    requires NoHoles(t, inum, size) && off <= size && 0 < m && off % BSIZE + m <= BSIZE && off + m <= MAXFILE * BSIZE
    requires t'.Keys == t.Keys && t'[(inum, off / BSIZE)] != 0
    requires forall k | k in t && t[k] != 0 :: t'[k] == t[k]
    requires forall s: nat | s < MAXFILE && s != off / BSIZE :: t'[(inum, s)] == t[(inum, s)]
    requires off / BSIZE < NDIRECT ==> t'[(inum, INDIRECT)] == t[(inum, INDIRECT)]
    requires off / BSIZE >= NDIRECT ==> t'[(inum, INDIRECT)] != 0
    ensures NoHoles(t', inum, if off + m > size then off + m else size)
  {
    var bn := off / BSIZE;
    assert bn * BSIZE <= off < off + m <= bn * BSIZE + BSIZE;
    if off + m > size {
      forall s: nat | s < MAXFILE ensures t'[(inum, s)] != 0 <==> s * BSIZE < off + m {
        if s < bn {
          assert s * BSIZE < size;
        }
      }
    }
  }
}
