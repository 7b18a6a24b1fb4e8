/**
 Block allocation, the block map of an inode, and reading, writing and truncating files.

 `blocks` are the block contents as the buffer cache shows them.  `logged` collects the numbers
 of the blocks handed to log_write.  None is the outcome of an operation that hits one of the
 source's panics.
 */
module FsCode {
  import opened Params
  import opened FsLayout

  function Min(a: int, b: int): int {
    if a < b then a else b
  }

  function Max(a: int, b: int): int {
    if a < b then b else a
  }

  function BitmapBlock(g: Geometry, b: nat): nat {
    b / BPB + g.bmapstart
  }

  function InodeBlock(g: Geometry, i: nat): nat {
    i / IPB + g.inodestart
  }

  /** Every block is in use: the one case in which allocation panics. */
  ghost predicate Exhausted(g: Geometry, bitmap: seq<bv8>) {
    g.size <= 8 * |bitmap| && forall c: nat | c < g.size :: Marked(bitmap, c)
  }

  /** No file has a hole below its size or a block beyond it. */
  ghost predicate AllWhole(t: map<Slot, nat>, inodes: map<nat, Inode>) {
    forall i | i in inodes :: NoHoles(t, i, inodes[i].size)
  }

  lemma Whole(t: map<Slot, nat>, inodes: map<nat, Inode>, i: nat)
    requires AllWhole(t, inodes) && i in inodes
    ensures NoHoles(t, i, inodes[i].size)
  {
  }

  ghost function Contents(t: map<Slot, nat>, blocks: seq<Block>, inodes: map<nat, Inode>): (m: map<nat, seq<Byte>>)
    ensures m.Keys == inodes.Keys && forall i | i in inodes :: |m[i]| == inodes[i].size
  {
    map i | i in inodes :: Content(t, blocks, i, inodes[i].size)
  }

  // ----- How allocation changes the tables

  /** Slot (inum, bn) now has a block; every pointer that was set, and every byte of every file, is as before. */
  ghost predicate Grew(t: map<Slot, nat>, t': map<Slot, nat>, owner: map<nat, Slot>, owner': map<nat, Slot>,
                       blocks: seq<Block>, blocks': seq<Block>, inum: nat, bn: nat)
  {
    && |blocks'| == |blocks| && t'.Keys == t.Keys
    && (inum, bn) in t && t'[(inum, bn)] != 0 && (inum, INDIRECT) in t
    && (forall k | k in t && t[k] != 0 :: t'[k] == t[k])
    && (forall k | k in t && k != (inum, bn) && (k != (inum, INDIRECT) || bn < NDIRECT) :: t'[k] == t[k])
    && (bn >= NDIRECT ==> t'[(inum, INDIRECT)] != 0)
    && (forall p | p in owner && owner[p].1 != INDIRECT && p < |blocks| :: blocks'[p] == blocks[p])
    && (forall p | p in owner :: p in owner' && owner'[p] == owner[p])
  }

  lemma GrewRefl(t: map<Slot, nat>, owner: map<nat, Slot>, blocks: seq<Block>, inum: nat, bn: nat)
    requires (inum, bn) in t && t[(inum, bn)] != 0 && (inum, INDIRECT) in t
    requires bn >= NDIRECT ==> t[(inum, INDIRECT)] != 0
    ensures Grew(t, t, owner, owner, blocks, blocks, inum, bn)
  {
  }

  lemma GrewDirect(g: Geometry, t: map<Slot, nat>, owner: map<nat, Slot>, bitmap: seq<bv8>, blocks: seq<Block>,
                   inum: nat, bn: nat, b: nat)
    requires Owned(g, t, owner, bitmap) && (inum, bn) in t && t[(inum, bn)] == 0 && bn < NDIRECT
    requires (inum, INDIRECT) in t && b !in owner && 0 < b < |blocks|
    ensures Grew(t, t[(inum, bn) := b], owner, owner[b := (inum, bn)], blocks, blocks[b := Zeros()], inum, bn)
  {
    var t' := t[(inum, bn) := b];
    assert t'.Keys == t.Keys;
  }

  /** No inode's indirect block is a block that nobody owns. */
  lemma NotIndirect(g: Geometry, inodes: map<nat, Inode>, blocks: seq<Block>, owner: map<nat, Slot>, bitmap: seq<bv8>, b: nat)
    requires ShapeOk(inodes, blocks) && Owned(g, Table(inodes, blocks), owner, bitmap)
    requires b != 0 && (b !in owner || owner[b].1 != INDIRECT)
    ensures forall i | i in inodes :: inodes[i].addrs[NDIRECT] != b
  {
    var t := Table(inodes, blocks);
    forall i | i in inodes ensures inodes[i].addrs[NDIRECT] != b {
      assert (i, INDIRECT) in t && t[(i, INDIRECT)] == inodes[i].addrs[NDIRECT];
    }
  }

  lemma IndirectsDiffer(g: Geometry, inodes: map<nat, Inode>, blocks: seq<Block>, owner: map<nat, Slot>, bitmap: seq<bv8>, inum: nat)
    requires ShapeOk(inodes, blocks) && Owned(g, Table(inodes, blocks), owner, bitmap)
    requires inum in inodes && inodes[inum].addrs[NDIRECT] != 0
    ensures forall i | i in inodes && i != inum :: inodes[i].addrs[NDIRECT] != inodes[inum].addrs[NDIRECT]
  {
    var t := Table(inodes, blocks);
    assert (inum, INDIRECT) in t && t[(inum, INDIRECT)] == inodes[inum].addrs[NDIRECT];
    forall i | i in inodes && i != inum ensures inodes[i].addrs[NDIRECT] != inodes[inum].addrs[NDIRECT] {
      assert (i, INDIRECT) in t && t[(i, INDIRECT)] == inodes[i].addrs[NDIRECT];
    }
  }

  // ----- What is logged

  /** What of the file system is on disk, as the buffer cache shows it. */
  datatype Image = Image(bitmap: seq<bv8>, blocks: seq<Block>, dinodes: map<nat, Inode>)

  /** Every block, bitmap byte and inode in which `s` and `t` differ lies in a block of `logged`. */
  ghost predicate Logs(g: Geometry, s: Image, t: Image, logged: set<nat>) {
    && |t.blocks| == |s.blocks| && |t.bitmap| == |s.bitmap|
    && (forall b: nat | b < |s.blocks| && t.blocks[b] != s.blocks[b] :: b in logged)
    && (forall k: nat | k < |s.bitmap| && t.bitmap[k] != s.bitmap[k] :: BitmapBlock(g, 8 * k) in logged)
    && (forall i | i in t.dinodes && (i !in s.dinodes || t.dinodes[i] != s.dinodes[i]) :: InodeBlock(g, i) in logged)
    && s.dinodes.Keys <= t.dinodes.Keys
  }

  lemma LogsNone(g: Geometry, s: Image, logged: set<nat>)
    ensures Logs(g, s, s, logged)
  {
  }

  lemma LogsMore(g: Geometry, s: Image, t: Image, u: Image, l: set<nat>, m: set<nat>)
    requires Logs(g, s, t, l) && Logs(g, t, u, m) && l <= m
    ensures Logs(g, s, u, m)
  {
    forall i | i in u.dinodes && (i !in s.dinodes || u.dinodes[i] != s.dinodes[i]) ensures InodeBlock(g, i) in m {
      assert i in t.dinodes ==> u.dinodes[i] != t.dinodes[i] || i !in s.dinodes || t.dinodes[i] != s.dinodes[i];
    }
  }

  lemma LogsBlock(g: Geometry, s: Image, b: nat, data: Block, l: set<nat>)
    requires b < |s.blocks| && b in l
    ensures Logs(g, s, s.(blocks := s.blocks[b := data]), l)
  {
  }

  lemma LogsBit(g: Geometry, s: Image, b: nat, l: set<nat>)
    requires b < 8 * |s.bitmap| && BitmapBlock(g, b) in l
    ensures Logs(g, s, s.(bitmap := Mark(s.bitmap, b)), l) && Logs(g, s, s.(bitmap := Unmark(s.bitmap, b)), l)
  {
    hide SetBit, ClearBit;
    SameMap(g, b);
  }

  /** All bits of a byte are in one bitmap block. */
  lemma SameMap(g: Geometry, b: nat)
    ensures BitmapBlock(g, 8 * (b / 8)) == BitmapBlock(g, b)
  {
    assert b / BPB == b / 8 / (BPB / 8);
    assert 8 * (b / 8) / BPB == b / 8 / (BPB / 8);
  }

  /** In the layout that mkfs makes, inodes, bitmap and file blocks lie apart, and eight inodes share a block. */
  lemma MetadataApart(g: Geometry, ninodes: nat, i: nat, b: nat)
    requires g.bmapstart == g.inodestart + ninodes / 8 + 1 && g.first == g.bmapstart + g.size / 4096 + 1
    requires i < ninodes && b < g.size
    ensures g.inodestart <= InodeBlock(g, i) < g.bmapstart <= BitmapBlock(g, b) < g.first
    ensures forall j: nat :: InodeBlock(g, j) == InodeBlock(g, i) <==> j / 8 == i / 8
    ensures forall c: nat :: BitmapBlock(g, c) == BitmapBlock(g, b) <==> c / 4096 == b / 4096
  {
  }

  lemma LogsInode(g: Geometry, s: Image, i: nat, ip: Inode, l: set<nat>)
    requires InodeBlock(g, i) in l
    ensures Logs(g, s, s.(dinodes := s.dinodes[i := ip]), l)
  {
  }

  lemma LogsFresh(g: Geometry, s: Image, b: nat, l: set<nat>)
    requires b < |s.blocks| && b < 8 * |s.bitmap| && b in l && BitmapBlock(g, b) in l
    ensures Logs(g, s, s.(bitmap := Mark(s.bitmap, b), blocks := s.blocks[b := Zeros()]), l)
  {
    hide Logs;
    LogsBit(g, s, b, l);
    var t := s.(bitmap := Mark(s.bitmap, b));
    LogsBlock(g, t, b, Zeros(), l);
    LogsMore(g, s, t, t.(blocks := t.blocks[b := Zeros()]), l, l);
  }

  // ----- A fresh file system

  function ZeroBlocks(n: nat): (bs: seq<Block>)
    ensures |bs| == n && forall b | 0 <= b < n :: bs[b] == Zeros()
  {
    seq(n, _ => Zeros())
  }

  function EmptyInode(): (ip: Inode)
    ensures InodeOk(ip) && ip.size == 0 && forall s | 0 <= s <= NDIRECT :: ip.addrs[s] == 0
  {
    Inode(0, seq(NDIRECT + 1, _ => 0))
  }

  function EmptyInodes(inums: set<nat>): map<nat, Inode> {
    map i | i in inums :: EmptyInode()
  }

  ghost function EmptyFiles(inums: set<nat>): map<nat, seq<Byte>> {
    map i | i in inums :: []
  }

  function ZeroBits(n: nat): (bits: seq<bv8>)
    ensures |bits| == n && forall k | 0 <= k < n :: bits[k] == 0
  {
    seq(n, _ => 0)
  }

  /** Exactly the first `n` of `size` blocks are marked. */
  ghost predicate MarkedBelow(bitmap: seq<bv8>, size: nat, n: nat) {
    size <= 8 * |bitmap| && forall b: nat | b < size :: Marked(bitmap, b) <==> b < n
  }

  lemma NothingMarked(size: nat)
    ensures MarkedBelow(ZeroBits((size + 7) / 8), size, 0)
  {
  }

  lemma RoomInBitmap(bitmap: seq<bv8>, size: nat, n: nat)
    requires MarkedBelow(bitmap, size, n)
    ensures size <= 8 * |bitmap|
  {
  }

  lemma MarkedNext(bitmap: seq<bv8>, size: nat, n: nat)
    requires MarkedBelow(bitmap, size, n) && n < size
    ensures MarkedBelow(Mark(bitmap, n), size, n + 1)
  {
    hide Marked, Mark;
    forall b: nat | b < size ensures Marked(Mark(bitmap, n), b) <==> b < n + 1 {
      MarkIs(bitmap, n, b);
    }
  }

  /** No slot of a fresh file system holds a block. */
  lemma FreshTable(inums: set<nat>, size: nat)
    requires size >= 1
    ensures var inodes, blocks := EmptyInodes(inums), ZeroBlocks(size);
            ShapeOk(inodes, blocks) && forall k | k in Table(inodes, blocks) :: Table(inodes, blocks)[k] == 0
  {
    var inodes, blocks := EmptyInodes(inums), ZeroBlocks(size);
    assert ShapeOk(inodes, blocks);
    var t := Table(inodes, blocks);
    forall k | k in t ensures t[k] == 0 {
      assert (k.0, k.1) in t && t[(k.0, k.1)] == Ptr(inodes[k.0], blocks, k.1);
    }
  }

  lemma FreshOwned(g: Geometry, t: map<Slot, nat>, bitmap: seq<bv8>)
    requires g.Valid() && MarkedBelow(bitmap, g.size, g.first) && forall k | k in t :: t[k] == 0
    ensures Owned(g, t, map[], bitmap)
  {
    hide Marked;
  }

  lemma FreshWhole(t: map<Slot, nat>, inodes: map<nat, Inode>)
    requires forall k | k in t :: t[k] == 0
    requires forall i, s | i in inodes && 0 <= s <= INDIRECT :: (i, s) in t
    requires forall i | i in inodes :: inodes[i].size == 0
    ensures AllWhole(t, inodes)
  {
    forall i | i in inodes ensures NoHoles(t, i, inodes[i].size) {
      assert (i, INDIRECT) in t;
    }
  }

  lemma FreshFiles(t: map<Slot, nat>, blocks: seq<Block>, inums: set<nat>)
    ensures Contents(t, blocks, EmptyInodes(inums)) == EmptyFiles(inums)
  {
    hide ByteAt;
    var inodes := EmptyInodes(inums);
    forall i | i in inodes ensures Content(t, blocks, i, inodes[i].size) == [] {
    }
  }

  lemma NoSizes(inums: set<nat>)
    ensures forall i | i in EmptyInodes(inums) :: EmptyInodes(inums)[i].size == 0
  {
  }

  class FileSystem {
    const g: Geometry
    var bitmap: seq<bv8>
    var blocks: seq<Block>
    var inodes: map<nat, Inode>       // in-memory inodes
    var dinodes: map<nat, Inode>      // the same inodes on disk
    ghost var owner: map<nat, Slot>   // which slot each file block belongs to
    ghost var logged: set<nat>

    ghost function Shown(): Image
      reads this
    {
      Image(bitmap, blocks, dinodes)
    }

    /** What holds even in the middle of an operation. */
    ghost predicate Sound()
      reads this
    {
      && ShapeOk(inodes, blocks) && |blocks| == g.size
      && Owned(g, Table(inodes, blocks), owner, bitmap)
    }

    ghost function T(): map<Slot, nat>
      requires Sound()
      reads this
    {
      Table(inodes, blocks)
    }

    /** Between operations every inode is written through, and no file has a hole or a block past its end. */
    ghost predicate Valid()
      reads this
    {
      Sound() && dinodes == inodes && AllWhole(T(), inodes)
    }

    ghost function File(i: nat): seq<Byte>
      requires Sound() && i in inodes
      reads this
    {
      Content(T(), blocks, i, inodes[i].size)
    }

    /** The file system as users see it: inode numbers to byte sequences. */
    ghost function Files(): (m: map<nat, seq<Byte>>)
      requires Sound()
      reads this
      ensures m.Keys == inodes.Keys && forall i | i in inodes :: |m[i]| == inodes[i].size
    {
      Contents(T(), blocks, inodes)
    }

    /** A fresh file system: the blocks below `first` are marked, and the files `inums` are empty. */
    constructor (g: Geometry, inums: set<nat>)
      requires g.Valid()
      ensures this.g == g && Valid() && Files() == EmptyFiles(inums) && MarkedBelow(bitmap, g.size, g.first)
    {
      hide Owned, AllWhole, Contents, MarkedBelow, ShapeOk, Table, EmptyFiles, EmptyInodes;
      this.g := g;
      blocks := ZeroBlocks(g.size);
      inodes, dinodes := EmptyInodes(inums), EmptyInodes(inums);
      bitmap := ZeroBits((g.size + 7) / 8);
      owner, logged := map[], {};
      new;
      NothingMarked(g.size);
      for i := 0 to g.first
        modifies this`bitmap
        invariant MarkedBelow(bitmap, g.size, i)
      {
        RoomInBitmap(bitmap, g.size, i);
        MarkedNext(bitmap, g.size, i);
        bitmap := Mark(bitmap, i);
      }
      FreshTable(inums, g.size);
      FreshOwned(g, Table(inodes, blocks), bitmap);
      NoSizes(inums);
      FreshWhole(Table(inodes, blocks), inodes);
      FreshFiles(Table(inodes, blocks), blocks, inums);
    }

    // ----- Blocks

    /** The first free block, marked and zeroed. */
    method Balloc() returns (r: Option<nat>)
      requires |blocks| == g.size && g.size <= 8 * |bitmap|
      modifies this`bitmap, this`blocks, this`logged
      ensures r.Some? ==>
        && r.value < g.size && !Marked(old(bitmap), r.value)
        && (forall c: nat | c < r.value :: Marked(old(bitmap), c))
        && bitmap == Mark(old(bitmap), r.value) && blocks == old(blocks)[r.value := Zeros()]
        && logged == old(logged) + {BitmapBlock(g, r.value), r.value}
      ensures r.None? ==>
        bitmap == old(bitmap) && blocks == old(blocks) && logged == old(logged) && Exhausted(g, bitmap)
      ensures old(logged) <= logged && Logs(g, old(Shown()), Shown(), logged)
    {
      hide TestBit, SetBit, Logs;
      LogsNone(g, Shown(), logged);
      var b := 0;
      while b < g.size
        invariant 0 <= b && b % BPB == 0
        invariant forall c: nat | c < b && c < g.size :: Marked(bitmap, c)
        invariant bitmap == old(bitmap) && blocks == old(blocks) && logged == old(logged)
        decreases g.size - b
      {
        var bi := 0;
        while bi < BPB && b + bi < g.size
          invariant 0 <= bi <= BPB
          invariant forall c: nat | c < b + bi && c < g.size :: Marked(bitmap, c)
          invariant bitmap == old(bitmap) && blocks == old(blocks) && logged == old(logged)
        {
          if !Marked(bitmap, b + bi) {
            bitmap := Mark(bitmap, b + bi);
            blocks := blocks[b + bi := Zeros()];
            assert BitmapBlock(g, b + bi) == b / BPB + g.bmapstart;
            logged := logged + {b / BPB + g.bmapstart, b + bi};
            LogsFresh(g, old(Shown()), b + bi, logged);
            return Some(b + bi);
          }
          bi := bi + 1;
        }
        b := b + BPB;
      }
      return None;
    }

    /** `panicked` is "freeing free block". */
    method Bfree(b: nat) returns (panicked: bool)
      requires b < g.size <= 8 * |bitmap|
      modifies this`bitmap, this`logged
      ensures panicked <==> !Marked(old(bitmap), b)
      ensures !panicked ==> bitmap == Unmark(old(bitmap), b) && logged == old(logged) + {BitmapBlock(g, b)}
      ensures Logs(g, old(Shown()), Shown(), logged)
    {
      hide Logs;
      LogsNone(g, Shown(), logged);
      if !Marked(bitmap, b) {
        return true;
      }
      bitmap := Unmark(bitmap, b);
      logged := logged + {BitmapBlock(g, b)};
      LogsBit(g, old(Shown()), b, logged);
      return false;
    }

    // ----- The block map of an inode

    /** One more block for a direct slot. */
    method AllocDirect(inum: nat, s: nat) returns (r: Option<nat>)
      requires Sound() && inum in inodes && s < NDIRECT && T()[(inum, s)] == 0
      modifies this`bitmap, this`blocks, this`logged, this`inodes, this`owner
      ensures Sound() && (r.None? ==> Exhausted(g, bitmap))
      ensures r.Some? ==>
        && 0 < r.value < g.size && r.value !in old(owner)
        && inodes == old(inodes)[inum := old(inodes)[inum].(addrs := old(inodes)[inum].addrs[s := r.value])]
        && blocks == old(blocks)[r.value := Zeros()] && owner == old(owner)[r.value := (inum, s)]
        && T() == old(T())[(inum, s) := r.value]
        && logged == old(logged) + {BitmapBlock(g, r.value), r.value}
      ensures old(logged) <= logged && Logs(g, old(Shown()), Shown(), logged)
    {
      hide Table, ShapeOk, Owned, Zeros, Logs;
      OwnedShape(g, T(), owner, bitmap);
      r := Balloc();
      if r.Some? {
        var b := r.value;
        OwnedGrows(g, old(T()), owner, old(bitmap), (inum, s), b);
        NotIndirect(g, inodes, old(blocks), owner, old(bitmap), b);
        ShapeAt(inodes, old(blocks), inum);
        AttachDirect(inodes, old(blocks), inum, s, b);
        inodes := inodes[inum := inodes[inum].(addrs := inodes[inum].addrs[s := b])];
        owner := owner[b := (inum, s)];
      }
    }

    method AllocIndirect(inum: nat) returns (r: Option<nat>)
      requires Sound() && inum in inodes && T()[(inum, INDIRECT)] == 0
      modifies this`bitmap, this`blocks, this`logged, this`inodes, this`owner
      ensures Sound() && (r.None? ==> Exhausted(g, bitmap))
      ensures r.Some? ==>
        && 0 < r.value < g.size && r.value !in old(owner)
        && inodes == old(inodes)[inum := old(inodes)[inum].(addrs := old(inodes)[inum].addrs[NDIRECT := r.value])]
        && blocks == old(blocks)[r.value := Zeros()] && owner == old(owner)[r.value := (inum, INDIRECT)]
        && T() == old(T())[(inum, INDIRECT) := r.value]
        && logged == old(logged) + {BitmapBlock(g, r.value), r.value}
      ensures old(logged) <= logged && Logs(g, old(Shown()), Shown(), logged)
    {
      hide Table, ShapeOk, Owned, Zeros, Logs;
      OwnedShape(g, T(), owner, bitmap);
      r := Balloc();
      if r.Some? {
        var b := r.value;
        OwnedGrows(g, old(T()), owner, old(bitmap), (inum, INDIRECT), b);
        NotIndirect(g, inodes, old(blocks), owner, old(bitmap), b);
        ShapeAt(inodes, old(blocks), inum);
        AttachIndirect(inodes, old(blocks), inum, b);
        inodes := inodes[inum := inodes[inum].(addrs := inodes[inum].addrs[NDIRECT := b])];
        owner := owner[b := (inum, INDIRECT)];
      }
    }

    /** One more block for a slot in the indirect block, which is rewritten and logged. */
    method AllocWord(inum: nat, s: nat) returns (r: Option<nat>)
      requires Sound() && inum in inodes && NDIRECT <= s < INDIRECT && T()[(inum, s)] == 0 && T()[(inum, INDIRECT)] != 0
      modifies this`bitmap, this`blocks, this`logged, this`owner
      ensures Sound() && (r.None? ==> Exhausted(g, bitmap))
      ensures r.Some? ==>
        && 0 < r.value < g.size && r.value !in old(owner)
        && owner == old(owner)[r.value := (inum, s)]
        && T() == old(T())[(inum, s) := r.value]
        && (forall p: nat | p < g.size && p != r.value && p != T()[(inum, INDIRECT)] :: blocks[p] == old(blocks)[p])
        && logged == old(logged) + {BitmapBlock(g, r.value), r.value} + {T()[(inum, INDIRECT)]}
      ensures old(logged) <= logged && Logs(g, old(Shown()), Shown(), logged)
    {
      hide Table, ShapeOk, Owned, Zeros, PutWord, Logs;
      OwnedShape(g, T(), owner, bitmap);
      ShapeAt(inodes, blocks, inum);
      var d := inodes[inum].addrs[NDIRECT];
      r := Balloc();
      if r.Some? {
        var b := r.value;
        OwnedGrows(g, old(T()), owner, old(bitmap), (inum, s), b);
        NotIndirect(g, inodes, old(blocks), owner, old(bitmap), b);
        IndirectsDiffer(g, inodes, old(blocks), owner, old(bitmap), inum);
        AttachWord(inodes, old(blocks), inum, s, b);
        ghost var s1, l1 := Shown(), logged;
        blocks := blocks[d := PutWord(blocks[d], s - NDIRECT, b)];
        logged := logged + {d};
        LogsBlock(g, s1, d, blocks[d], logged);
        LogsMore(g, old(Shown()), s1, Shown(), l1, logged);
        owner := owner[b := (inum, s)];
      }
    }

    /** The block of the file's block `bn`, allocating it (and the indirect block) if there is none.
        `maps` are the bitmap blocks it changed. */
    method Bmap(inum: nat, bn: nat) returns (r: Option<nat>, ghost maps: set<nat>)
      requires Sound() && inum in inodes && bn < MAXFILE
      modifies this`bitmap, this`blocks, this`logged, this`inodes, this`owner
      ensures Sound() && dinodes == old(dinodes)
      ensures r.None? ==> PtrAt(old(T()), inum, bn) == 0 && Exhausted(g, bitmap)
      ensures r.Some? ==>
        && Grew(old(T()), T(), old(owner), owner, old(blocks), blocks, inum, bn)
        && r.value == PtrAt(T(), inum, bn) && r.value < g.size
        && SameSizes(old(inodes), inodes, inum)
        && (PtrAt(old(T()), inum, bn) != 0 ==>
              && inodes == old(inodes) && blocks == old(blocks) && owner == old(owner)
              && bitmap == old(bitmap) && logged == old(logged))
        && |maps| <= Allocations(old(T()), inum, bn)
        && logged <= old(logged) + maps + {PtrAt(T(), inum, bn)} + IndirectBlock(T(), inum)
      ensures old(logged) <= logged && Logs(g, old(Shown()), Shown(), logged)
    {
      hide Table, ShapeOk, Owned, Zeros, Grew, Logs;
      LogsNone(g, Shown(), logged);
      ShapeAt(inodes, blocks, inum);
      maps := {};
      ghost var t0 := T();
      if bn < NDIRECT {
        var addr := inodes[inum].addrs[bn];
        if addr == 0 {
          r := AllocDirect(inum, bn);
          if r.Some? {
            maps := {BitmapBlock(g, r.value)};
            GrewDirect(g, t0, old(owner), old(bitmap), old(blocks), inum, bn, r.value);
          }
          return;
        }
        GrewRefl(t0, owner, blocks, inum, bn);
        PtrInRange(g, t0, owner, bitmap, (inum, bn));
        return Some(addr), {};
      }
      r, maps := BmapIndirect(inum, bn);
    }

    method BmapIndirect(inum: nat, bn: nat) returns (r: Option<nat>, ghost maps: set<nat>)
      requires Sound() && inum in inodes && NDIRECT <= bn < MAXFILE
      modifies this`bitmap, this`blocks, this`logged, this`inodes, this`owner
      ensures Sound()
      ensures r.None? ==> PtrAt(old(T()), inum, bn) == 0 && Exhausted(g, bitmap)
      ensures r.Some? ==>
        && Grew(old(T()), T(), old(owner), owner, old(blocks), blocks, inum, bn)
        && r.value == PtrAt(T(), inum, bn) && r.value < g.size
        && SameSizes(old(inodes), inodes, inum)
        && (PtrAt(old(T()), inum, bn) != 0 ==>
              && inodes == old(inodes) && blocks == old(blocks) && owner == old(owner)
              && bitmap == old(bitmap) && logged == old(logged))
        && |maps| <= Allocations(old(T()), inum, bn)
        && logged <= old(logged) + maps + {PtrAt(T(), inum, bn)} + IndirectBlock(T(), inum)
      ensures old(logged) <= logged && Logs(g, old(Shown()), Shown(), logged)
    {
      hide Table, ShapeOk, Owned, Zeros, Grew, Logs;
      LogsNone(g, Shown(), logged);
      ShapeAt(inodes, blocks, inum);
      WordInTable(inodes, blocks, inum, bn);
      maps := {};
      ghost var t0, added := T(), false;
      if inodes[inum].addrs[NDIRECT] == 0 {
        r := AllocIndirect(inum);
        if r.None? {
          return;
        }
        maps, added := {BitmapBlock(g, r.value)}, true;
      }
      ShapeAt(inodes, blocks, inum);
      WordInTable(inodes, blocks, inum, bn);
      ghost var t1, owner1, blocks1, s1, l1 := T(), owner, blocks, Shown(), logged;
      var d := inodes[inum].addrs[NDIRECT];
      PtrInRange(g, t1, owner, bitmap, (inum, INDIRECT));
      var a := Word(blocks[d], bn - NDIRECT);
      if a == 0 {
        r := AllocWord(inum, bn);
        LogsMore(g, old(Shown()), s1, Shown(), l1, logged);
        if r.Some? {
          maps := maps + {BitmapBlock(g, r.value)};
          GrewIndirect(t0, t1, T(), old(owner), owner1, owner, old(blocks), blocks1, blocks, inum, bn, added, d, r.value);
        }
        return;
      }
      GrewRefl(t0, owner, blocks, inum, bn);
      PtrInRange(g, t0, owner, bitmap, (inum, bn));
      return Some(a), {};
    }

    // ----- File contents

    /** Copy the in-memory inode to disk. */
    method Iupdate(inum: nat)
      requires inum in inodes
      modifies this`dinodes, this`logged
      ensures dinodes == old(dinodes)[inum := inodes[inum]] && logged == old(logged) + {InodeBlock(g, inum)}
    {
      dinodes := dinodes[inum := inodes[inum]];
      logged := logged + {InodeBlock(g, inum)};
    }

    /** Read up to `n` bytes from offset `off`. */
    method Readi(inum: nat, off: nat, n: nat) returns (r: int, dst: seq<Byte>)
      requires Valid() && inum in inodes && off < U32 && n < U32
      modifies this`bitmap, this`blocks, this`logged, this`inodes, this`owner
      ensures inodes == old(inodes) && blocks == old(blocks) && bitmap == old(bitmap)
      ensures owner == old(owner) && logged == old(logged) && Valid()
      ensures if off > inodes[inum].size || off + n >= U32 then r == -1 && dst == []
              else r == Min(n, inodes[inum].size - off) && dst == File(inum)[off..off + r]
    {
      hide Table, ShapeOk, Owned, NoHoles, Content, AllWhole;
      Whole(T(), inodes, inum);
      dst := [];
      Wraps(off, n);
      if off > inodes[inum].size || (off + n) % U32 < off {
        return -1, dst;
      }
      var len := n;
      if off + n > inodes[inum].size {
        len := inodes[inum].size - off;
      }
      dst := ReadLoop(inum, off, len);
      return len, dst;
    }

    method ReadLoop(inum: nat, off: nat, n: nat) returns (dst: seq<Byte>)
      requires Sound() && inum in inodes && NoHoles(T(), inum, inodes[inum].size) && off + n <= inodes[inum].size
      modifies this`bitmap, this`blocks, this`logged, this`inodes, this`owner
      ensures inodes == old(inodes) && blocks == old(blocks) && bitmap == old(bitmap)
      ensures owner == old(owner) && logged == old(logged) && Sound()
      ensures dst == File(inum)[off..off + n]
    {
      hide NoHoles, Content, Table, Owned, ShapeOk;
      ghost var c := File(inum);
      dst := [];
      var tot, o := 0, off;
      while tot < n
        invariant 0 <= tot <= n && o == off + tot
        invariant inodes == old(inodes) && blocks == old(blocks) && bitmap == old(bitmap)
        invariant owner == old(owner) && logged == old(logged)
        invariant dst == c[off..o]
      {
        var m := Min(n - tot, BSIZE - o % BSIZE);
        ChunkBounds(o, n - tot);
        var part := ReadChunk(inum, o, m);
        assert part == c[o..o + m];
        Joined(c, off, o, o + m);
        dst := dst + part;
        tot, o := tot + m, o + m;
      }
    }

    /** One round of the loop of `readi`. */
    method ReadChunk(inum: nat, o: nat, m: nat) returns (part: seq<Byte>)
      requires Sound() && inum in inodes && o % BSIZE + m <= BSIZE && 0 < m
      requires o + m <= inodes[inum].size && NoHoles(T(), inum, inodes[inum].size)
      modifies this`bitmap, this`blocks, this`logged, this`inodes, this`owner
      ensures inodes == old(inodes) && blocks == old(blocks) && bitmap == old(bitmap)
      ensures owner == old(owner) && logged == old(logged) && Sound()
      ensures part == File(inum)[o..o + m]
    {
      hide Table, Owned, Content;
      Mapped(T(), inum, inodes[inum].size, o);
      hide NoHoles, Grew;
      var addr, maps := Bmap(inum, o / BSIZE);
      ReadSlice(T(), blocks, inum, inodes[inum].size, o, m);
      part := blocks[addr.value][o % BSIZE..o % BSIZE + m];
    }

    /** One round of the loop of `writei`: all of `chunk` falls into one block. */
    method WriteChunk(inum: nat, o: nat, chunk: seq<Byte>, ghost size: nat) returns (ok: bool, ghost maps: set<nat>)
      requires Sound() && inum in inodes && chunk != [] && o % BSIZE + |chunk| <= BSIZE
      requires o + |chunk| <= MAXFILE * BSIZE && o <= size && NoHoles(T(), inum, size)
      modifies this`bitmap, this`blocks, this`logged, this`inodes, this`owner
      ensures Sound() && dinodes == old(dinodes)
      ensures !ok ==> Exhausted(g, bitmap)
      ensures ok ==>
        && SameSizes(old(inodes), inodes, inum)
        && Kept(old(T()), T(), inum)
        && Written(old(T()), old(blocks), T(), blocks, inum, o, chunk)
        && NoHoles(T(), inum, Max(size, o + |chunk|))
        && |maps| <= Allocations(old(T()), inum, o / BSIZE)
        && logged <= old(logged) + maps + {PtrAt(T(), inum, o / BSIZE)} + IndirectBlock(T(), inum)
      ensures old(logged) <= logged && Logs(g, old(Shown()), Shown(), logged)
    {
      hide Table, ShapeOk, Owned, NoHoles, Written, Patch, InodeOk, BlocksOk, Logs, Grew, Kept, SameSizes, IndirectBlock, Allocations, Exhausted;
      var addr;
      ghost var t0 := T();
      addr, maps := Bmap(inum, o / BSIZE);
      if addr.None? {
        return false, maps;
      }
      var p := addr.value;
      ghost var t1 := T();
      GrewWritten(g, t0, t1, old(owner), owner, old(bitmap), old(blocks), blocks, inum, o);
      GrewNoHoles(t0, t1, old(owner), owner, old(blocks), blocks, inum, size, o, |chunk|);
      ShapeAt(inodes, blocks, inum);
      PtrInRange(g, t1, owner, bitmap, (inum, o / BSIZE));
      NotIndirect(g, inodes, blocks, owner, bitmap, p);
      StoreChunk(g, t1, owner, bitmap, blocks, inum, o, chunk);
      BlockSize(inodes, blocks, p);
      ghost var b1, s1, l1 := blocks, Shown(), logged;
      WriteKeepsTable(inodes, blocks, p, Patch(blocks[p], o % BSIZE, chunk));
      blocks := blocks[p := Patch(blocks[p], o % BSIZE, chunk)];
      logged := logged + {p};
      LogsBlock(g, s1, p, blocks[p], logged);
      LogsMore(g, old(Shown()), s1, Shown(), l1, logged);
      WrittenTrans(t0, old(blocks), t1, b1, t1, blocks, inum, o, [], chunk);
      assert [] + chunk == chunk;
      return true, maps;
    }

    /** Write `src` at offset `off`.  `touched` are the blocks it logs. */
    method Writei(inum: nat, src: seq<Byte>, off: nat) returns (r: Option<int>, ghost touched: set<nat>)
      requires Valid() && inum in inodes && off < U32 && |src| < U32
      modifies this`bitmap, this`blocks, this`logged, this`inodes, this`owner, this`dinodes
      ensures Sound() && (r.None? ==> Exhausted(g, bitmap))
      ensures r == Some(-1) <==> Rejected(|old(Files())[inum]|, off, |src|)
      ensures r == Some(-1) ==> inodes == old(inodes) && blocks == old(blocks) && bitmap == old(bitmap) && Valid()
      ensures r == Some(-1) ==> Files() == old(Files())
      ensures r.Some? && r.value != -1 ==>
        && r.value == |src| && Valid()
        && Files() == old(Files())[inum := Splice(old(Files())[inum], off, src)]
        && logged <= old(logged) + touched
        && (|src| <= 3 * BSIZE ==> |touched| <= MAXOPBLOCKS)
      ensures old(logged) <= logged && Logs(g, old(Shown()), Shown(), logged)
    {
      hide Table, ShapeOk, Owned, NoHoles, Contents, Written, Kept, IndirectBlock, AllWhole, Logs;
      LogsNone(g, Shown(), logged);
      Whole(T(), inodes, inum);
      touched := {};
      Wraps(off, |src|);
      var size := inodes[inum].size;
      if off > size || (off + |src|) % U32 < off {
        return Some(-1), {};
      }
      if off + |src| > MAXFILE * BSIZE {
        return Some(-1), {};
      }
      ghost var t0, b0 := T(), blocks;
      var ok;
      ok, touched := WriteLoop(inum, src, off);
      if !ok {
        return None, touched;
      }
      var o := off + |src|;
      if |src| > 0 && o > size {
        SizeKeepsTable(inodes, blocks, inum, o);
        inodes := inodes[inum := inodes[inum].(size := o)];
        ghost var s1, l1 := Shown(), logged;
        Iupdate(inum);
        LogsInode(g, s1, inum, inodes[inum], logged);
        LogsMore(g, old(Shown()), s1, Shown(), l1, logged);
        UnionSize(touched, {InodeBlock(g, inum)});
        touched := touched + {InodeBlock(g, inum)};
      } else {
        SameInodes(t0, inodes, old(inodes), old(blocks), blocks, inum, size);
      }
      AllFiles(t0, b0, T(), blocks, old(inodes), inodes, inum, off, src);
      return Some(|src|), touched;
    }

    /** The loop of `writei`. */
    method WriteLoop(inum: nat, src: seq<Byte>, off: nat) returns (ok: bool, ghost touched: set<nat>)
      requires Sound() && inum in inodes && NoHoles(T(), inum, inodes[inum].size)
      requires off <= inodes[inum].size && off + |src| <= MAXFILE * BSIZE
      modifies this`bitmap, this`blocks, this`logged, this`inodes, this`owner
      ensures Sound() && dinodes == old(dinodes)
      ensures !ok ==> Exhausted(g, bitmap)
      ensures ok ==>
        && SameSizes(old(inodes), inodes, inum)
        && WriteInv(old(T()), old(blocks), T(), blocks, inum, inodes[inum].size, off, off + |src|, src)
        && logged <= old(logged) + touched
        && (|src| <= 3 * BSIZE ==> |touched| < MAXOPBLOCKS)
      ensures old(logged) <= logged && Logs(g, old(Shown()), Shown(), logged)
    {
      hide Table, ShapeOk, Owned, NoHoles, Written, Kept, IndirectBlock, Allocations, WriteInv, SameSizes, LoopOk, Logs;
      LogsNone(g, Shown(), logged);
      ghost var t0, b0, size := T(), blocks, inodes[inum].size;
      ghost var c := Count(0, 0, {}, {});
      var n, tot, o := |src|, 0, off;
      LoopStart(t0, b0, inum, size, off, src);
      SameSizesRefl(inodes, inum);
      touched := {};
      while tot < n
        invariant 0 <= tot <= n && o == off + tot
        invariant Sound() && dinodes == old(dinodes) && SameSizes(old(inodes), inodes, inum) && inum in inodes
        invariant LoopOk(t0, b0, T(), blocks, inum, size, off, o, src, c)
        invariant logged <= old(logged) + c.data + c.maps + IndirectBlock(T(), inum)
        invariant old(logged) <= logged && Logs(g, old(Shown()), Shown(), logged)
      {
        var m := Min(n - tot, BSIZE - o % BSIZE);
        ChunkBounds(o, n - tot);
        ghost var t1, b1 := T(), blocks;
        LoopGives(t0, b0, t1, b1, inum, size, off, o, src, c);
        ghost var more;
        ghost var was, s1, l1 := inodes, Shown(), logged;
        ok, more := WriteChunk(inum, o, src[tot..tot + m], Max(size, o));
        LogsMore(g, old(Shown()), s1, Shown(), l1, logged);
        if !ok {
          return;
        }
        SameSizesTrans(old(inodes), was, inodes, inum);
        ghost var next := CountNext(t1, T(), inum, o, c, more);
        LoopNext(t0, b0, t1, b1, T(), blocks, inum, size, off, o, src, m, c, more);
        c := next;
        tot, o := tot + m, o + m;
      }
      touched := c.data + c.maps + IndirectBlock(T(), inum);
      LoopEnd(t0, b0, T(), blocks, inum, size, off, o, src, c);
      SameSizesRefl(old(inodes), inum);
      SameSizesTrans(old(inodes), old(inodes), inodes, inum);
      return true, touched;
    }

    // ----- Truncating

    /** Free the block of one slot; `t` is the table without the slots already freed. */
    method FreeSlot(b: nat, ghost t: map<Slot, nat>, ghost k: Slot) returns (panicked: bool)
      requires Owned(g, t, owner, bitmap) && k in t && t[k] == b != 0
      modifies this`bitmap, this`logged, this`owner
      ensures !panicked && Owned(g, t[k := 0], owner, bitmap) && owner == old(owner) - {b}
      ensures old(logged) <= logged && Logs(g, old(Shown()), Shown(), logged)
    {
      OwnedShrinks(g, t, owner, bitmap, k);
      hide Owned, TestBit, ClearBit, Logs;
      OwnedShape(g, t, owner, bitmap);
      panicked := Bfree(b);
      owner := owner - {b};
    }

    method TruncDirect(inum: nat) returns (panicked: bool)
      requires Sound() && inum in inodes
      modifies this`bitmap, this`logged, this`owner, this`inodes
      ensures !panicked && Sound() && SubMap(owner, old(owner))
      ensures SameSizes(old(inodes), inodes, inum)
      ensures Cleared(old(T()), T(), inum, 0, NDIRECT)
      ensures inodes[inum].addrs[NDIRECT] == old(inodes)[inum].addrs[NDIRECT]
      ensures old(logged) <= logged && Logs(g, old(Shown()), Shown(), logged)
    {
      hide Owned, Table, ShapeOk, Cleared, SubMap, Logs;
      LogsNone(g, Shown(), logged);
      ghost var t0 := T();
      ClearedStart(t0, inum, 0);
      SubMapRefl(owner);
      ShapeAt(inodes, blocks, inum);
      for i := 0 to NDIRECT
        invariant Sound() && SameSizes(old(inodes), inodes, inum) && SubMap(owner, old(owner))
        invariant Cleared(t0, T(), inum, 0, i) && InodeOk(inodes[inum])
        invariant inodes[inum].addrs[NDIRECT] == old(inodes)[inum].addrs[NDIRECT]
        invariant old(logged) <= logged && Logs(g, old(Shown()), Shown(), logged)
      {
        ghost var t1: map<Slot, nat>, k: Slot := T(), (inum, i);
        ShapeAt(inodes, blocks, inum);
        DetachDirect(inodes, blocks, inum, i);
        ClearedNext(t0, t1, inum, 0, i);
        var a := inodes[inum].addrs[i];
        if a != 0 {
          ghost var was, s1, l1 := owner, Shown(), logged;
          panicked := FreeSlot(a, t1, k);
          LogsMore(g, old(Shown()), s1, Shown(), l1, logged);
          SubMapRemove(was, old(owner), a);
          inodes := inodes[inum := inodes[inum].(addrs := inodes[inum].addrs[i := 0])];
        } else {
          ZeroStays(t1, k);
        }
      }
      return false;
    }

    method TruncIndirect(inum: nat) returns (panicked: bool)
      requires Sound() && inum in inodes && inodes[inum].addrs[NDIRECT] != 0
      modifies this`bitmap, this`logged, this`owner, this`inodes
      ensures !panicked && Sound() && SubMap(owner, old(owner))
      ensures SameSizes(old(inodes), inodes, inum)
      ensures Cleared(old(T()), T(), inum, NDIRECT, INDIRECT + 1)
      ensures old(logged) <= logged && Logs(g, old(Shown()), Shown(), logged)
    {
      hide Owned, Table, ShapeOk, Cleared, SubMap, Logs;
      LogsNone(g, Shown(), logged);
      ghost var t0 := T();
      ghost var t: map<Slot, nat> := t0;
      ShapeAt(inodes, blocks, inum);
      var d := inodes[inum].addrs[NDIRECT];
      var bp := blocks[d];
      ClearedStart(t0, inum, NDIRECT);
      SubMapRefl(owner);
      ghost var k: Slot;
      for j := 0 to NINDIRECT
        invariant Owned(g, t, owner, bitmap) && Cleared(t0, t, inum, NDIRECT, NDIRECT + j)
        invariant SubMap(owner, old(owner)) && inodes == old(inodes)
        invariant old(logged) <= logged && Logs(g, old(Shown()), Shown(), logged)
      {
        k := (inum, NDIRECT + j);
        WordInTable(inodes, blocks, inum, NDIRECT + j);
        ClearedNext(t0, t, inum, NDIRECT, NDIRECT + j);
        var a := Word(bp, j);
        if a != 0 {
          ghost var was, s1, l1 := owner, Shown(), logged;
          panicked := FreeSlot(a, t, k);
          LogsMore(g, old(Shown()), s1, Shown(), l1, logged);
          SubMapRemove(was, old(owner), a);
        } else {
          ZeroStays(t, k);
        }
        t := t[k := 0];
      }
      k := (inum, INDIRECT);
      ClearedNext(t0, t, inum, NDIRECT, INDIRECT);
      ghost var was, s1, l1 := owner, Shown(), logged;
      panicked := FreeSlot(d, t, k);
      LogsMore(g, old(Shown()), s1, Shown(), l1, logged);
      SubMapRemove(was, old(owner), d);
      DetachIndirect(inodes, blocks, inum, t0, t[k := 0]);
      inodes := inodes[inum := inodes[inum].(addrs := inodes[inum].addrs[NDIRECT := 0])];
    }

    /** Discard the contents of a file: exactly its blocks become free, and no block is freed twice. */
    method Itrunc(inum: nat) returns (panicked: bool)
      requires Valid() && inum in inodes
      modifies this`bitmap, this`logged, this`owner, this`inodes, this`dinodes
      ensures !panicked && Valid()
      ensures Files() == old(Files())[inum := []]
      ensures forall b: nat | b < g.size ::
        Marked(bitmap, b) <==> Marked(old(bitmap), b) && !(b in old(owner) && old(owner)[b].0 == inum)
      ensures old(logged) <= logged && Logs(g, old(Shown()), Shown(), logged)
    {
      hide Table, ShapeOk, Owned, NoHoles, Contents, Cleared, SubMap, AllWhole, Marked, Logs;
      ghost var t0, t1 := T(), T();
      TableKeys(inodes, blocks);
      panicked, t1 := TruncBlocks(inum);
      SizeKeepsTable(inodes, blocks, inum, 0);
      inodes := inodes[inum := inodes[inum].(size := 0)];
      ghost var s1, l1 := Shown(), logged;
      Iupdate(inum);
      LogsInode(g, s1, inum, inodes[inum], logged);
      LogsMore(g, old(Shown()), s1, Shown(), l1, logged);
      AllCleared(g, t0, t1, T(), old(owner), owner, old(bitmap), bitmap, blocks, old(inodes), inodes, inum);
    }

    /** Free the direct blocks, then those listed in the indirect block, then the indirect block. */
    method TruncBlocks(inum: nat) returns (panicked: bool, ghost mid: map<Slot, nat>)
      requires Sound() && inum in inodes
      modifies this`bitmap, this`logged, this`owner, this`inodes
      ensures !panicked && Sound() && SubMap(owner, old(owner))
      ensures SameSizes(old(inodes), inodes, inum)
      ensures Cleared(old(T()), mid, inum, 0, NDIRECT) && Cleared(mid, T(), inum, NDIRECT, INDIRECT + 1)
      ensures old(logged) <= logged && Logs(g, old(Shown()), Shown(), logged)
    {
      hide Table, ShapeOk, Owned, Cleared, SubMap, Logs;
      panicked := TruncDirect(inum);
      mid := T();
      ShapeAt(inodes, blocks, inum);
      if inodes[inum].addrs[NDIRECT] != 0 {
        ghost var was, s1, l1 := owner, Shown(), logged;
        panicked := TruncIndirect(inum);
        LogsMore(g, old(Shown()), s1, Shown(), l1, logged);
        SubMapTrans(owner, was, old(owner));
      } else {
        NothingIndirect(inodes, blocks, inum);
      }
    }
  }

  // ----- Truncating

  ghost predicate SubMap(a: map<nat, Slot>, b: map<nat, Slot>) {
    forall p | p in a :: p in b && a[p] == b[p]
  }

  lemma SubMapRefl(a: map<nat, Slot>)
    ensures SubMap(a, a)
  {
  }

  lemma SubMapRemove(a: map<nat, Slot>, b: map<nat, Slot>, p: nat)
    requires SubMap(a, b)
    ensures SubMap(a - {p}, b)
  {
  }

  lemma SubMapTrans(a: map<nat, Slot>, b: map<nat, Slot>, c: map<nat, Slot>)
    requires SubMap(a, b) && SubMap(b, c)
    ensures SubMap(a, c)
  {
  }

  lemma TableKeys(inodes: map<nat, Inode>, blocks: seq<Block>)
    requires ShapeOk(inodes, blocks)
    ensures forall k: Slot | k in Table(inodes, blocks) :: k.1 <= INDIRECT
  {
    var t := Table(inodes, blocks);
    forall k: Slot | k in t ensures k.1 <= INDIRECT {
      assert k == (k.0, k.1);
    }
  }

  /** Slots `lo` to `hi` of file `inum` are empty; all other slots are as before. */
  ghost predicate Cleared(t0: map<Slot, nat>, t: map<Slot, nat>, inum: nat, lo: nat, hi: nat) {
    && t.Keys == t0.Keys
    && forall k: Slot | k in t0 :: t[k] == if k.0 == inum && lo <= k.1 < hi then 0 else t0[k]
  }

  lemma ClearedStart(t: map<Slot, nat>, inum: nat, lo: nat)
    ensures Cleared(t, t, inum, lo, lo)
  {
  }

  lemma ClearedNext(t0: map<Slot, nat>, t: map<Slot, nat>, inum: nat, lo: nat, hi: nat)
    requires Cleared(t0, t, inum, lo, hi) && lo <= hi && (inum, hi) in t0
    ensures (inum, hi) in t && t[(inum, hi)] == t0[(inum, hi)]
    ensures Cleared(t0, t[(inum, hi) := 0], inum, lo, hi + 1)
  {
    var t' := t[(inum, hi) := 0];
    assert t'.Keys == t.Keys;
    forall k: Slot | k in t0 ensures t'[k] == if k.0 == inum && lo <= k.1 < hi + 1 then 0 else t0[k] {
      assert k == (k.0, k.1);
    }
  }

  lemma ZeroStays(t: map<Slot, nat>, k: Slot)
    requires k in t && t[k] == 0
    ensures t[k := 0] == t
  {
  }

  lemma DetachDirect(inodes: map<nat, Inode>, blocks: seq<Block>, inum: nat, s: nat)
    requires ShapeOk(inodes, blocks) && inum in inodes && s < NDIRECT
    ensures var inodes' := inodes[inum := inodes[inum].(addrs := inodes[inum].addrs[s := 0])];
            ShapeOk(inodes', blocks) && Table(inodes', blocks) == Table(inodes, blocks)[(inum, s) := 0]
  {
    var inodes' := inodes[inum := inodes[inum].(addrs := inodes[inum].addrs[s := 0])];
    TableUpdated(inodes, blocks, inodes', blocks, (inum, s), 0);
  }

  /** Dropping the indirect block empties all the slots in it. */
  lemma DetachIndirect(inodes: map<nat, Inode>, blocks: seq<Block>, inum: nat, t0: map<Slot, nat>, t: map<Slot, nat>)
    requires ShapeOk(inodes, blocks) && inum in inodes && t0 == Table(inodes, blocks) && |blocks| > 0
    requires Cleared(t0, t, inum, NDIRECT, INDIRECT + 1)
    ensures var inodes' := inodes[inum := inodes[inum].(addrs := inodes[inum].addrs[NDIRECT := 0])];
            ShapeOk(inodes', blocks) && Table(inodes', blocks) == t
  {
    hide Table, Word;
    var inodes' := inodes[inum := inodes[inum].(addrs := inodes[inum].addrs[NDIRECT := 0])];
    assert ShapeOk(inodes', blocks);
    forall i, s: nat | i in inodes && s <= INDIRECT ensures (i, s) in t && Ptr(inodes'[i], blocks, s) == t[(i, s)] {
      ClearedAt(t0, t, inum, NDIRECT, INDIRECT + 1, i, s);
    }
    forall k: Slot ensures k in t <==> k.0 in inodes && k.1 <= INDIRECT {
      assert k == (k.0, k.1) && t.Keys == t0.Keys;
    }
    TableIs(inodes', blocks, t);
  }

  lemma ClearedAt(t0: map<Slot, nat>, t: map<Slot, nat>, inum: nat, lo: nat, hi: nat, i: nat, s: nat)
    requires Cleared(t0, t, inum, lo, hi) && (i, s) in t0
    ensures (i, s) in t && t[(i, s)] == if i == inum && lo <= s < hi then 0 else t0[(i, s)]
  {
  }

  lemma TableIs(inodes: map<nat, Inode>, blocks: seq<Block>, t: map<Slot, nat>)
    requires ShapeOk(inodes, blocks)
    requires forall k: Slot :: k in t <==> k.0 in inodes && k.1 <= INDIRECT
    requires forall i, s: nat | i in inodes && s <= INDIRECT :: Ptr(inodes[i], blocks, s) == t[(i, s)]
    ensures Table(inodes, blocks) == t
  {
    hide Table, Ptr;
    var t' := Table(inodes, blocks);
    forall k: Slot ensures (k in t' <==> k in t) && (k in t' ==> t'[k] == t[k]) {
      assert k == (k.0, k.1);
    }
  }

  lemma NothingIndirect(inodes: map<nat, Inode>, blocks: seq<Block>, inum: nat)
    requires ShapeOk(inodes, blocks) && inum in inodes && inodes[inum].addrs[NDIRECT] == 0
    ensures Cleared(Table(inodes, blocks), Table(inodes, blocks), inum, NDIRECT, INDIRECT + 1)
  {
    var t := Table(inodes, blocks);
    forall k: Slot | k in t ensures t[k] == if k.0 == inum && NDIRECT <= k.1 < INDIRECT + 1 then 0 else t[k] {
      assert k == (k.0, k.1);
    }
  }

  lemma AllCleared(g: Geometry, t0: map<Slot, nat>, t1: map<Slot, nat>, t: map<Slot, nat>,
                   owner: map<nat, Slot>, owner': map<nat, Slot>, bitmap: seq<bv8>, bitmap': seq<bv8>,
                   blocks: seq<Block>, was: map<nat, Inode>, inodes: map<nat, Inode>, inum: nat)
    requires Owned(g, t0, owner, bitmap) && Owned(g, t, owner', bitmap')
    requires SubMap(owner', owner) && forall k: Slot | k in t0 :: k.1 <= INDIRECT
    requires Cleared(t0, t1, inum, 0, NDIRECT) && Cleared(t1, t, inum, NDIRECT, INDIRECT + 1)
    requires AllWhole(t0, was)
    requires inum in was && inodes.Keys == was.Keys && inodes[inum].size == 0
    requires forall i | i in was && i != inum :: inodes[i] == was[i]
    ensures AllWhole(t, inodes)
    ensures Contents(t, blocks, inodes) == Contents(t0, blocks, was)[inum := []]
    ensures forall b: nat | b < g.size ::
      Marked(bitmap', b) <==> Marked(bitmap, b) && !(b in owner && owner[b].0 == inum)
  {
    assert Cleared(t0, t, inum, 0, INDIRECT + 1);
    hide Cleared, Owned, SubMap, Content, Marked;
    OnlyItsBlocks(g, t0, t, owner, owner', bitmap, bitmap', inum);
    OtherFilesStay(t0, t, blocks, was, inodes, inum);
  }

  lemma OtherFilesStay(t0: map<Slot, nat>, t: map<Slot, nat>, blocks: seq<Block>,
                       was: map<nat, Inode>, inodes: map<nat, Inode>, inum: nat)
    requires Cleared(t0, t, inum, 0, INDIRECT + 1) && AllWhole(t0, was)
    requires inum in was && inodes.Keys == was.Keys && inodes[inum].size == 0
    requires forall i | i in was && i != inum :: inodes[i] == was[i]
    ensures AllWhole(t, inodes)
    ensures Contents(t, blocks, inodes) == Contents(t0, blocks, was)[inum := []]
  {
    hide Content, NoHoles, Cleared;
    forall i | i in inodes
      ensures NoHoles(t, i, inodes[i].size)
      ensures i != inum ==> Content(t, blocks, i, inodes[i].size) == Content(t0, blocks, i, was[i].size)
    {
      ClearedNoHoles(t0, t, inum, i, was[i].size);
      if i != inum {
        ClearedContent(t0, t, blocks, inum, i, was[i].size);
      }
    }
  }

  lemma ClearedNoHoles(t0: map<Slot, nat>, t: map<Slot, nat>, inum: nat, i: nat, size: nat)
    requires Cleared(t0, t, inum, 0, INDIRECT + 1) && NoHoles(t0, i, size)
    ensures NoHoles(t, i, if i == inum then 0 else size)
  {
  }

  lemma ClearedContent(t0: map<Slot, nat>, t: map<Slot, nat>, blocks: seq<Block>, inum: nat, i: nat, size: nat)
    requires Cleared(t0, t, inum, 0, INDIRECT + 1) && i != inum
    ensures Content(t, blocks, i, size) == Content(t0, blocks, i, size)
  {
  }

  lemma OnlyItsBlocks(g: Geometry, t0: map<Slot, nat>, t: map<Slot, nat>, owner: map<nat, Slot>, owner': map<nat, Slot>,
                      bitmap: seq<bv8>, bitmap': seq<bv8>, inum: nat)
    requires Owned(g, t0, owner, bitmap) && Owned(g, t, owner', bitmap') && SubMap(owner', owner)
    requires Cleared(t0, t, inum, 0, INDIRECT + 1) && forall k: Slot | k in t0 :: k.1 <= INDIRECT
    ensures forall b: nat | b < g.size ::
      Marked(bitmap', b) <==> Marked(bitmap, b) && !(b in owner && owner[b].0 == inum)
  {
    hide Marked;
    forall b: nat | b < g.size ensures Marked(bitmap', b) <==> Marked(bitmap, b) && !(b in owner && owner[b].0 == inum) {
      if b in owner && owner[b].0 != inum {
        assert t[owner[b]] == b;
      }
      if b in owner' {
        assert t[owner'[b]] == b;
      }
    }
  }

  // ----- Writing

  predicate Rejected(size: nat, off: nat, n: nat) {
    off > size || off + n >= U32 || off + n > MAXFILE * BSIZE
  }

  function Splice(c: seq<Byte>, off: nat, src: seq<Byte>): (r: seq<Byte>)
    requires off <= |c|
    ensures |r| == Max(|c|, off + |src|)
  {
    c[..off] + src + if off + |src| < |c| then c[off + |src|..] else []
  }

  /** What the loop of `writei` has achieved when it has written `done` at `off` and stands at `o`. */
  ghost predicate WriteInv(t0: map<Slot, nat>, b0: seq<Block>, t: map<Slot, nat>, b: seq<Block>,
                           inum: nat, size: nat, off: nat, o: nat, done: seq<Byte>)
  {
    && o == off + |done|
    && Kept(t0, t, inum)
    && NoHoles(t, inum, Max(size, o))
    && Written(t0, b0, t, b, inum, off, done)
  }

  lemma WriteStart(t: map<Slot, nat>, b: seq<Block>, inum: nat, size: nat, off: nat)
    requires NoHoles(t, inum, size) && off <= size
    ensures WriteInv(t, b, t, b, inum, size, off, off, [])
  {
  }

  lemma WriteGives(t0: map<Slot, nat>, b0: seq<Block>, t: map<Slot, nat>, b: seq<Block>,
                   inum: nat, size: nat, off: nat, o: nat, done: seq<Byte>)
    requires WriteInv(t0, b0, t, b, inum, size, off, o, done)
    ensures Kept(t0, t, inum) && NoHoles(t, inum, Max(size, o))
  {
  }

  lemma WriteAdvance(t0: map<Slot, nat>, b0: seq<Block>, t1: map<Slot, nat>, b1: seq<Block>, t2: map<Slot, nat>, b2: seq<Block>,
                     inum: nat, size: nat, off: nat, o: nat, done: seq<Byte>, chunk: seq<Byte>)
    requires WriteInv(t0, b0, t1, b1, inum, size, off, o, done)
    requires Kept(t1, t2, inum) && Written(t1, b1, t2, b2, inum, o, chunk)
    requires NoHoles(t2, inum, Max(Max(size, o), o + |chunk|))
    ensures WriteInv(t0, b0, t2, b2, inum, size, off, o + |chunk|, done + chunk)
  {
    forall x: nat | off <= x < off + |done| && (inum, x / BSIZE) in t0 ensures t1[(inum, x / BSIZE)] != 0 {
      Mapped(t1, inum, Max(size, o), x);
    }
    WrittenTrans(t0, b0, t1, b1, t2, b2, inum, off, done, chunk);
  }

  lemma SizeKeepsTable(inodes: map<nat, Inode>, blocks: seq<Block>, inum: nat, size: nat)
    requires ShapeOk(inodes, blocks) && inum in inodes
    ensures var inodes' := inodes[inum := inodes[inum].(size := size)];
            ShapeOk(inodes', blocks) && Table(inodes', blocks) == Table(inodes, blocks)
  {
    hide Table, Word;
    SameTable(inodes, blocks, inodes[inum := inodes[inum].(size := size)], blocks);
  }

  /** Without growth no pointer changed, so the inode on disk is still up to date. */
  lemma SameInodes(t0: map<Slot, nat>, inodes: map<nat, Inode>, was: map<nat, Inode>, b0: seq<Block>, blocks: seq<Block>,
                   inum: nat, size: nat)
    requires ShapeOk(was, b0) && ShapeOk(inodes, blocks) && t0 == Table(was, b0) && inum in was
    requires SameSizes(was, inodes, inum) && Kept(t0, Table(inodes, blocks), inum)
    requires NoHoles(t0, inum, size) && NoHoles(Table(inodes, blocks), inum, size)
    ensures inodes == was
  {
    var t := Table(inodes, blocks);
    ShapeAt(was, b0, inum);
    ShapeAt(inodes, blocks, inum);
    hide Table, ShapeOk;
    NoNewPointers(t0, t, inum, size);
    hide NoHoles, Kept;
    SameAddrs(inodes[inum].addrs, was[inum].addrs, t0, t, inum);
    assert inodes[inum] == was[inum];
  }

  lemma NoNewPointers(t0: map<Slot, nat>, t: map<Slot, nat>, inum: nat, size: nat)
    requires Kept(t0, t, inum) && NoHoles(t0, inum, size) && NoHoles(t, inum, size)
    ensures forall s: nat | s <= INDIRECT :: (inum, s) in t0 && (inum, s) in t && t[(inum, s)] == t0[(inum, s)]
  {
    assert INDIRECT == MAXFILE;
  }

  lemma SameAddrs(a: seq<nat>, b: seq<nat>, t0: map<Slot, nat>, t: map<Slot, nat>, inum: nat)
    requires |a| == |b| == NDIRECT + 1
    requires forall s: nat | s <= INDIRECT :: (inum, s) in t0 && (inum, s) in t && t[(inum, s)] == t0[(inum, s)]
    requires t[(inum, INDIRECT)] == a[NDIRECT] && t0[(inum, INDIRECT)] == b[NDIRECT]
    requires forall s: nat | s < NDIRECT :: t[(inum, s)] == a[s] && t0[(inum, s)] == b[s]
    ensures a == b
  {
    forall s: nat | s < |a| ensures a[s] == b[s] {
      if s < NDIRECT {
        assert t[(inum, s)] == t0[(inum, s)];
      }
    }
  }

  lemma OthersNoHoles(t0: map<Slot, nat>, t: map<Slot, nat>, inum: nat, i: nat, size: nat)
    requires NoHoles(t0, i, size) && Kept(t0, t, inum) && i != inum
    ensures NoHoles(t, i, size)
  {
  }

  lemma OtherContent(t0: map<Slot, nat>, b0: seq<Block>, t: map<Slot, nat>, b: seq<Block>,
                     inum: nat, off: nat, done: seq<Byte>, i: nat, size: nat)
    requires NoHoles(t0, i, size) && Written(t0, b0, t, b, inum, off, done) && i != inum
    ensures Content(t, b, i, size) == Content(t0, b0, i, size)
  {
    hide ByteAt;
    forall x: nat | x < size ensures Content(t, b, i, size)[x] == Content(t0, b0, i, size)[x] {
      Mapped(t0, i, size, x);
    }
  }

  lemma SplicedContent(t0: map<Slot, nat>, b0: seq<Block>, t: map<Slot, nat>, b: seq<Block>,
                       inum: nat, size: nat, off: nat, src: seq<Byte>)
    requires NoHoles(t0, inum, size) && off <= size && off + |src| <= MAXFILE * BSIZE
    requires Written(t0, b0, t, b, inum, off, src)
    ensures Content(t, b, inum, Max(size, off + |src|)) == Splice(Content(t0, b0, inum, size), off, src)
  {
    hide ByteAt;
    var c, r := Content(t0, b0, inum, size), Content(t, b, inum, Max(size, off + |src|));
    forall x: nat | x < |r| ensures r[x] == Splice(c, off, src)[x] {
      SlotExists(t0, inum, size, x);
      if x < size {
        Mapped(t0, inum, size, x);
      }
    }
  }

  lemma SlotExists(t: map<Slot, nat>, inum: nat, size: nat, x: nat)
    requires NoHoles(t, inum, size) && x < MAXFILE * BSIZE
    ensures x / BSIZE < MAXFILE && (inum, x / BSIZE) in t
  {
  }

  lemma AllFiles(t0: map<Slot, nat>, b0: seq<Block>, t: map<Slot, nat>, b: seq<Block>,
                 was: map<nat, Inode>, inodes: map<nat, Inode>, inum: nat, off: nat, src: seq<Byte>)
    requires inum in was && inodes.Keys == was.Keys && forall i | i in was && i != inum :: inodes[i] == was[i]
    requires AllWhole(t0, was)
    requires off <= was[inum].size && off + |src| <= MAXFILE * BSIZE
    requires inodes[inum].size == Max(was[inum].size, off + |src|)
    requires WriteInv(t0, b0, t, b, inum, was[inum].size, off, off + |src|, src)
    ensures AllWhole(t, inodes)
    ensures var m := Contents(t0, b0, was); Contents(t, b, inodes) == m[inum := Splice(m[inum], off, src)]
  {
    hide NoHoles, Written, Kept, Content, Splice;
    SplicedContent(t0, b0, t, b, inum, was[inum].size, off, src);
    forall i | i in inodes && i != inum
      ensures NoHoles(t, i, inodes[i].size) && Content(t, b, i, inodes[i].size) == Content(t0, b0, i, was[i].size)
    {
      OthersNoHoles(t0, t, inum, i, was[i].size);
      OtherContent(t0, b0, t, b, inum, off, src, i, was[i].size);
    }
  }

  // ----- Counting the blocks that one write logs

  ghost function IndirectNew(t0: map<Slot, nat>, t: map<Slot, nat>, inum: nat): nat {
    var k := (inum, INDIRECT);
    if k in t0 && k in t && t0[k] == 0 && t[k] != 0 then 1 else 0
  }

  /** After `d` rounds, `added` of which allocated their block: at most one data block per round, one bitmap
      block per allocation, and the first round allocates only when it starts at a block boundary. */
  ghost predicate CountInv(t0: map<Slot, nat>, t: map<Slot, nat>, inum: nat, off: nat, o: nat,
                           d: nat, added: nat, data: set<nat>, maps: set<nat>)
  {
    && |data| <= d && |maps| <= added + IndirectNew(t0, t, inum)
    && added <= d && (d > 0 && off % BSIZE != 0 ==> added < d)
    && (d > 0 ==> (off / BSIZE + d - 1) * BSIZE < o)
  }

  lemma CountStart(t: map<Slot, nat>, inum: nat, off: nat)
    ensures CountInv(t, t, inum, off, off, 0, 0, {}, {})
  {
  }

  lemma UnionSize(a: set<nat>, b: set<nat>)
    ensures |a + b| <= |a| + |b|
  {
    assert a + b == a + (b - a);
    assert |a + (b - a)| == |a| + |b - a|;
    assert |b - a| <= |b| by {
      assert b == (b - a) + (b * a);
      assert |b| == |b - a| + |b * a|;
    }
  }

  lemma CountAdvance(t0: map<Slot, nat>, t1: map<Slot, nat>, t2: map<Slot, nat>, inum: nat, size: nat, off: nat, o: nat, m: nat,
                     d: nat, added: nat, data: set<nat>, maps: set<nat>, more: set<nat>)
    requires CountInv(t0, t1, inum, off, o, d, added, data, maps) && Kept(t0, t1, inum) && Kept(t1, t2, inum)
    requires NoHoles(t1, inum, Max(size, o)) && NoHoles(t2, inum, Max(Max(size, o), o + m))
    requires 0 < m && off <= size && o + m <= MAXFILE * BSIZE && |more| <= Allocations(t1, inum, o / BSIZE)
    requires if d == 0 then o == off else o % BSIZE == 0 && o / BSIZE == off / BSIZE + d
    ensures (inum, o / BSIZE) in t1 && (inum, o / BSIZE) in t2
    ensures CountInv(t0, t2, inum, off, o + m, d + 1, added + if t1[(inum, o / BSIZE)] == 0 then 1 else 0,
                     data + {t2[(inum, o / BSIZE)]}, maps + more)
  {
    SlotExists(t1, inum, Max(size, o), o);
    UnionSize(data, {t2[(inum, o / BSIZE)]});
    UnionSize(maps, more);
    if d == 0 && off % BSIZE != 0 {
      FirstIsMapped(t1, inum, Max(size, o), off);
    }
    AllocationsBound(t0, t1, t2, inum, size, o, m);
    assert o / BSIZE * BSIZE <= o;
  }

  lemma FirstIsMapped(t: map<Slot, nat>, inum: nat, size: nat, off: nat)
    requires NoHoles(t, inum, size) && off <= size && off % BSIZE != 0
    ensures (inum, off / BSIZE) in t && t[(inum, off / BSIZE)] != 0
  {
    Mapped(t, inum, size, off - 1);
    assert (off - 1) / BSIZE == off / BSIZE;
  }

  lemma AllocationsBound(t0: map<Slot, nat>, t1: map<Slot, nat>, t2: map<Slot, nat>, inum: nat, size: nat, o: nat, m: nat)
    requires Kept(t0, t1, inum) && Kept(t1, t2, inum)
    requires NoHoles(t1, inum, Max(size, o)) && NoHoles(t2, inum, Max(Max(size, o), o + m)) && 0 < m
    requires o + m <= MAXFILE * BSIZE
    ensures (inum, o / BSIZE) in t1
    ensures Allocations(t1, inum, o / BSIZE) + IndirectNew(t0, t1, inum) <=
            (if t1[(inum, o / BSIZE)] == 0 then 1 else 0) + IndirectNew(t0, t2, inum)
  {
    SlotExists(t1, inum, Max(size, o), o);
    assert o / BSIZE * BSIZE <= o;
  }

  lemma IndirectStays(t1: map<Slot, nat>, t2: map<Slot, nat>, inum: nat)
    requires Kept(t1, t2, inum)
    ensures IndirectBlock(t1, inum) <= IndirectBlock(t2, inum)
  {
  }

  /** A chunk of at most three blocks' worth of bytes logs at most nine blocks besides the inode's. */
  lemma CountTotal(t0: map<Slot, nat>, t: map<Slot, nat>, inum: nat, off: nat, o: nat,
                   d: nat, added: nat, data: set<nat>, maps: set<nat>)
    requires CountInv(t0, t, inum, off, o, d, added, data, maps)
    ensures o <= off + 3 * BSIZE ==> |data + maps + IndirectBlock(t, inum)| < MAXOPBLOCKS
  {
    UnionSize(data, maps);
    UnionSize(data + maps, IndirectBlock(t, inum));
    assert off < off / BSIZE * BSIZE + BSIZE;
    if o <= off + 3 * BSIZE {
      assert d <= 4;
      if d == 4 {
        assert off % BSIZE != 0;
      }
    }
  }

  /** The rounds so far, those that allocated, the data blocks and the bitmap blocks touched. */
  datatype Count = Count(d: nat, added: nat, data: set<nat>, maps: set<nat>)

  ghost function CountNext(t1: map<Slot, nat>, t2: map<Slot, nat>, inum: nat, o: nat, c: Count, more: set<nat>): Count {
    Count(c.d + 1, c.added + (if PtrAt(t1, inum, o / BSIZE) == 0 then 1 else 0),
          c.data + {PtrAt(t2, inum, o / BSIZE)}, c.maps + more)
  }

  /** What the loop of `writei` keeps: the bytes written so far, and the count of blocks. */
  ghost predicate LoopOk(t0: map<Slot, nat>, b0: seq<Block>, t: map<Slot, nat>, b: seq<Block>,
                         inum: nat, size: nat, off: nat, o: nat, src: seq<Byte>, c: Count)
  {
    && off <= o <= off + |src| && off <= size
    && WriteInv(t0, b0, t, b, inum, size, off, o, src[..o - off])
    && CountInv(t0, t, inum, off, o, c.d, c.added, c.data, c.maps)
    && (o < off + |src| && c.d > 0 ==> o % BSIZE == 0 && o / BSIZE == off / BSIZE + c.d)
    && (c.d == 0 ==> o == off)
  }

  lemma LoopStart(t: map<Slot, nat>, b: seq<Block>, inum: nat, size: nat, off: nat, src: seq<Byte>)
    requires NoHoles(t, inum, size) && off <= size
    ensures LoopOk(t, b, t, b, inum, size, off, off, src, Count(0, 0, {}, {}))
  {
    hide NoHoles, WriteInv, CountInv;
    WriteStart(t, b, inum, size, off);
    CountStart(t, inum, off);
    assert src[..0] == [];
  }

  lemma LoopGives(t0: map<Slot, nat>, b0: seq<Block>, t: map<Slot, nat>, b: seq<Block>,
                  inum: nat, size: nat, off: nat, o: nat, src: seq<Byte>, c: Count)
    requires LoopOk(t0, b0, t, b, inum, size, off, o, src, c)
    ensures NoHoles(t, inum, Max(size, o)) && o <= Max(size, o) && Kept(t0, t, inum)
  {
    hide NoHoles, CountInv, Kept, Written;
  }

  lemma LoopNext(t0: map<Slot, nat>, b0: seq<Block>, t1: map<Slot, nat>, b1: seq<Block>, t2: map<Slot, nat>, b2: seq<Block>,
                 inum: nat, size: nat, off: nat, o: nat, src: seq<Byte>, m: nat, c: Count, more: set<nat>)
    requires LoopOk(t0, b0, t1, b1, inum, size, off, o, src, c) && o < off + |src| && o + m <= MAXFILE * BSIZE
    requires m == Min(off + |src| - o, BSIZE - o % BSIZE)
    requires Kept(t1, t2, inum) && Written(t1, b1, t2, b2, inum, o, src[o - off..o - off + m])
    requires NoHoles(t2, inum, Max(Max(size, o), o + m)) && |more| <= Allocations(t1, inum, o / BSIZE)
    ensures LoopOk(t0, b0, t2, b2, inum, size, off, o + m, src, CountNext(t1, t2, inum, o, c, more))
    ensures IndirectBlock(t1, inum) <= IndirectBlock(t2, inum)
  {
    hide NoHoles, WriteInv, CountInv, Kept, Written, IndirectBlock, Allocations;
    var tot := o - off;
    WriteGives(t0, b0, t1, b1, inum, size, off, o, src[..tot]);
    WriteAdvance(t0, b0, t1, b1, t2, b2, inum, size, off, o, src[..tot], src[tot..tot + m]);
    PrefixGrows(src, tot, m);
    IndirectStays(t1, t2, inum);
    CountAdvance(t0, t1, t2, inum, size, off, o, m, c.d, c.added, c.data, c.maps, more);
    NextBlock(off, o, c.d, m, off + |src|);
  }

  lemma NextBlock(off: nat, o: nat, d: nat, m: nat, end: nat)
    requires o < end && m == Min(end - o, BSIZE - o % BSIZE)
    requires if d == 0 then o == off else o % BSIZE == 0 && o / BSIZE == off / BSIZE + d
    ensures m > 0 && (o + m < end ==> (o + m) % BSIZE == 0 && (o + m) / BSIZE == off / BSIZE + d + 1)
  {
    ChunkBounds(o, end - o);
  }

  lemma LoopEnd(t0: map<Slot, nat>, b0: seq<Block>, t: map<Slot, nat>, b: seq<Block>,
                inum: nat, size: nat, off: nat, o: nat, src: seq<Byte>, c: Count)
    requires LoopOk(t0, b0, t, b, inum, size, off, o, src, c) && o == off + |src|
    ensures WriteInv(t0, b0, t, b, inum, size, off, o, src)
    ensures |src| <= 3 * BSIZE ==> |c.data + c.maps + IndirectBlock(t, inum)| < MAXOPBLOCKS
  {
    hide WriteInv, CountInv, IndirectBlock;
    assert src[..|src|] == src;
    CountTotal(t0, t, inum, off, o, c.d, c.added, c.data, c.maps);
  }

  lemma BlockSize(inodes: map<nat, Inode>, blocks: seq<Block>, p: nat)
    requires ShapeOk(inodes, blocks) && p < |blocks|
    ensures |blocks[p]| == BSIZE && BlocksOk(blocks)
  {
  }

  lemma Wraps(off: nat, n: nat)
    requires off < U32 && n < U32
    ensures (off + n) % U32 < off <==> off + n >= U32
  {
  }

  lemma ChunkBounds(o: nat, left: nat)
    requires left > 0
    ensures var m := Min(left, BSIZE - o % BSIZE);
            && 0 < m <= left && o % BSIZE + m <= BSIZE && (m < left ==> (o + m) % BSIZE == 0)
            && (m < left ==> (o + m) / BSIZE == o / BSIZE + 1)
  {
    var m := Min(left, BSIZE - o % BSIZE);
    if m < left {
      assert o + m == (o / BSIZE + 1) * BSIZE;
    }
  }

  lemma PrefixGrows(s: seq<Byte>, i: nat, m: nat)
    requires i + m <= |s|
    ensures s[..i] + s[i..i + m] == s[..i + m]
  {
  }

  lemma Joined(c: seq<Byte>, a: nat, b: nat, d: nat)
    requires a <= b <= d <= |c|
    ensures c[a..b] + c[b..d] == c[a..d]
  {
  }

  /** Below the size of a file without holes every block is there. */
  lemma Mapped(t: map<Slot, nat>, inum: nat, size: nat, o: nat)
    requires NoHoles(t, inum, size) && o < size
    ensures o / BSIZE < MAXFILE && (inum, o / BSIZE) in t && t[(inum, o / BSIZE)] != 0
  {
    assert o / BSIZE * BSIZE <= o;
  }

  /** Pointers that were set, and all pointers of other files, are as before. */
  ghost predicate Kept(t: map<Slot, nat>, t': map<Slot, nat>, inum: nat) {
    t'.Keys == t.Keys && forall k | k in t && (t[k] != 0 || k.0 != inum) :: t'[k] == t[k]
  }

  lemma GrewWritten(g: Geometry, t: map<Slot, nat>, t': map<Slot, nat>, owner: map<nat, Slot>, owner': map<nat, Slot>,
                    bitmap: seq<bv8>, blocks: seq<Block>, blocks': seq<Block>, inum: nat, off: nat)
    requires Owned(g, t, owner, bitmap) && |blocks| == g.size
    requires Grew(t, t', owner, owner', blocks, blocks', inum, off / BSIZE)
    ensures Kept(t, t', inum) && Written(t, blocks, t', blocks', inum, off, [])
  {
    forall i: nat, x: nat | x / BSIZE < MAXFILE && (i, x / BSIZE) in t && t[(i, x / BSIZE)] != 0
      ensures ByteAt(t', blocks', i, x) == ByteAt(t, blocks, i, x)
    {
      var k := (i, x / BSIZE);
      assert owner[t[k]] == k && t'[k] == t[k];
    }
  }

  lemma GrewNoHoles(t: map<Slot, nat>, t': map<Slot, nat>, owner: map<nat, Slot>, owner': map<nat, Slot>,
                    blocks: seq<Block>, blocks': seq<Block>, inum: nat, size: nat, off: nat, m: nat)
    requires Grew(t, t', owner, owner', blocks, blocks', inum, off / BSIZE)
    requires NoHoles(t, inum, size) && off <= size && 0 < m && off % BSIZE + m <= BSIZE && off + m <= MAXFILE * BSIZE
    ensures NoHoles(t', inum, Max(size, off + m))
  {
    NoHolesGrows(t, t', inum, size, off, m);
  }

  ghost predicate SameSizes(inodes: map<nat, Inode>, inodes': map<nat, Inode>, inum: nat) {
    && inodes'.Keys == inodes.Keys
    && (forall i | i in inodes && i != inum :: inodes'[i] == inodes[i])
    && (inum in inodes ==> inodes'[inum].size == inodes[inum].size)
  }

  lemma SameSizesRefl(a: map<nat, Inode>, inum: nat)
    ensures SameSizes(a, a, inum)
  {
  }

  lemma SameSizesTrans(a: map<nat, Inode>, b: map<nat, Inode>, c: map<nat, Inode>, inum: nat)
    requires SameSizes(a, b, inum) && SameSizes(b, c, inum) && inum in a
    ensures SameSizes(a, c, inum) && inum in c && c[inum].size == a[inum].size
  {
  }

  /** How many blocks `bmap` has to allocate. */
  ghost function Allocations(t: map<Slot, nat>, inum: nat, bn: nat): nat {
    if (inum, bn) !in t || t[(inum, bn)] != 0 then 0
    else if bn >= NDIRECT && (inum, INDIRECT) in t && t[(inum, INDIRECT)] == 0 then 2
    else 1
  }

  ghost function IndirectBlock(t: map<Slot, nat>, inum: nat): set<nat> {
    if (inum, INDIRECT) in t && t[(inum, INDIRECT)] != 0 then {t[(inum, INDIRECT)]} else {}
  }

  lemma PtrInRange(g: Geometry, t: map<Slot, nat>, owner: map<nat, Slot>, bitmap: seq<bv8>, k: Slot)
    requires Owned(g, t, owner, bitmap) && k in t && t[k] != 0
    ensures 0 < t[k] < g.size && t[k] in owner && owner[t[k]] == k
  {
  }

  lemma WordInTable(inodes: map<nat, Inode>, blocks: seq<Block>, inum: nat, s: nat)
    requires ShapeOk(inodes, blocks) && inum in inodes && NDIRECT <= s < INDIRECT
    ensures (inum, s) in Table(inodes, blocks) && InodeOk(inodes[inum])
    ensures var d := inodes[inum].addrs[NDIRECT];
            if d == 0 then Table(inodes, blocks)[(inum, s)] == 0
            else d < |blocks| && |blocks[d]| == BSIZE && Table(inodes, blocks)[(inum, s)] == Word(blocks[d], s - NDIRECT)
  {
  }

  lemma GrewIndirect(t0: map<Slot, nat>, t1: map<Slot, nat>, t2: map<Slot, nat>,
                     o0: map<nat, Slot>, o1: map<nat, Slot>, o2: map<nat, Slot>,
                     b0: seq<Block>, b1: seq<Block>, b2: seq<Block>,
                     inum: nat, bn: nat, added: bool, ind: nat, c: nat)
    requires (inum, bn) in t0 && t0[(inum, bn)] == 0 && NDIRECT <= bn < INDIRECT && (inum, INDIRECT) in t0
    requires |b0| == |b1| == |b2|
    requires if added then
               && t0[(inum, INDIRECT)] == 0 && t1 == t0[(inum, INDIRECT) := ind] && ind !in o0 && ind < |b0|
               && o1 == o0[ind := (inum, INDIRECT)] && b1 == b0[ind := Zeros()]
             else t1 == t0 && o1 == o0 && b1 == b0
    requires ind == t1[(inum, INDIRECT)] != 0 && ind in o1 && o1[ind] == (inum, INDIRECT)
    requires c != 0 && c !in o1 && t2 == t1[(inum, bn) := c] && o2 == o1[c := (inum, bn)]
    requires forall p: nat | p < |b1| && p != c && p != ind :: b2[p] == b1[p]
    ensures Grew(t0, t2, o0, o2, b0, b2, inum, bn)
  {
    assert t2.Keys == t0.Keys;
  }

  lemma OwnedShape(g: Geometry, t: map<Slot, nat>, owner: map<nat, Slot>, bitmap: seq<bv8>)
    requires Owned(g, t, owner, bitmap)
    ensures g.Valid() && g.size <= 8 * |bitmap|
  {
  }

  lemma ShapeAt(inodes: map<nat, Inode>, blocks: seq<Block>, inum: nat)
    requires ShapeOk(inodes, blocks) && inum in inodes
    ensures InodeOk(inodes[inum]) && inodes[inum].addrs[NDIRECT] < |blocks| && BlocksOk(blocks)
    ensures forall s: nat | s <= INDIRECT :: (inum, s) in Table(inodes, blocks)
    ensures Table(inodes, blocks)[(inum, INDIRECT)] == inodes[inum].addrs[NDIRECT]
    ensures forall s: nat | s < NDIRECT :: Table(inodes, blocks)[(inum, s)] == inodes[inum].addrs[s]
  {
  }
}
