/**
 How the HFS reader maps a file onto its extents, and what its read loop delivers.
 */
module HfsExtents {
  import opened Basics
  const NODE_SIZE := 512

  /** A run of allocation blocks. */
  datatype Extent = Extent(block: nat, count: nat)

  /** The fields of a mounted volume that addressing uses. */
  datatype Volume = Volume(partOffset: nat, allocStart: nat, blockSize: nat)

  datatype Segment = NoSegment | Segment(start: nat, extStart: nat, extLen: nat)

  // ---------- The reference: a file is the concatenation of its extents ----------

  function Length(ext: seq<Extent>, size: nat): (n: nat)
  {
    if ext == [] then 0 else ext[0].count * size + Length(ext[1..], size)
  }

  /** The place in the partition of logical byte `addr`. */
  function Place(vol: Volume, ext: seq<Extent>, addr: nat): (p: nat)
    requires addr < Length(ext, vol.blockSize)
  {
    var len := ext[0].count * vol.blockSize;
    if addr < len then vol.allocStart * NODE_SIZE + ext[0].block * vol.blockSize + addr
    else Place(vol, ext[1..], addr - len)
  }

  /** How many bytes of the extent that holds `addr` are left from there on. */
  function Left(ext: seq<Extent>, size: nat, addr: nat): (n: nat)
    requires addr < Length(ext, size)
    ensures 0 < n <= Length(ext, size) - addr
  {
    var len := ext[0].count * size;
    if addr < len then len - addr else Left(ext[1..], size, addr - len)
  }

  // ---------- The code ----------

  /** The sixteen-bit sum of the counts in front of extent `i`. */
  function Before(ext: seq<Extent>, i: nat): (n: nat)
    requires i <= |ext|
  {
    if i == 0 then 0 else Before(ext, i - 1) + ext[i - 1].count
  }

  /** Three extents whose first two do not overflow the sixteen-bit running total. */
  ghost predicate IsExtentRecord(ext: seq<Extent>)
  {
    |ext| == 3 && ext[0].count + ext[1].count < 0x10000
  }

  /** The segment that holds `addr`: found for every byte of the file and for no other. */
  method GetFileSeg(vol: Volume, ext: seq<Extent>, addr: nat) returns (r: Segment)
    requires IsExtentRecord(ext) && vol.blockSize > 0
    ensures r.Segment? <==> addr < Length(ext, vol.blockSize)
    ensures r.Segment? ==>
      && r.extStart <= addr < r.extStart + r.extLen
      && addr - r.extStart + r.start == Place(vol, ext, addr)
      && r.extStart + r.extLen - addr == Left(ext, vol.blockSize, addr)
  {
    hide Skipped, Length, Place, Left;
    var bs := vol.blockSize;
    var block := addr / bs;
    var total := 0;
    SkipNothing(vol, ext, addr);
    var i := 0;
    while i < 3
      invariant 0 <= i <= 3 && (i < 3 ==> total == Before(ext, i))
      invariant i < 3 ==> total * bs <= addr
      invariant i < 3 ==> Skipped(vol, ext, i, addr)
      invariant i == 3 ==> Length(ext, bs) <= addr
    {
      var count := ext[i].count;
      BlockTest(addr, bs, total, count);
      Distribute(total, count, bs);
      if count != 0 && count + total > block {
        FoundHere(vol, ext, i, addr);
        return Segment(vol.allocStart * NODE_SIZE + ext[i].block * bs, total * bs, count * bs);
      }
      SkipNext(vol, ext, i, addr);
      if i == 2 { SkippedAll(vol, ext, addr); }
      total := (total + count) % 0x10000;
      i := i + 1;
    }
    return NoSegment;
  }

  /** The file from extent `i` on, seen from behind the extents in front of it. */
  ghost predicate Skipped(vol: Volume, ext: seq<Extent>, i: nat, addr: nat)
    requires i <= |ext|
  {
    var bs := vol.blockSize;
    var rest := addr - Before(ext, i) * bs;
    && 0 <= rest && Length(ext, bs) == Before(ext, i) * bs + Length(ext[i..], bs)
    && (addr < Length(ext, bs) ==>
          Place(vol, ext, addr) == Place(vol, ext[i..], rest) && Left(ext, bs, addr) == Left(ext[i..], bs, rest))
  }

  lemma SkipNothing(vol: Volume, ext: seq<Extent>, addr: nat)
    ensures Skipped(vol, ext, 0, addr)
  {
    assert ext[0..] == ext;
  }

  lemma SkippedAll(vol: Volume, ext: seq<Extent>, addr: nat)
    requires Skipped(vol, ext, |ext|, addr)
    ensures Length(ext, vol.blockSize) <= addr
  {
    assert ext[|ext|..] == [];
  }

  /** The address lies in extent `i`: everything is counted from the start of that extent. */
  lemma FoundHere(vol: Volume, ext: seq<Extent>, i: nat, addr: nat)
    requires i < |ext| && Skipped(vol, ext, i, addr)
    requires addr < Before(ext, i) * vol.blockSize + ext[i].count * vol.blockSize
    ensures addr < Length(ext, vol.blockSize)
    ensures var rest := addr - Before(ext, i) * vol.blockSize;
            && Place(vol, ext, addr) == vol.allocStart * NODE_SIZE + ext[i].block * vol.blockSize + rest
            && Left(ext, vol.blockSize, addr) == ext[i].count * vol.blockSize - rest
  {
    assert ext[i..][0] == ext[i];
  }

  lemma SkipNext(vol: Volume, ext: seq<Extent>, i: nat, addr: nat)
    requires i < |ext| && Skipped(vol, ext, i, addr) && (Before(ext, i) + ext[i].count) * vol.blockSize <= addr
    ensures Skipped(vol, ext, i + 1, addr)
  {
    var bs := vol.blockSize;
    Distribute(Before(ext, i), ext[i].count, bs);
    assert ext[i..][0] == ext[i] && ext[i..][1..] == ext[i + 1..];
  }

  lemma Distribute(a: int, b: int, c: int)
    ensures (a + b) * c == a * c + b * c
  {
  }

  lemma MulMono(a: int, b: int, c: int)
    requires a <= b && 0 <= c
    ensures a * c <= b * c
  {
  }

  /** Comparing block numbers is comparing byte addresses. */
  lemma BlockTest(addr: nat, bs: nat, total: nat, count: nat)
    requires bs > 0
    ensures total + count > addr / bs <==> (total + count) * bs > addr
  {
    var q := addr / bs;
    assert q * bs <= addr < q * bs + bs;
    if total + count > q {
      MulMono(q + 1, total + count, bs);
      Distribute(q, 1, bs);
    } else {
      MulMono(total + count, q, bs);
    }
  }

  // ---------- Reading ----------

  /** Byte `k` of the file's contents on a medium. */
  function FileByte(vol: Volume, ext: seq<Extent>, disc: int -> byte, k: nat): (b: byte)
    requires k < Length(ext, vol.blockSize)
  {
    disc(vol.partOffset + Place(vol, ext, k))
  }

  /** `n` bytes of the medium from address `p` on. */
  function DiscBytes(disc: int -> byte, p: int, n: nat): (bs: seq<byte>)
    ensures |bs| == n && forall i :: 0 <= i < n ==> bs[i] == disc(p + i)
  {
    if n == 0 then [] else DiscBytes(disc, p, n - 1) + [disc(p + n - 1)]
  }

  /** `buf` is the stretch of `left` bytes from `offset` on, over and over. */
  ghost predicate Repeats(vol: Volume, ext: seq<Extent>, disc: int -> byte, offset: nat, left: nat, buf: seq<byte>)
    requires 0 < left && offset + left <= Length(ext, vol.blockSize)
  {
    forall k :: 0 <= k < |buf| ==> buf[k] == FileByte(vol, ext, disc, offset + k % left)
  }

  lemma RepeatsOnce(vol: Volume, ext: seq<Extent>, disc: int -> byte, offset: nat, left: nat, buf: seq<byte>,
                    chunk: seq<byte>)
    requires 0 < left && offset + left <= Length(ext, vol.blockSize) && Repeats(vol, ext, disc, offset, left, buf)
    requires |buf| % left == 0 && |chunk| <= left
    requires forall j :: 0 <= j < |chunk| ==> chunk[j] == FileByte(vol, ext, disc, offset + j)
    ensures Repeats(vol, ext, disc, offset, left, buf + chunk)
    ensures |chunk| == left ==> (|buf| + |chunk|) % left == 0
  {
    hide FileByte, Length;
    forall k | |buf| <= k < |buf + chunk|
      ensures (buf + chunk)[k] == FileByte(vol, ext, disc, offset + k % left)
    {
      ModShift(|buf|, left, k - |buf|);
      assert k % left == k - |buf|;
    }
    ModNext(|buf|, left);
  }

  /** Inside one extent consecutive bytes of the file are consecutive on the medium. */
  lemma ChunkIsFile(vol: Volume, ext: seq<Extent>, disc: int -> byte, offset: nat, chunk: seq<byte>)
    requires offset < Length(ext, vol.blockSize) && |chunk| <= Left(ext, vol.blockSize, offset)
    requires forall j :: 0 <= j < |chunk| ==> chunk[j] == disc(vol.partOffset + Place(vol, ext, offset) + j)
    ensures forall j :: 0 <= j < |chunk| ==> chunk[j] == FileByte(vol, ext, disc, offset + j)
  {
    hide Place, Left, Length;
    forall j | 0 <= j < |chunk|
      ensures chunk[j] == FileByte(vol, ext, disc, offset + j)
    {
      SamePlace(vol, ext, offset, j);
      assert vol.partOffset + Place(vol, ext, offset + j) == vol.partOffset + Place(vol, ext, offset) + j;
    }
  }

  /**
   The read loop. The offset never advances, so a request that reaches past the extent in
   which it begins gets the rest of that extent over and over.
   */
  method FileRead(vol: Volume, ext: seq<Extent>, disc: int -> byte, offset: nat, size: nat)
    returns (r: Option<seq<byte>>)
    requires IsExtentRecord(ext) && vol.blockSize > 0
    ensures r.None? <==> size != 0 && Length(ext, vol.blockSize) <= offset
    ensures r.Some? ==> |r.value| == size
    ensures r.Some? && size != 0 ==>
      Repeats(vol, ext, disc, offset, Left(ext, vol.blockSize, offset), r.value)
  {
    hide Place, Left, Length, IsExtentRecord, FileByte;
    var buffer, rest := [], size;
    while rest != 0
      invariant 0 <= rest <= size && |buffer| == size - rest
      invariant rest < size ==> offset < Length(ext, vol.blockSize)
      invariant offset < Length(ext, vol.blockSize) ==>
        var left := Left(ext, vol.blockSize, offset);
        (rest != 0 ==> |buffer| % left == 0) && Repeats(vol, ext, disc, offset, left, buffer)
    {
      var seg := GetFileSeg(vol, ext, offset);
      if seg.NoSegment? {
        return None;
      }
      var addr := offset - seg.extStart + seg.start;
      var left := seg.extLen - (offset - seg.extStart);
      var toread := if left < rest then left else rest;
      var chunk := DiscBytes(disc, vol.partOffset + addr, toread);
      ChunkIsFile(vol, ext, disc, offset, chunk);
      RepeatsOnce(vol, ext, disc, offset, left, buffer, chunk);
      buffer := buffer + chunk;
      rest := rest - toread;
    }
    return Some(buffer);
  }

  lemma ModShift(a: nat, m: nat, j: nat)
    requires j < m && a % m == 0
    ensures (a + j) % m == j
  {
    var q := a / m;
    assert a + j == m * q + j;
    ModUnique(q, m, j);
  }

  lemma ModUnique(q: nat, m: nat, j: nat)
    requires j < m
    ensures (m * q + j) % m == j
  {
    var x := m * q + j;
    var d := x / m - q;
    assert m * d == j - x % m;
    if d >= 1 { MulMono(1, d, m); }
    if d <= -1 { MulMono(d, -1, m); }
  }

  lemma ModNext(a: nat, m: nat)
    requires m > 0 && a % m == 0
    ensures (a + m) % m == 0
  {
    var q := a / m;
    assert a + m == m * (q + 1) + 0;
    ModUnique(q + 1, m, 0);
  }

  /** Inside one extent places are consecutive. */
  lemma {:induction false} SamePlace(vol: Volume, ext: seq<Extent>, addr: nat, j: nat)
    requires addr < Length(ext, vol.blockSize) && j < Left(ext, vol.blockSize, addr)
    ensures addr + j < Length(ext, vol.blockSize) && Place(vol, ext, addr + j) == Place(vol, ext, addr) + j
    decreases ext
  {
    var len := ext[0].count * vol.blockSize;
    if addr >= len {
      SamePlace(vol, ext[1..], addr - len, j);
    }
  }

  // ---------- When a read is right ----------

  /** The extents of a file share no allocation block. */
  ghost predicate Disjoint(ext: seq<Extent>)
  {
    forall i, j :: 0 <= i < j < |ext| ==>
      ext[i].block + ext[i].count <= ext[j].block || ext[j].block + ext[j].count <= ext[i].block
  }

  ghost predicate OutsideExtent(vol: Volume, e: Extent, p: int)
  {
    var base := vol.allocStart * NODE_SIZE;
    p < base + e.block * vol.blockSize || base + (e.block + e.count) * vol.blockSize <= p
  }

  lemma {:induction false} PlaceOutside(vol: Volume, ext: seq<Extent>, e: Extent, addr: nat)
    requires addr < Length(ext, vol.blockSize)
    requires forall i :: 0 <= i < |ext| ==>
      e.block + e.count <= ext[i].block || ext[i].block + ext[i].count <= e.block
    ensures OutsideExtent(vol, e, Place(vol, ext, addr))
    decreases ext
  {
    var bs, f := vol.blockSize, ext[0];
    if addr < f.count * bs {
      Distribute(f.block, f.count, bs);
      if e.block + e.count <= f.block { MulMono(e.block + e.count, f.block, bs); }
      else { MulMono(f.block + f.count, e.block, bs); }
    } else {
      PlaceOutside(vol, ext[1..], e, addr - f.count * bs);
    }
  }

  lemma {:induction false} PlacesDiffer(vol: Volume, ext: seq<Extent>, a: nat, b: nat)
    requires Disjoint(ext) && a < b < Length(ext, vol.blockSize)
    ensures Place(vol, ext, a) != Place(vol, ext, b)
    decreases ext
  {
    var bs := vol.blockSize;
    var len := ext[0].count * bs;
    if len <= a {
      PlacesDiffer(vol, ext[1..], a - len, b - len);
    } else if len <= b {
      PlaceOutside(vol, ext[1..], ext[0], b - len);
      Distribute(ext[0].block, ext[0].count, bs);
    }
  }

  /** What `FileRead` delivers is the file's contents on this medium. */
  ghost predicate ReadsRight(vol: Volume, ext: seq<Extent>, disc: int -> byte, offset: nat, size: nat)
    requires offset + size <= Length(ext, vol.blockSize) && 0 < size
  {
    var left := Left(ext, vol.blockSize, offset);
    forall k :: 0 <= k < size ==> FileByte(vol, ext, disc, offset + k % left) == FileByte(vol, ext, disc, offset + k)
  }

  /**
   The read loop, exactly: it delivers the file's bytes whatever the medium holds if and
   only if the request stays inside the extent in which it begins.
   */
  lemma ReadsRightExactly(vol: Volume, ext: seq<Extent>, offset: nat, size: nat)
    requires Disjoint(ext) && offset + size <= Length(ext, vol.blockSize) && 0 < size
    ensures (forall disc: int -> byte :: ReadsRight(vol, ext, disc, offset, size))
            <==> size <= Left(ext, vol.blockSize, offset)
  {
    var left := Left(ext, vol.blockSize, offset);
    if size <= left {
      assert forall k :: 0 <= k < size ==> k % left == k by {
        forall k | 0 <= k < size ensures k % left == k { ModUnique(0, left, k); }
      }
    } else {
      var p := vol.partOffset + Place(vol, ext, offset);
      var disc: int -> byte := x => if x == p then 1 else 0;
      PlacesDiffer(vol, ext, offset, offset + left);
      ModNext(0, left);
      assert FileByte(vol, ext, disc, offset + left % left) == 1;
      assert FileByte(vol, ext, disc, offset + left) == 0;
      assert !ReadsRight(vol, ext, disc, offset, size);
    }
  }

  lemma {:induction false} LeftIsAligned(ext: seq<Extent>, size: nat, addr: nat)
    requires size % NODE_SIZE == 0 && addr % NODE_SIZE == 0 && addr < Length(ext, size)
    ensures Left(ext, size, addr) % NODE_SIZE == 0
    decreases ext
  {
    var len := ext[0].count * size;
    MultipleOfNode(ext[0].count, size);
    DifferenceOfNodes(len, addr);
    if addr >= len {
      DifferenceOfNodes(addr, len);
      LeftIsAligned(ext[1..], size, addr - len);
    }
  }

  lemma DifferenceOfNodes(a: int, b: int)
    requires a % NODE_SIZE == 0 && b % NODE_SIZE == 0
    ensures (a - b) % NODE_SIZE == 0 && (a + b) % NODE_SIZE == 0
  {
    assert a % 512 == 0 && b % 512 == 0;
    assert (a - b) % 512 == 0 && (a + b) % 512 == 0;
  }

  lemma MultipleOfNode(c: nat, size: nat)
    requires size % NODE_SIZE == 0
    ensures c * size % NODE_SIZE == 0
  {
    var q := size / NODE_SIZE;
    MulAssoc(c, NODE_SIZE, q);
    assert c * size == NODE_SIZE * (c * q) + 0;
  }

  lemma MulAssoc(a: int, b: int, c: int)
    ensures a * (b * c) == b * (a * c)
  {
  }

  /** Every catalog node lies inside one extent, so node reads never meet the defect. */
  lemma NodeReadsAreRight(vol: Volume, ext: seq<Extent>, disc: int -> byte, node: nat)
    requires vol.blockSize % NODE_SIZE == 0 && (node + 1) * NODE_SIZE <= Length(ext, vol.blockSize)
    ensures ReadsRight(vol, ext, disc, node * NODE_SIZE, NODE_SIZE)
  {
    LeftIsAligned(ext, vol.blockSize, node * NODE_SIZE);
    var left := Left(ext, vol.blockSize, node * NODE_SIZE);
    forall k | 0 <= k < NODE_SIZE ensures k % left == k { ModUnique(0, left, k); }
  }
}
