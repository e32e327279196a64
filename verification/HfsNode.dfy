/**
 A catalog node on disc: 512 bytes with a descriptor in front, records behind it, and a
 table of record offsets that grows downwards from the end.
 */
module HfsNode {
  import opened Basics
  import opened HfsExtents

  const DESC_SIZE := 14
  /** The size of the buffer into which records are copied. */
  const BUF_SIZE := 142

  // ---------- The layout ----------

  function TotalSize(recs: seq<seq<byte>>): (n: nat)
  {
    if recs == [] then 0 else TotalSize(recs[..|recs| - 1]) + |recs[|recs| - 1]|
  }

  function Joined(recs: seq<seq<byte>>): (s: seq<byte>)
    ensures |s| == TotalSize(recs)
  {
    if recs == [] then [] else Joined(recs[..|recs| - 1]) + recs[|recs| - 1]
  }

  ghost predicate Fits(recs: seq<seq<byte>>)
  {
    DESC_SIZE + TotalSize(recs) + 2 * (|recs| + 1) <= NODE_SIZE
  }

  /** The offsets of records `n` down to 0, as they stand at the end of a node. */
  function OffsetTable(recs: seq<seq<byte>>, n: nat): (s: seq<byte>)
    requires n <= |recs| && Fits(recs)
    ensures |s| == 2 * (n + 1)
  {
    SizeGrows(recs, n);
    Stored16(DESC_SIZE + TotalSize(recs[..n])) + if n == 0 then [] else OffsetTable(recs, n - 1)
  }

  lemma {:induction false} SizeGrows(recs: seq<seq<byte>>, n: nat)
    requires n <= |recs|
    ensures TotalSize(recs[..n]) <= TotalSize(recs)
    decreases |recs|
  {
    if n == |recs| {
      assert recs[..n] == recs;
    } else {
      SizeGrows(recs[..|recs| - 1], n);
      assert recs[..|recs| - 1][..n] == recs[..n];
    }
  }

  /** A node with the given first ten descriptor bytes and records. */
  function NodeBytes(desc: seq<byte>, recs: seq<seq<byte>>): (s: seq<byte>)
    requires |desc| == 10 && Fits(recs)
    ensures |s| == NODE_SIZE
  {
    var free := NODE_SIZE - DESC_SIZE - TotalSize(recs) - 2 * (|recs| + 1);
    desc + Stored16(|recs|) + [0, 0] + Joined(recs) + Repeat(0, free) + OffsetTable(recs, |recs|)
  }

  // ---------- Reading a record ----------

  /** `Outside` stands for a table of offsets, or a record, that is not inside the node. */
  datatype Outcome = Record(bytes: seq<byte>) | NotFound | TooLong | ReadFailed | Outside

  /** The offset of record `r`: word `r` from the end of the node. */
  function OffsetOf(node: seq<byte>, r: nat): (o: nat)
    requires |node| == NODE_SIZE && 2 * r + 2 <= NODE_SIZE
  {
    Half(node, NODE_SIZE - 2 * (r + 1))
  }

  /** Record `r` ends no earlier than it begins, and inside the node. */
  predicate InOrder(node: seq<byte>, r: nat)
    requires |node| == NODE_SIZE && 2 * r + 4 <= NODE_SIZE
  {
    OffsetOf(node, r) <= OffsetOf(node, r + 1) <= NODE_SIZE
  }

  /** A node whose offsets lie in order inside it. */
  ghost predicate IsSound(node: seq<byte>)
  {
    && |node| == NODE_SIZE && 2 * (Half(node, 10) + 1) <= NODE_SIZE
    && forall r :: 0 <= r < Half(node, 10) ==> InOrder(node, r)
  }

  /** A whole node through the read loop of files. */
  method ReadNode(vol: Volume, ext: seq<Extent>, disc: int -> byte, number: nat) returns (node: Option<seq<byte>>)
    requires IsExtentRecord(ext) && vol.blockSize > 0 && vol.blockSize % NODE_SIZE == 0
    ensures node.None? <==> Length(ext, vol.blockSize) < (number + 1) * NODE_SIZE
    ensures node.Some? ==> node.value == NodeOnDisc(vol, ext, disc, number)
  {
    hide Place, Left, Length, IsExtentRecord;
    NodesAreWhole(ext, vol.blockSize, number);
    node := FileRead(vol, ext, disc, number * NODE_SIZE, NODE_SIZE);
    if node.Some? {
      NodeReadsAreRight(vol, ext, disc, number);
      forall k | 0 <= k < NODE_SIZE
        ensures node.value[k] == FileByte(vol, ext, disc, number * NODE_SIZE + k)
      {
      }
    }
  }

  /**
   Reads a node of the catalog file and copies one record out of it. Record numbers and counts
   are compared as signed words. Of a node whose offsets are in order every record is delivered
   that fits the buffer, and only a record number from 32768 on leads outside; of any other node
   a delivered record is at least a stretch of it that begins at the offset in the table.
   */
  method GetRecordFromNode(vol: Volume, ext: seq<Extent>, disc: int -> byte, number: nat, r: nat) returns (out: Outcome)
    requires IsExtentRecord(ext) && vol.blockSize > 0 && vol.blockSize % NODE_SIZE == 0 && r < 0x1_0000
    ensures out == ReadFailed <==> Length(ext, vol.blockSize) < (number + 1) * NODE_SIZE
    ensures (number + 1) * NODE_SIZE <= Length(ext, vol.blockSize) ==>
      var node := NodeOnDisc(vol, ext, disc, number);
      && (IsSound(node) ==> out == if r < 0x8000 then RecordOf(node, r) else Outside)
      && (out.Record? ==> |out.bytes| <= BUF_SIZE && r <= 254 && StandsAt(out.bytes, node, OffsetOf(node, r)))
  {
    hide NodeOnDisc, Length, Half, OffsetOf, IsExtentRecord;
    var got := ReadNode(vol, ext, disc, number);
    if got.None? {
      return ReadFailed;
    }
    var node := got.value;
    var signed := Wrap16(r);
    if signed >= Wrap16(Half(node, 10)) {
      return NotFound;
    }
    if !(0 <= signed <= 254) {
      return Outside;
    }
    assert IsSound(node) ==> InOrder(node, signed);
    var first := OffsetOf(node, signed);
    var size := (OffsetOf(node, signed + 1) - first) % 0x1_0000;
    if size > BUF_SIZE {
      return TooLong;
    }
    if first + size > NODE_SIZE {
      return Outside;
    }
    return Record(node[first..first + size]);
  }

  ghost predicate StandsAt(bytes: seq<byte>, node: seq<byte>, at: nat)
  {
    at + |bytes| <= |node| && node[at..at + |bytes|] == bytes
  }

  /** A file of whole blocks has no partial node at its end. */
  lemma NodesAreWhole(ext: seq<Extent>, size: nat, number: nat)
    requires size % NODE_SIZE == 0
    ensures number * NODE_SIZE < Length(ext, size) ==> (number + 1) * NODE_SIZE <= Length(ext, size)
  {
    LengthIsAligned(ext, size);
  }

  lemma {:induction false} LengthIsAligned(ext: seq<Extent>, size: nat)
    requires size % NODE_SIZE == 0
    ensures Length(ext, size) % NODE_SIZE == 0
    decreases ext
  {
    if ext != [] {
      LengthIsAligned(ext[1..], size);
      MultipleOfNode(ext[0].count, size);
      DifferenceOfNodes(ext[0].count * size, Length(ext[1..], size));
    }
  }

  /** The bytes of a node, wherever its extent lies. */
  function NodeOnDisc(vol: Volume, ext: seq<Extent>, disc: int -> byte, number: nat): (s: seq<byte>)
    requires (number + 1) * NODE_SIZE <= Length(ext, vol.blockSize)
    ensures |s| == NODE_SIZE
    ensures forall k :: 0 <= k < NODE_SIZE ==> s[k] == FileByte(vol, ext, disc, number * NODE_SIZE + k)
  {
    FileBytes(vol, ext, disc, number * NODE_SIZE, NODE_SIZE)
  }

  function FileBytes(vol: Volume, ext: seq<Extent>, disc: int -> byte, at: nat, n: nat): (s: seq<byte>)
    requires at + n <= Length(ext, vol.blockSize)
    ensures |s| == n && forall k :: 0 <= k < n ==> s[k] == FileByte(vol, ext, disc, at + k)
    decreases n
  {
    if n == 0 then [] else FileBytes(vol, ext, disc, at, n - 1) + [FileByte(vol, ext, disc, at + n - 1)]
  }

  /** Record `r` of a node, as far as it exists and fits the buffer. */
  function RecordOf(node: seq<byte>, r: nat): (out: Outcome)
    requires IsSound(node)
  {
    if r >= Half(node, 10) then NotFound
    else
      assert InOrder(node, r);
      var first, next := OffsetOf(node, r), OffsetOf(node, r + 1);
      if next - first > BUF_SIZE then TooLong else Record(node[first..next])
  }

  // ---------- What was laid out is what is read ----------

  lemma {:induction false} TableAt(recs: seq<seq<byte>>, n: nat, before: seq<byte>, r: nat)
    requires r <= n <= |recs| && Fits(recs)
    ensures TotalSize(recs[..r]) <= TotalSize(recs)
    ensures Half(before + OffsetTable(recs, n), |before| + 2 * (n - r)) == DESC_SIZE + TotalSize(recs[..r])
    decreases n
  {
    SizeGrows(recs, n);
    var s := before + OffsetTable(recs, n);
    var head := Stored16(DESC_SIZE + TotalSize(recs[..n]));
    if r == n {
      LoadedStored16(DESC_SIZE + TotalSize(recs[..n]));
      hide Stored16;
      assert s[|before|] == head[0] && s[|before| + 1] == head[1];
    } else {
      hide Stored16, Half;
      assert s == (before + head) + OffsetTable(recs, n - 1);
      TableAt(recs, n - 1, before + head, r);
    }
  }

  lemma {:induction false} JoinedAt(recs: seq<seq<byte>>, r: nat)
    requires r < |recs|
    ensures TotalSize(recs[..r + 1]) == TotalSize(recs[..r]) + |recs[r]| <= TotalSize(recs)
    ensures Joined(recs)[TotalSize(recs[..r])..TotalSize(recs[..r + 1])] == recs[r]
    decreases |recs|
  {
    assert recs[..r + 1][..r] == recs[..r];
    SizeGrows(recs, r + 1);
    if r + 1 == |recs| {
      assert recs[..r + 1] == recs;
    } else {
      var front := recs[..|recs| - 1];
      JoinedAt(front, r);
      assert front[..r] == recs[..r] && front[..r + 1] == recs[..r + 1];
      var a, b := TotalSize(recs[..r]), TotalSize(recs[..r + 1]);
      assert Joined(recs)[a..b] == Joined(front)[a..b];
    }
  }

  /** The descriptor of a laid-out node counts its records, and its offsets are those of the records. */
  lemma LayoutOffsets(desc: seq<byte>, recs: seq<seq<byte>>, r: nat)
    requires |desc| == 10 && Fits(recs) && r <= |recs|
    ensures Half(NodeBytes(desc, recs), 10) == |recs|
    ensures OffsetOf(NodeBytes(desc, recs), r) == DESC_SIZE + TotalSize(recs[..r])
  {
    hide Joined, OffsetTable, Repeat;
    var node := NodeBytes(desc, recs);
    var n := |recs|;
    var free := NODE_SIZE - DESC_SIZE - TotalSize(recs) - 2 * (n + 1);
    var before := desc + Stored16(n) + [0, 0] + Joined(recs) + Repeat(0, free);
    assert node == before + OffsetTable(recs, n);
    TableAt(recs, n, before, r);
    assert node[10] == Stored16(n)[0] && node[11] == Stored16(n)[1];
  }

  lemma LayoutContents(desc: seq<byte>, recs: seq<seq<byte>>)
    requires |desc| == 10 && Fits(recs)
    ensures NodeBytes(desc, recs)[DESC_SIZE..DESC_SIZE + TotalSize(recs)] == Joined(recs)
  {
    hide Joined, OffsetTable, Repeat, TotalSize;
  }

  lemma LayoutIsSound(desc: seq<byte>, recs: seq<seq<byte>>)
    requires |desc| == 10 && Fits(recs)
    ensures IsSound(NodeBytes(desc, recs)) && Half(NodeBytes(desc, recs), 10) == |recs|
  {
    hide OffsetOf, NodeBytes, Half, TotalSize;
    var node := NodeBytes(desc, recs);
    LayoutOffsets(desc, recs, 0);
    forall i | 0 <= i < |recs|
      ensures InOrder(node, i)
    {
      LayoutOffsets(desc, recs, i);
      LayoutOffsets(desc, recs, i + 1);
      JoinedAt(recs, i);
    }
  }

  /**
   Every record of a laid-out node is read back byte for byte if it fits the buffer, is refused
   if it does not, and no further record is found.
   */
  lemma LayoutReadsBack(desc: seq<byte>, recs: seq<seq<byte>>, r: nat)
    requires |desc| == 10 && Fits(recs)
    ensures var node := NodeBytes(desc, recs);
            IsSound(node) && RecordOf(node, r) ==
              if r >= |recs| then NotFound else if |recs[r]| > BUF_SIZE then TooLong else Record(recs[r])
  {
    hide OffsetOf, NodeBytes, Half, TotalSize, Joined, IsSound;
    var node := NodeBytes(desc, recs);
    LayoutIsSound(desc, recs);
    if r < |recs| {
      LayoutOffsets(desc, recs, r);
      LayoutOffsets(desc, recs, r + 1);
      JoinedAt(recs, r);
      LayoutContents(desc, recs);
      var a, b := TotalSize(recs[..r]), TotalSize(recs[..r + 1]);
      SliceOfSlice(node, DESC_SIZE, DESC_SIZE + TotalSize(recs), a, b);
    }
  }

  lemma SliceOfSlice(s: seq<byte>, m: nat, n: nat, a: nat, b: nat)
    requires m <= n <= |s| && a <= b <= n - m
    ensures s[m..n][a..b] == s[m + a..m + b]
  {
    var left, right := s[m..n][a..b], s[m + a..m + b];
    assert |left| == |right|;
    assert forall i :: 0 <= i < |left| ==> left[i] == right[i];
  }
}
