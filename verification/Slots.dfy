/**
 The 32-byte slots of a FAT directory, read either as a main entry or as one
 piece of a long name, and the directory file that holds them.
 */
module Slots {
  import opened Basics
  import opened CodePage

  const SLOT_SIZE := 32

  type Slot = s: seq<byte> | |s| == SLOT_SIZE
    witness [0, 0, 0, 0, 0, 0, 0, 0, 0, 0, 0, 0, 0, 0, 0, 0, 0, 0, 0, 0, 0, 0, 0, 0, 0, 0, 0, 0, 0, 0, 0, 0]

  const ZERO_SLOT: Slot :=
    [0, 0, 0, 0, 0, 0, 0, 0, 0, 0, 0, 0, 0, 0, 0, 0, 0, 0, 0, 0, 0, 0, 0, 0, 0, 0, 0, 0, 0, 0, 0, 0]

  const LONG_NAME_ATTR: byte := 0x0f

  // How the first byte and the attribute byte classify a slot

  predicate IsEnd(s: Slot) { s[0] == 0 }
  predicate IsDeleted(s: Slot) { s[0] == 0xe5 }
  predicate IsPiece(s: Slot) { !IsEnd(s) && !IsDeleted(s) && s[11] == LONG_NAME_ATTR }
  predicate IsMain(s: Slot) { !IsEnd(s) && !IsDeleted(s) && s[11] != LONG_NAME_ATTR }

  function ShortName(s: Slot): (n: seq<byte>) { s[..11] }

  predicate IsLabel(attr: byte) { attr / 8 % 2 == 1 }
  predicate IsFolder(attr: byte) { attr / 16 % 2 == 1 }
  predicate IsSymlink(attr: byte) { attr / 64 % 2 == 1 }

  /** The checksum of an 8+3 name: rotate right by one bit, then add the next character. */
  function Checksum(name: seq<byte>): (sum: byte)
  {
    if name == [] then 0
    else
      var sum := Checksum(name[..|name| - 1]);
      (sum / 2 + sum % 2 * 128 + name[|name| - 1]) % 256
  }

  /** The loop over a name. */
  method ChkSum(name: seq<byte>) returns (sum: byte)
    ensures sum == Checksum(name)
  {
    sum := 0;
    for i := 0 to |name|
      invariant sum == Checksum(name[..i])
    {
      assert name[..i + 1][..i] == name[..i];
      var rotated: int := sum / 2 + if sum % 2 == 1 then 128 else 0;
      sum := (rotated + name[i]) % 256;
    }
    assert name[..|name|] == name;
  }

  lemma EmptyChecksum()
    ensures Checksum([]) == 0
  {
  }

  lemma ChecksumSnoc(name: seq<byte>, c: byte)
    ensures Checksum(name + [c]) == (Checksum(name) / 2 + Checksum(name) % 2 * 128 + c) % 256
  {
    assert (name + [c])[..|name|] == name;
  }

  /** The checksum of README.TXT. */
  lemma ChecksumOfReadme()
    ensures Checksum([0x52, 0x45, 0x41, 0x44, 0x4d, 0x45, 0x20, 0x20, 0x54, 0x58, 0x54]) == 0x73
  {
    hide Checksum;
    var n0: seq<byte> := [];
    assert Checksum(n0) == 0 by { EmptyChecksum(); }
    var n1 := n0 + [0x52];
    ChecksumSnoc(n0, 0x52);
    assert Checksum(n1) == 82;
    var n2 := n1 + [0x45];
    ChecksumSnoc(n1, 0x45);
    assert Checksum(n2) == 110;
    var n3 := n2 + [0x41];
    ChecksumSnoc(n2, 0x41);
    assert Checksum(n3) == 120;
    var n4 := n3 + [0x44];
    ChecksumSnoc(n3, 0x44);
    assert Checksum(n4) == 128;
    var n5 := n4 + [0x4d];
    ChecksumSnoc(n4, 0x4d);
    assert Checksum(n5) == 141;
    var n6 := n5 + [0x45];
    ChecksumSnoc(n5, 0x45);
    assert Checksum(n6) == 11;
    var n7 := n6 + [0x20];
    ChecksumSnoc(n6, 0x20);
    assert Checksum(n7) == 165;
    var n8 := n7 + [0x20];
    ChecksumSnoc(n7, 0x20);
    assert Checksum(n8) == 242;
    var n9 := n8 + [0x54];
    ChecksumSnoc(n8, 0x54);
    assert Checksum(n9) == 205;
    var n10 := n9 + [0x58];
    ChecksumSnoc(n9, 0x58);
    assert Checksum(n10) == 62;
    var n11 := n10 + [0x54];
    ChecksumSnoc(n10, 0x54);
    assert Checksum(n11) == 115;
    assert n11 == [0x52, 0x45, 0x41, 0x44, 0x4d, 0x45, 0x20, 0x20, 0x54, 0x58, 0x54];
  }

  // The fields of a piece

  function PieceNumber(s: Slot): (n: nat) { s[0] % 32 }
  predicate IsLastPiece(s: Slot) { s[0] / 64 % 2 == 1 }
  function PieceChecksum(s: Slot): (c: byte) { s[13] }

  function UnitOf(low: byte, high: byte): (w: unit) { low as int + 256 * high }

  /** `n` little-endian units that start at offset `at`. */
  function UnitsAt(s: seq<byte>, at: nat, n: nat): (us: seq<unit>)
    requires at + 2 * n <= |s|
    ensures |us| == n
    decreases n
  {
    if n == 0 then [] else [UnitOf(s[at], s[at + 1])] + UnitsAt(s, at + 2, n - 1)
  }

  /** The text of a piece: its three name fields, decoded one after the other. */
  function PieceText(s: Slot): (text: seq<byte>)
    ensures |text| <= 13
  {
    DecodeUnits(UnitsAt(s, 1, 5)) + DecodeUnits(UnitsAt(s, 14, 6)) + DecodeUnits(UnitsAt(s, 28, 2))
  }

  function LittleEndian(us: seq<unit>): (bytes: seq<byte>)
    ensures |bytes| == 2 * |us|
  {
    if us == [] then [] else [us[0] % 256, us[0] / 256] + LittleEndian(us[1..])
  }

  /** A piece with the given head byte, checksum and thirteen units. */
  function MakePiece(head: byte, sum: byte, us: seq<unit>): (s: Slot)
    requires |us| == 13
  {
    [head] + LittleEndian(us[..5]) + [LONG_NAME_ATTR, 0, sum] + LittleEndian(us[5..11]) + [0, 0]
    + LittleEndian(us[11..])
  }

  lemma {:induction false} UnitsAtInverts(before: seq<byte>, us: seq<unit>, after: seq<byte>)
    ensures UnitsAt(before + LittleEndian(us) + after, |before|, |us|) == us
    decreases |us|
  {
    if us != [] {
      var pair: seq<byte> := [us[0] % 256, us[0] / 256];
      var all := before + LittleEndian(us) + after;
      assert all == (before + pair) + LittleEndian(us[1..]) + after;
      UnitsAtInverts(before + pair, us[1..], after);
      assert all[|before|] == us[0] % 256 && all[|before| + 1] == us[0] / 256;
    }
  }

  /** Reading back what `MakePiece` stores. */
  lemma MakePieceFields(head: byte, sum: byte, us: seq<unit>)
    requires |us| == 13
    ensures var s := MakePiece(head, sum, us);
            && s[0] == head && s[11] == LONG_NAME_ATTR && s[13] == sum
            && UnitsAt(s, 1, 5) == us[..5] && UnitsAt(s, 14, 6) == us[5..11] && UnitsAt(s, 28, 2) == us[11..]
  {
    var s := MakePiece(head, sum, us);
    var a, b, c := LittleEndian(us[..5]), LittleEndian(us[5..11]), LittleEndian(us[11..]);
    var m1, m2 := [LONG_NAME_ATTR, 0, sum], [0, 0];
    assert s == [head] + a + (m1 + b + m2 + c);
    UnitsAtInverts([head], us[..5], m1 + b + m2 + c);
    assert s == ([head] + a + m1) + b + (m2 + c);
    UnitsAtInverts([head] + a + m1, us[5..11], m2 + c);
    assert s == ([head] + a + m1 + b + m2) + c + [];
    UnitsAtInverts([head] + a + m1 + b + m2, us[11..], []);
  }

  // Where a directory ends

  /** The index of the first end mark, or the end of the file. */
  function EndOf(slots: seq<Slot>, i: nat): (e: nat)
    requires i <= |slots|
    ensures i <= e <= |slots| && forall k :: i <= k < e ==> !IsEnd(slots[k])
    ensures e < |slots| ==> IsEnd(slots[e])
    decreases |slots| - i
  {
    if i == |slots| || IsEnd(slots[i]) then i else EndOf(slots, i + 1)
  }

  lemma EndOfIs(slots: seq<Slot>, e: nat)
    requires e <= |slots| && forall k :: 0 <= k < e ==> !IsEnd(slots[k])
    requires e < |slots| ==> IsEnd(slots[e])
    ensures EndOf(slots, 0) == e
  {
  }

  lemma EndOfIsPast(slots: seq<Slot>, i: nat)
    requires i <= |slots| && forall k :: 0 <= k < i ==> !IsEnd(slots[k])
    ensures i <= EndOf(slots, 0)
  {
  }

  /** A directory as a file of slots with a position, which can grow by whole clusters. */
  class DosDir {
    var slots: seq<Slot>
    var pos: nat
    var clustersLeft: nat
    const slotsPerCluster: nat

    /** A cluster holds at least one 512-byte sector. */
    ghost predicate Valid()
      reads this
    {
      16 <= slotsPerCluster
    }

    constructor (slots: seq<Slot>, clustersLeft: nat, slotsPerCluster: nat)
      requires 16 <= slotsPerCluster
      ensures Valid() && this.slots == slots && pos == 0
      ensures this.clustersLeft == clustersLeft && this.slotsPerCluster == slotsPerCluster
    {
      this.slots, this.pos, this.clustersLeft, this.slotsPerCluster := slots, 0, clustersLeft, slotsPerCluster;
    }

    method Seek(to: nat)
      modifies this`pos
      ensures pos == to
    {
      pos := to;
    }

    /** The next slot, or nothing at the end of the file. */
    method Read() returns (found: bool, s: Slot)
      modifies this`pos
      ensures found == (old(pos) < |slots|)
      ensures pos == old(pos) + if found then 1 else 0
      ensures found ==> s == slots[old(pos)]
    {
      found := pos < |slots|;
      if found {
        s := slots[pos];
        pos := pos + 1;
      } else {
        s := ZERO_SLOT;
      }
    }

    /** Overwrites the slot at the position; nothing is written past the end of the file. */
    method Write(s: Slot) returns (ok: bool)
      modifies this`slots, this`pos
      ensures ok == (old(pos) < |old(slots)|)
      ensures slots == if ok then old(slots)[old(pos) := s] else old(slots)
      ensures pos == old(pos) + if ok then 1 else 0
    {
      ok := pos < |slots|;
      if ok {
        slots := slots[pos := s];
        pos := pos + 1;
      }
    }

    /** Adds one cluster of zeroed slots while the medium has one. */
    method Extend() returns (ok: bool)
      modifies this`slots, this`clustersLeft
      ensures ok == (old(clustersLeft) > 0)
      ensures clustersLeft == old(clustersLeft) - if ok then 1 else 0
      ensures slots == if ok then old(slots) + Zeros(slotsPerCluster) else old(slots)
    {
      ok := clustersLeft > 0;
      if ok {
        clustersLeft := clustersLeft - 1;
        slots := slots + Zeros(slotsPerCluster);
      }
    }
  }

  function Zeros(n: nat): (zs: seq<Slot>)
    ensures |zs| == n && forall i :: 0 <= i < n ==> zs[i] == ZERO_SLOT
  {
    if n == 0 then [] else [ZERO_SLOT] + Zeros(n - 1)
  }
}
