/**
 Writing a long name: a chain of pieces, last piece first, in front of the main entry.
 */
module LongNames {
  import opened Basics
  import opened CodePage
  import opened Slots

  /** A name as C sees it: no terminator inside. */
  ghost predicate IsCString(name: seq<byte>)
  {
    forall i :: 0 <= i < |name| ==> name[i] != 0
  }

  // ---------- Writing ----------

  function Encode(text: seq<byte>): (us: seq<unit>)
    ensures |us| == |text| && forall i :: 0 <= i < |text| ==> us[i] == ToUnicode(text[i])
  {
    if text == [] then [] else [ToUnicode(text[0])] + Encode(text[1..])
  }

  function Fill(n: nat): (us: seq<unit>)
    ensures |us| == n && forall i :: 0 <= i < n ==> us[i] == 0xffff
  {
    if n == 0 then [] else [0xffff] + Fill(n - 1)
  }

  function Min(a: int, b: int): (m: int) { if a < b then a else b }

  /** The units of one piece: the text, a terminator if there is room, then filler. */
  function PieceUnits(text: seq<byte>): (us: seq<unit>)
    requires |text| <= 13
    ensures |us| == 13
  {
    Encode(text) + if |text| < 13 then [0] + Fill(12 - |text|) else []
  }

  function PieceCount(name: seq<byte>): (n: nat) { (|name| + 12) / 13 }

  /** The text of piece `k`, counted from 1. */
  function PieceOf(name: seq<byte>, k: nat): (text: seq<byte>)
    requires 1 <= k <= PieceCount(name)
    ensures |text| <= 13
  {
    name[13 * (k - 1)..Min(13 * k, |name|)]
  }

  function Head(k: nat, count: nat): (h: byte)
    requires k <= count < 32
  {
    if k == count then 0x40 + k else k
  }

  /** Piece `k` of a name as it is stored. */
  function StoredPiece(name: seq<byte>, sum: byte, k: nat): (s: Slot)
    requires 1 <= k <= PieceCount(name) < 32
  {
    MakePiece(Head(k, PieceCount(name)), sum, PieceUnits(PieceOf(name, k)))
  }

  /** Pieces `k` down to 1 in the order in which they are stored. */
  function Chain(name: seq<byte>, sum: byte, k: nat): (slots: seq<Slot>)
    requires k <= PieceCount(name) < 32
    ensures |slots| == k
  {
    if k == 0 then [] else [StoredPiece(name, sum, k)] + Chain(name, sum, k - 1)
  }

  lemma {:induction false} ChainAt(name: seq<byte>, sum: byte, k: nat, j: nat)
    requires j < k <= PieceCount(name) < 32
    ensures Chain(name, sum, k)[j] == StoredPiece(name, sum, k - j)
  {
    hide StoredPiece;
    if j > 0 {
      ChainAt(name, sum, k - 1, j - 1);
    }
  }

  /** Everything that creating an entry stores: the chain of its long name, then the main entry. */
  function EntrySlots(long: Option<seq<byte>>, main: Slot): (slots: seq<Slot>)
    requires long.Some? ==> PieceCount(long.value) < 32
  {
    (if long.Some? then Chain(long.value, Checksum(ShortName(main)), PieceCount(long.value)) else []) + [main]
  }

  /** The character of a C string at `p`: the terminator sits behind the last one. */
  function CharAt(name: seq<byte>, p: nat): (c: byte)
  {
    if p < |name| then name[p] else 0
  }

  /** The field after storing the string from `start` on: nothing changes behind the terminator. */
  ghost predicate Stored(name: seq<byte>, start: nat, before: seq<unit>, after: seq<unit>)
  {
    && |after| == |before|
    && forall j :: 0 <= j < |after| ==>
      after[j] == if start + j <= |name| then ToUnicode(CharAt(name, start + j)) else before[j]
  }

  /** The conversion of one name field; stops behind the terminator. */
  method Ibm2Unic(name: seq<byte>, start: nat, field: seq<unit>) returns (out: seq<unit>)
    requires field != [] && start <= |name| && IsCString(name)
    ensures Stored(name, start, field, out)
  {
    out := field;
    var at := start;
    var go := true;
    while go
      invariant start <= at <= |name| + 1 && at - start <= |field| == |out|
      invariant forall j :: 0 <= j < |field| ==>
        out[j] == if start + j < at then ToUnicode(CharAt(name, start + j)) else field[j]
      invariant go <==> at - start < |field| && at <= |name|
      decreases |name| + 1 - at, go
    {
      var c := CharAt(name, at);
      out := out[at - start := ToUnicode(c)];
      at := at + 1;
      go := at - start < |field| && c != 0;
    }
  }

  /** One pass of the writing loop: the three fields of the piece that starts at `from`. */
  method FillPiece(name: seq<byte>, from: nat, units: seq<unit>) returns (out: seq<unit>)
    requires |units| == 13 && from <= |name| && IsCString(name)
    ensures Stored(name, from, units, out)
  {
    var i: int := |name| + 1 - from;
    var name1, name2, name3 := units[..5], units[5..11], units[11..];
    name1 := Ibm2Unic(name, from, name1);
    i := i - 5;
    if i > 0 {
      name2 := Ibm2Unic(name, from + 5, name2);
      i := i - 6;
      if i > 0 {
        name3 := Ibm2Unic(name, from + 11, name3);
      }
    }
    out := name1 + name2 + name3;
  }

  /** What `FillPiece` leaves, seen as the units of a piece. */
  lemma FilledPiece(name: seq<byte>, sum: byte, k: nat, before: seq<unit>, after: seq<unit>)
    requires 1 <= k <= PieceCount(name) < 32 && |before| == 13
    requires k == PieceCount(name) ==> before == Fill(13)
    requires Stored(name, 13 * (k - 1), before, after)
    ensures |after| == 13 && MakePiece(Head(k, PieceCount(name)), sum, after) == StoredPiece(name, sum, k)
  {
    assert after == PieceUnits(PieceOf(name, k));
  }

  /** Writes the entry at the position of the directory. */
  method CrNam(fd: DosDir, main: Slot, long: Option<seq<byte>>) returns (ok: bool)
    requires fd.pos <= |fd.slots|
    requires long.Some? ==> IsCString(long.value) && PieceCount(long.value) < 32
    modifies fd`slots, fd`pos
    ensures ok == (old(fd.pos) + |EntrySlots(long, main)| <= |old(fd.slots)|)
    ensures ok ==> fd.slots == Patched(old(fd.slots), old(fd.pos), EntrySlots(long, main))
  {
    ghost var done: seq<Slot> := [];
    if long.Some? {
      var sum := ChkSum(ShortName(main));
      done := Chain(long.value, sum, PieceCount(long.value));
      ok := WriteChain(fd, long.value, sum);
      if !ok {
        return;
      }
    }
    assert EntrySlots(long, main) == done + [main];
    assert fd.slots == Patched(old(fd.slots), old(fd.pos), done);
    ok := fd.Write(main);
    if ok {
      PatchedSnoc(old(fd.slots), old(fd.pos), done, main);
    }
  }

  /** The loop of the writer: the last piece goes first. */
  method WriteChain(fd: DosDir, name: seq<byte>, sum: byte) returns (ok: bool)
    requires fd.pos <= |fd.slots|
    requires IsCString(name) && PieceCount(name) < 32
    modifies fd`slots, fd`pos
    ensures |fd.slots| == |old(fd.slots)|
    ensures ok == (old(fd.pos) + PieceCount(name) <= |old(fd.slots)|)
    ensures ok ==> fd.pos == old(fd.pos) + PieceCount(name)
    ensures ok ==> fd.slots == Patched(old(fd.slots), old(fd.pos), Chain(name, sum, PieceCount(name)))
  {
    hide StoredPiece, MakePiece, PieceUnits, Stored, Patched;
    var count := PieceCount(name);
    ghost var chain := Chain(name, sum, count);
    var units, head: byte := Fill(13), 0x40 + count;
    var k := count;
    ok := true;
    PatchedNothing(fd.slots, fd.pos);
    assert chain[..0] == [];
    while k > 0
      invariant 0 <= k <= count && |units| == 13 && ok
      invariant k == count ==> units == Fill(13)
      invariant k > 0 ==> head == Head(k, count)
      invariant fd.pos == old(fd.pos) + count - k <= |fd.slots| == |old(fd.slots)|
      invariant fd.slots == Patched(old(fd.slots), old(fd.pos), chain[..count - k])
    {
      ghost var before := units;
      units := FillPiece(name, 13 * (k - 1), units);
      FilledPiece(name, sum, k, before, units);
      ChainAt(name, sum, count, count - k);
      ghost var piece := chain[count - k];
      ok := fd.Write(MakePiece(head, sum, units));
      if !ok {
        return;
      }
      assert chain[..count - k + 1] == chain[..count - k] + [piece];
      PatchedSnoc(old(fd.slots), old(fd.pos), chain[..count - k], piece);
      head := k - 1;
      k := k - 1;
    }
    assert chain[..count] == chain;
  }

  lemma PatchedNothing(slots: seq<Slot>, at: nat)
    requires at <= |slots|
    ensures Patched(slots, at, []) == slots
  {
  }

  lemma PatchedSnoc(slots: seq<Slot>, at: nat, patch: seq<Slot>, s: Slot)
    requires at + |patch| < |slots|
    ensures Patched(slots, at, patch + [s]) == Patched(slots, at, patch)[at + |patch| := s]
  {
  }

  /** `slots` with `patch` written over it from index `at` on. */
  function Patched(slots: seq<Slot>, at: nat, patch: seq<Slot>): (r: seq<Slot>)
    requires at + |patch| <= |slots|
    ensures |r| == |slots|
  {
    slots[..at] + patch + slots[at + |patch|..]
  }
}
