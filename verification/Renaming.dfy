/**
 Removing an entry from a directory, and renaming one inside it: room for the new name, which
 may reuse the old slots, the new entry, and the removal of what is left of the old one.
 */
module Renaming {
  import opened Basics
  import opened Slots
  import opened LongNames
  import opened Reading
  import opened Creation
  import opened Names
  import opened FreeSlots
  import opened Directory

  // ---------- Removing an entry ----------

  /** A slot with the mark of deleted slots. */
  function Marked(s: Slot): (r: Slot)
    ensures IsDeleted(r)
  {
    s[0 := 0xe5]
  }

  /** The slots `[f, e)` marked as deleted. */
  function Erased(slots: seq<Slot>, f: nat, e: nat): (r: seq<Slot>)
    requires f <= e <= |slots|
    ensures |r| == |slots|
    ensures forall k :: 0 <= k < |slots| ==> r[k] == if f <= k < e then Marked(slots[k]) else slots[k]
    decreases e - f
  {
    if f == e then slots else Erased(slots[f := Marked(slots[f])], f + 1, e)
  }

  /** The deleting loop: slot by slot, from the first one to the main entry, and always at least one. */
  method FDelete(fd: DosDir, main: nat, first: nat)
    requires first <= main < |fd.slots|
    modifies fd`slots, fd`pos
    ensures fd.slots == Erased(old(fd.slots), first, main + 1)
  {
    var at := first;
    while at <= main
      invariant first <= at <= main + 1 && |fd.slots| == |old(fd.slots)|
      invariant Erased(old(fd.slots), first, main + 1) == Erased(fd.slots, at, main + 1)
    {
      fd.Seek(at);
      var ok := fd.Write(Marked(fd.slots[at]));
      at := at + 1;
    }
  }

  /** Walking through a well-formed directory from `i`, the entry in `[f, m]` is reached as a whole. */
  ghost predicate IsUnit(slots: seq<Slot>, i: nat, f: nat, m: nat)
    requires i <= |slots|
    decreases |slots| - i
  {
    && i <= f && i < |slots|
    && if IsPiece(slots[i]) then
         var n := PieceNumber(slots[i]);
         && i + n < |slots|
         && if i == f then m == i + n else IsUnit(slots, i + n + 1, f, m)
       else if i == f then m == i && IsMain(slots[i])
       else !IsEnd(slots[i]) && IsUnit(slots, i + 1, f, m)
  }

  /** Where an entry begins. */
  function From(e: Entry): (f: int) { if e.start < 0 then e.index else e.start }

  /** A complete run is listed as one entry that begins with it. */
  lemma RunIsListed(slots: seq<Slot>, i: nat, n: nat) returns (text: seq<byte>)
    requires IsRun(slots, i, n)
    ensures var rest := List(slots, i + n + 1, IDLE, FindAll);
            List(slots, i, IDLE, FindAll)
            == Listing([Entry(i + n, slots[i + n], Some(text), i)] + rest.entries, rest.broken)
  {
    hide PieceText, Checksum, StepPiece;
    RunIsFollowed(slots, i, n, i, IDLE, FindAll);
    SkipsCarry(slots, i, i + n, IDLE, FindAll);
    text := Skips(slots, i, i + n, IDLE, FindAll).value.text;
  }

  /** Every listed entry is a whole unit of a well-formed directory. */
  lemma {:induction false} ListedIsUnit(slots: seq<Slot>, i: nat, e: Entry)
    requires i <= |slots| && WellFormed(slots, i) && e in List(slots, i, IDLE, FindAll).entries
    ensures i <= From(e) <= e.index && IsUnit(slots, i, From(e), e.index)
    decreases |slots| - i
  {
    hide Checksum, StepPiece, IsRun;
    assert i < |slots| && !IsEnd(slots[i]);
    if IsPiece(slots[i]) {
      var n := PieceNumber(slots[i]);
      RunFits(slots, i, n);
      var text := RunIsListed(slots, i, n);
      if e.index != i + n || e !in [Entry(i + n, slots[i + n], Some(text), i)] {
        ListedIsUnit(slots, i + n + 1, e);
      }
    } else {
      StepWhenIdle(slots[i], i);
      if !(IsMain(slots[i]) && e == Entry(i, slots[i], None, -1)) {
        ListedIsUnit(slots, i + 1, e);
      }
    }
  }

  lemma RunFits(slots: seq<Slot>, i: nat, n: nat)
    requires IsRun(slots, i, n)
    ensures 1 <= n && i + n < |slots| && IsPiece(slots[i])
    ensures forall j :: i <= j <= i + n ==> !IsEnd(slots[j]) && !IsDeleted(slots[j])
  {
  }

  /** A listing without the entry at index `m`. */
  function Without(entries: seq<Entry>, m: nat): (r: seq<Entry>)
  {
    if entries == [] then []
    else (if entries[0].index == m then [] else [entries[0]]) + Without(entries[1..], m)
  }

  lemma {:induction false} NothingWithout(entries: seq<Entry>, m: nat)
    requires forall k :: 0 <= k < |entries| ==> entries[k].index != m
    ensures Without(entries, m) == entries
    decreases |entries|
  {
    if entries != [] {
      NothingWithout(entries[1..], m);
    }
  }

  /** What the scan meets in front of a unit does not change. */
  lemma {:induction false} RemovingDropsOne(slots: seq<Slot>, after: seq<Slot>, f: nat, m: nat, i: nat, st: Pending)
    requires i <= f <= m < |slots| == |after| && forall k :: 0 <= k < f ==> after[k] == slots[k]
    requires StateAt(slots, i, f, st, FindAll) == Some(IDLE)
    requires var l := List(slots, f, IDLE, FindAll);
             List(after, f, IDLE, FindAll) == Listing(Without(l.entries, m), l.broken)
    ensures var l := List(slots, i, st, FindAll);
            List(after, i, st, FindAll) == Listing(Without(l.entries, m), l.broken)
    decreases f - i
  {
    hide StepSlot;
    if i < f {
      var step := StepSlot(slots[i], i, st, FindAll);
      RemovingDropsOne(slots, after, f, m, i + 1, if step.Skip? then step.st else IDLE);
    }
  }

  /** Nothing is pending where a unit begins. */
  lemma {:induction false} UnitIsIdle(slots: seq<Slot>, i: nat, f: nat, m: nat)
    requires i <= |slots| && WellFormed(slots, i) && IsUnit(slots, i, f, m)
    ensures f <= m < |slots| && StateAt(slots, i, f, IDLE, FindAll) == Some(IDLE)
    ensures f == m || IsRun(slots, f, m - f)
    ensures forall k :: i <= k <= m ==> !IsEnd(slots[k])
    decreases |slots| - i
  {
    hide StepSlot, Checksum;
    if i < f {
      if IsPiece(slots[i]) {
        var n := PieceNumber(slots[i]);
        RunFits(slots, i, n);
        RunIsReported(slots, i, n);
        UnitIsIdle(slots, i + n + 1, f, m);
        StateAtSplits(slots, i, i + n + 1, f, IDLE, FindAll);
      } else {
        StepWhenIdle(slots[i], i);
        UnitIsIdle(slots, i + 1, f, m);
      }
    }
  }

  /** A unit is listed first, as an entry at its last slot, unless it is a label. */
  lemma UnitIsFirst(slots: seq<Slot>, f: nat, m: nat) returns (own: seq<Entry>)
    requires f <= m < |slots| && WellFormed(slots, f) && IsUnit(slots, f, f, m)
    ensures |own| <= 1 && forall k :: 0 <= k < |own| ==> own[k].index == m
    ensures var rest := List(slots, m + 1, IDLE, FindAll);
            List(slots, f, IDLE, FindAll) == Listing(own + rest.entries, rest.broken)
  {
    hide StepPiece, Checksum, IsRun;
    if IsPiece(slots[f]) {
      assert IsRun(slots, f, m - f);
      var text := RunIsListed(slots, f, m - f);
      own := [Entry(m, slots[m], Some(text), f)];
    } else {
      StepWhenIdle(slots[f], f);
      hide StepMain;
      var step := StepSlot(slots[f], f, IDLE, FindAll);
      own := if step.Report? then [step.entry] else [];
    }
  }

  lemma WithoutOwn(own: seq<Entry>, rest: seq<Entry>, m: nat)
    requires |own| <= 1 && forall k :: 0 <= k < |own| ==> own[k].index == m
    requires forall k :: 0 <= k < |rest| ==> rest[k].index != m
    ensures Without(own + rest, m) == rest
  {
    NothingWithout(rest, m);
    if own == [] {
      assert own + rest == rest;
    } else {
      assert (own + rest)[1..] == rest;
    }
  }

  /** At the unit itself: its entry is gone and the rest is as it was. */
  lemma UnitIsDropped(slots: seq<Slot>, f: nat, m: nat)
    requires f <= m < |slots| && WellFormed(slots, f) && IsUnit(slots, f, f, m)
    ensures var after, l := Erased(slots, f, m + 1), List(slots, f, IDLE, FindAll);
            List(after, f, IDLE, FindAll) == Listing(Without(l.entries, m), l.broken)
  {
    hide List, WellFormed, IsUnit, Without;
    var after := Erased(slots, f, m + 1);
    DeletedAreSkipped(after, f, m + 1, IDLE, FindAll);
    SameTailSameList(slots, after, m + 1, IDLE, FindAll);
    var own := UnitIsFirst(slots, f, m);
    WithoutOwn(own, List(slots, m + 1, IDLE, FindAll).entries, m);
  }

  /** The shape survives the removal of a unit. */
  lemma {:induction false} RemovalKeepsShape(slots: seq<Slot>, i: nat, f: nat, m: nat)
    requires i <= |slots| && f <= m < |slots| && WellFormed(slots, i) && IsUnit(slots, i, f, m)
    ensures WellFormed(Erased(slots, f, m + 1), i)
    decreases |slots| - i
  {
    hide Checksum, PieceNumber, Erased, Marked, IsRun;
    var after := Erased(slots, f, m + 1);
    if i == f {
      TailStaysWellFormed(slots, after, m + 1);
      ErasedIsWellFormed(after, f, m + 1);
    } else if IsPiece(slots[i]) {
      var n := PieceNumber(slots[i]);
      assert i + n < f by { RunFits(slots, i, n); UnitBegins(slots, i + n + 1, f, m); }
      RunStays(slots, after, i, n);
      RemovalKeepsShape(slots, i + n + 1, f, m);
    } else {
      RemovalKeepsShape(slots, i + 1, f, m);
    }
  }

  lemma RunStays(slots: seq<Slot>, after: seq<Slot>, i: nat, n: nat)
    requires IsRun(slots, i, n) && |after| == |slots| && forall j :: i <= j <= i + n ==> after[j] == slots[j]
    ensures IsRun(after, i, n)
  {
    hide Checksum, PieceNumber;
  }

  lemma UnitBegins(slots: seq<Slot>, i: nat, f: nat, m: nat)
    requires i <= |slots| && IsUnit(slots, i, f, m)
    ensures i <= f
  {
  }

  lemma {:induction false} ErasedIsWellFormed(slots: seq<Slot>, i: nat, j: nat)
    requires i <= j <= |slots| && WellFormed(slots, j) && forall k :: i <= k < j ==> IsDeleted(slots[k])
    ensures WellFormed(slots, i)
    decreases j - i
  {
    if i < j {
      ErasedIsWellFormed(slots, i + 1, j);
    }
  }

  /**
   Removing an entry of a well-formed directory: the listing loses exactly that entry, and the
   directory stays well formed.
   */
  lemma RemovalKeepsListing(slots: seq<Slot>, e: Entry)
    requires WellFormed(slots, 0) && e in List(slots, 0, IDLE, FindAll).entries
    ensures 0 <= From(e) <= e.index < EndOf(slots, 0)
    ensures forall k :: From(e) <= k <= e.index ==> !IsDeleted(slots[k])
    ensures var after, l := Erased(slots, From(e), e.index + 1), List(slots, 0, IDLE, FindAll);
            && WellFormed(after, 0)
            && List(after, 0, IDLE, FindAll) == Listing(Without(l.entries, e.index), l.broken)
  {
    hide List, WellFormed, Erased, Without, EndOf, IsRun, IsUnit;
    ListedIsUnit(slots, 0, e);
    var f, m := From(e), e.index;
    UnitIsIdle(slots, 0, f, m);
    WellFormedAtUnit(slots, 0, f, m);
    UnitIsDropped(slots, f, m);
    RemovalKeepsShape(slots, 0, f, m);
    ErasedPrefix(slots, f, m + 1);
    RemovingDropsOne(slots, Erased(slots, f, m + 1), f, m, 0, IDLE);
    EndOfIsPast(slots, m + 1);
    UnitIsLive(slots, f, m);
  }

  lemma ErasedPrefix(slots: seq<Slot>, f: nat, e: nat)
    requires f <= e <= |slots|
    ensures |Erased(slots, f, e)| == |slots| && forall k :: 0 <= k < f ==> Erased(slots, f, e)[k] == slots[k]
  {
  }

  lemma {:induction false} WellFormedAtUnit(slots: seq<Slot>, i: nat, f: nat, m: nat)
    requires i <= |slots| && WellFormed(slots, i) && IsUnit(slots, i, f, m)
    ensures f < |slots| && WellFormed(slots, f) && IsUnit(slots, f, f, m)
    decreases |slots| - i
  {
    hide Checksum;
    if i < f {
      if IsPiece(slots[i]) {
        RunFits(slots, i, PieceNumber(slots[i]));
        WellFormedAtUnit(slots, i + PieceNumber(slots[i]) + 1, f, m);
      } else {
        WellFormedAtUnit(slots, i + 1, f, m);
      }
    }
  }

  lemma UnitIsLive(slots: seq<Slot>, f: nat, m: nat)
    requires f <= m < |slots| && IsUnit(slots, f, f, m) && (f == m || IsRun(slots, f, m - f))
    ensures forall k :: f <= k <= m ==> !IsDeleted(slots[k])
  {
    if f < m {
      RunFits(slots, f, m - f);
    }
  }

  // ---------- Removing undoes creating ----------

  lemma {:induction false} InsertedThenWithout(entries: seq<Entry>, e: Entry)
    requires forall k :: 0 <= k < |entries| ==> entries[k].index != e.index
    ensures Without(Inserted(entries, e), e.index) == entries
    decreases |entries|
  {
    if entries == [] || e.index < entries[0].index {
      NothingWithout(entries, e.index);
      assert ([e] + entries)[1..] == entries;
    } else {
      InsertedThenWithout(entries[1..], e);
      var r := [entries[0]] + Inserted(entries[1..], e);
      assert r[1..] == Inserted(entries[1..], e);
    }
  }

  /** No entry of a well-formed directory is listed at a vacant slot. */
  lemma VacantIsNotListed(slots: seq<Slot>, at: nat, e: Entry)
    requires WellFormed(slots, 0) && Vacant(slots, at, NO_SPECIAL) && e in List(slots, 0, IDLE, FindAll).entries
    ensures e.index != at
  {
    hide List, WellFormed, EndOf;
    ListedAreLive(slots, 0, IDLE, FindAll);
    WellFormedEnds(slots, 0);
  }

  /** Creating an entry and removing it again leaves the listing that was there before. */
  lemma RemovalUndoesCreation(slots: seq<Slot>, grown: seq<Slot>, first: nat, long: Option<seq<byte>>, main: Slot)
    requires WellFormed(slots, 0) && Creatable(long, main) && Grown(slots, grown)
    requires first + |EntrySlots(long, main)| <= |grown|
    requires VacantRun(slots, first, |EntrySlots(long, main)|, NO_SPECIAL)
    ensures var after := Patched(grown, first, EntrySlots(long, main));
            List(Erased(after, first, first + |EntrySlots(long, main)|), 0, IDLE, FindAll)
            == List(slots, 0, IDLE, FindAll)
  {
    hide List, WellFormed, EntrySlots, Patched, Inserted, EndOf, Erased, Without;
    var after := Patched(grown, first, EntrySlots(long, main));
    var e, l := NewEntry(first, long, main), List(slots, 0, IDLE, FindAll);
    EntryEndsWithMain(long, main);
    CreationPreservesListing(slots, grown, first, long, main);
    InsertedIsThere(l.entries, e);
    RemovalKeepsListing(after, e);
    forall k | 0 <= k < |l.entries|
      ensures l.entries[k].index != e.index
    {
      assert Vacant(slots, e.index, NO_SPECIAL);
      VacantIsNotListed(slots, e.index, l.entries[k]);
    }
    InsertedThenWithout(l.entries, e);
  }

  // ---------- Renaming ----------

  /** What is left of the old slots `[f, m]` once the new entry occupies `[first, at]`. */
  function Leftover(f: nat, m: nat, first: nat, at: nat): (r: (nat, nat))
    requires f <= m && first <= at
    ensures r.0 <= r.1 <= (if at + 1 > m + 1 then at + 1 else m + 1)
  {
    if f > at || m < first then (f, m + 1)
    else if f < first then (f, first)
    else (at + 1, if m < at + 1 then at + 1 else m + 1)
  }

  /** The removal of the old name, with regard to where the new one overlaps it. */
  method RemoveOld(fd: DosDir, f: nat, m: nat, first: nat, at: nat)
    requires f <= m < |fd.slots| && first <= at < |fd.slots|
    modifies fd`slots, fd`pos
    ensures var r := Leftover(f, m, first, at);
            r.1 <= |old(fd.slots)| && fd.slots == Erased(old(fd.slots), r.0, r.1)
  {
    var from, to := f, m;
    if !(f > at) && !(m < first) {
      if f < first {
        to := first - 1;
      } else {
        from := at + 1;
      }
      if to < from {
        return;
      }
    }
    FDelete(fd, to, from);
  }

  /** The entry `e` as the search for room is told of it. */
  function SpecialOf(e: Entry, q: Request): (sp: Special)
  {
    Reusable(Special(e.index, e.start), DemandFor(q).count)
  }

  /** The new entry is written over `grown`, and what it leaves of the old one is removed. */
  ghost predicate Rewrites(before: Volume, grown: Volume, e: Entry, q: Request, r: Found, after: Volume)
  {
    && r.Room? && Answers(before.slots, grown.slots, r, DemandFor(q), SpecialOf(e, q), q.main)
    && Storable(r.long, r.main) && r.first + |EntrySlots(r.long, r.main)| <= |grown.slots|
    && r.at == r.first + |EntrySlots(r.long, r.main)| - 1 >= r.first
    && 0 <= From(e) <= e.index < |grown.slots| && after.spare == grown.spare
    && var gone := Leftover(From(e), e.index, r.first, r.at);
       var written := Patched(grown.slots, r.first, EntrySlots(r.long, r.main));
       gone.1 <= |written| && after.slots == Erased(written, gone.0, gone.1)
  }

  /** What a renaming inside a directory does: failure for exactly the reasons of the search, or the new entry. */
  ghost predicate Renames(before: Volume, e: Entry, q: Request, r: Found, after: Volume, cluster: nat)
  {
    var why := Complaint(before.slots, before.spare, DemandFor(q), SpecialOf(e, q), ShortName(q.main), q.front);
    match r
    case Failed(error) => why == Some(error) && (error != WildAccess ==> GrewOnce(before, after, cluster))
    case Room(_, _, _, _) =>
      why == None && exists grown :: GrewOnce(before, grown, cluster) && Rewrites(before, grown, e, q, r, after)
  }

  /** The renaming call: search, seek, write, remove. */
  method Rename(fd: DosDir, e: Entry, q: Request) returns (r: Found)
    requires fd.Valid() && IsRequest(q) && 0 <= From(e) <= e.index < |fd.slots|
    modifies fd
    ensures Renames(old(VolumeOf(fd)), e, q, r, VolumeOf(fd), fd.slotsPerCluster)
  {
    hide EntrySlots, Complaint, Answers, Patched, Storable, Erased;
    r := FFree(fd, Special(e.index, e.start), q.name, q.main, q.longNames, q.front);
    if r.Room? {
      ghost var grown := VolumeOf(fd);
      AnswerIsStorable(old(fd.slots), fd.slots, q, SpecialOf(e, q), r, old(fd.clustersLeft));
      StorableFits(r.long, r.main);
      EntryEndsWithMain(r.long, r.main);
      fd.Seek(r.first);
      var ok := CrNam(fd, r.main, r.long);
      assert ok;
      RemoveOld(fd, From(e), e.index, r.first, r.at);
      assert Rewrites(old(VolumeOf(fd)), grown, e, q, r, VolumeOf(fd));
    }
  }

  // ---------- What a renaming keeps ----------

  /** The range that the search may reuse is that of the old entry, and only if the sizes agree. */
  lemma SpecialIsOld(e: Entry, q: Request, k: nat)
    requires 0 <= From(e) <= e.index && Covers(SpecialOf(e, q), k)
    ensures From(e) <= k <= e.index && DemandFor(q).count == e.index - From(e) + 1
  {
  }

  /** Room for the new name is room in a directory from which the old entry has been removed. */
  lemma VacantWhenErased(slots: seq<Slot>, e: Entry, q: Request, first: nat, n: nat)
    requires 0 <= From(e) <= e.index < EndOf(slots, 0) && VacantRun(slots, first, n, SpecialOf(e, q))
    ensures VacantRun(Erased(slots, From(e), e.index + 1), first, n, NO_SPECIAL)
  {
    hide EndOf, Erased, SpecialOf, From, Marked;
    var after, end := Erased(slots, From(e), e.index + 1), EndOf(slots, 0);
    EndOfIs(after, end);
    forall k | first <= k < first + n
      ensures Vacant(after, k, NO_SPECIAL)
    {
      assert Vacant(slots, k, SpecialOf(e, q));
      if k < end && Covers(SpecialOf(e, q), k) {
        SpecialIsOld(e, q, k);
      }
    }
  }

  /** Where the new entry meets the old one, they have the same number of slots. */
  lemma OverlapIsWhole(slots: seq<Slot>, e: Entry, q: Request, first: nat, n: nat)
    requires 0 <= From(e) <= e.index < EndOf(slots, 0) && VacantRun(slots, first, n, SpecialOf(e, q))
    requires forall k :: From(e) <= k <= e.index ==> !IsDeleted(slots[k])
    requires From(e) <= first + n - 1 && first <= e.index && n > 0
    ensures DemandFor(q).count == e.index - From(e) + 1
  {
    hide EndOf, SpecialOf, From;
    var k := if first < From(e) then From(e) else first;
    assert Vacant(slots, k, SpecialOf(e, q));
    SpecialIsOld(e, q, k);
  }

  /**
   A new name that takes as many slots as the old one always finds room: those of the old one,
   even in a full directory that cannot grow.
   */
  lemma SameSizeFits(before: Volume, e: Entry, q: Request, r: Found, after: Volume, cluster: nat)
    requires WellFormed(before.slots, 0) && e in List(before.slots, 0, IDLE, FindAll).entries
    requires Renames(before, e, q, r, after, cluster)
    requires e.index - (if e.start < 0 then e.index else e.start) ==
             if !q.longNames || Expanded(ShortName(q.main)) == q.name then 0 else (|q.name| + 12) / 13
    ensures r != Failed(NoSpace)
  {
    hide List, WellFormed, Erased, Without, EndOf, OtherNames, RunsWild, Exhausted, NoPlaceForNumber, Rewrites;
    hide Expanded;
    RemovalKeepsListing(before.slots, e);
    var n, sp := DemandFor(q).count, SpecialOf(e, q);
    assert forall k :: From(e) <= k <= e.index ==> Covers(sp, k);
    assert VacantRun(before.slots, From(e), n, sp) && From(e) + n <= |before.slots|;
  }

  /** Writing and then removing is removing and then writing. */
  lemma OrderDoesNotMatter(slots: seq<Slot>, z: nat, f: nat, m: nat, first: nat, patch: seq<Slot>)
    requires f <= m < |slots| && patch != [] && first + |patch| <= |slots| + z
    requires f <= first + |patch| - 1 && first <= m ==> |patch| == m - f + 1
    ensures var gone := Leftover(f, m, first, first + |patch| - 1);
            var written := Patched(slots + Zeros(z), first, patch);
            && gone.1 <= |written|
            && Erased(written, gone.0, gone.1) == Patched(Erased(slots, f, m + 1) + Zeros(z), first, patch)
  {
    hide Marked, Patched, Erased, Zeros;
    var gone, written := Leftover(f, m, first, first + |patch| - 1), Patched(slots + Zeros(z), first, patch);
    var left, right := Erased(written, gone.0, gone.1), Patched(Erased(slots, f, m + 1) + Zeros(z), first, patch);
    assert |left| == |right|;
    forall k | 0 <= k < |left|
      ensures left[k] == right[k]
    {
      PatchedAt(slots + Zeros(z), first, patch, k);
      PatchedAt(Erased(slots, f, m + 1) + Zeros(z), first, patch, k);
    }
  }

  lemma PatchedAt(slots: seq<Slot>, at: nat, patch: seq<Slot>, k: nat)
    requires at + |patch| <= |slots| && k < |slots|
    ensures Patched(slots, at, patch)[k] == if at <= k < at + |patch| then patch[k - at] else slots[k]
  {
  }

  /**
   Renaming an entry of a well-formed directory: the listing loses exactly the old entry and gains
   exactly the new one, every other entry is listed unchanged and in order, and the directory
   stays well formed unless the new name leaves an orphaned run.
   */
  lemma RenamingKeepsListing(before: Volume, e: Entry, q: Request, r: Found, after: Volume, cluster: nat)
    requires WellFormed(before.slots, 0) && IsRequest(q) && Renames(before, e, q, r, after, cluster)
    requires e in List(before.slots, 0, IDLE, FindAll).entries
    ensures r.Failed? && r.error != WildAccess ==>
      WellFormed(after.slots, 0) && List(after.slots, 0, IDLE, FindAll) == List(before.slots, 0, IDLE, FindAll)
    ensures r.Room? ==>
      var l := List(before.slots, 0, IDLE, FindAll);
      && (Leaves(r.long, r.main) ==> WellFormed(after.slots, 0))
      && r.first + (if r.long.Some? then PieceCount(r.long.value) else 0) == r.at < |after.slots|
      && List(after.slots, 0, IDLE, FindAll)
         == NewListing(Listing(Without(l.entries, e.index), l.broken), after.slots, r.first, r.long, r.main)
  {
    hide List, WellFormed, NewListing, EntrySlots, VacantRun, Complaint, AliasGiven, Patched, Erased, Without;
    hide Leftover, SpecialOf, From, EndOf, Storable;
    if r.Failed? {
      if r.error != WildAccess {
        GrewOnceIsGrown(before, after, cluster);
        GrowingKeepsAll(before.slots, after.slots);
      }
    } else {
      var grown :| GrewOnce(before, grown, cluster) && Rewrites(before, grown, e, q, r, after);
      GrewOnceIsGrown(before, grown, cluster);
      var z: nat :| grown.slots == before.slots + Zeros(z);
      RenamedSlots(before.slots, z, e, q, r);
      var cleared := Erased(before.slots, From(e), e.index + 1);
      RemovalKeepsListing(before.slots, e);
      assert Grown(cleared, cleared + Zeros(z));
      EntryEndsWithMain(r.long, r.main);
      CreationListing(cleared, cleared + Zeros(z), r.first, r.long, r.main);
    }
  }

  /** A renaming is the removal of the old entry followed by the creation of the new one. */
  lemma RenamedSlots(slots: seq<Slot>, z: nat, e: Entry, q: Request, r: Found)
    requires WellFormed(slots, 0) && e in List(slots, 0, IDLE, FindAll).entries
    requires r.Room? && Answers(slots, slots + Zeros(z), r, DemandFor(q), SpecialOf(e, q), q.main)
    requires Storable(r.long, r.main) && r.first + |EntrySlots(r.long, r.main)| <= |slots| + z
    requires r.at == r.first + |EntrySlots(r.long, r.main)| - 1 >= r.first
    ensures 0 <= From(e) <= e.index < |slots|
    ensures var cleared, patch := Erased(slots, From(e), e.index + 1), EntrySlots(r.long, r.main);
            var gone, written := Leftover(From(e), e.index, r.first, r.at), Patched(slots + Zeros(z), r.first, patch);
            && VacantRun(cleared, r.first, |patch|, NO_SPECIAL)
            && gone.1 <= |written|
            && Erased(written, gone.0, gone.1) == Patched(cleared + Zeros(z), r.first, patch)
  {
    hide List, WellFormed, EntrySlots, VacantRun, AliasGiven, Patched, Erased, Without, Leftover, SpecialOf, From;
    hide EndOf, Grown;
    var patch := EntrySlots(r.long, r.main);
    RemovalKeepsListing(slots, e);
    assert VacantRun(slots, r.first, DemandFor(q).count, SpecialOf(e, q));
    assert |patch| == DemandFor(q).count;
    VacantWhenErased(slots, e, q, r.first, |patch|);
    if From(e) <= r.at && r.first <= e.index {
      OverlapIsWhole(slots, e, q, r.first, |patch|);
    }
    OrderDoesNotMatter(slots, z, From(e), e.index, r.first, patch);
  }
}
