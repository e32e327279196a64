/**
 Finding room for a new entry: how many slots it needs, a gap that holds nothing,
 growing the directory, and the alias, in one pass over the directory.
 */
module FreeSlots {
  import opened Basics
  import opened Slots
  import opened LongNames
  import opened Alias
  import opened Names

  datatype Error = NameTooLong | NoSpace | NumbersExhausted | WildAccess

  /** How a new entry is to be stored: its long name if it needs one, its slots, its base. */
  datatype Demand = Demand(long: Option<seq<byte>>, count: nat, taken: bool)

  function DemandOf(name: seq<byte>, base: Name, longNames: bool): (d: Demand)
  {
    if !longNames || Expanded(base) == name then Demand(None, 1, false)
    else Demand(Some(name), PieceCount(name) + 1, !SameName(Expanded(base), name))
  }

  /** The main slot and the first slot of the entry being renamed; negative for none. */
  datatype Special = Special(main: int, first: int)

  /** The old entry counts as free space only if it has as many slots as the new one needs. */
  function Reusable(sp: Special, count: nat): (r: Special)
  {
    if sp.main < 0 then sp
    else
      var first := if sp.first < 0 then sp.main else sp.first;
      if count != sp.main - first + 1 then Special(sp.main, sp.main + 1) else Special(sp.main, first)
  }

  predicate Covers(sp: Special, i: nat) { sp.first <= i <= sp.main }

  predicate IsFree(s: Slot, i: nat, sp: Special) { IsDeleted(s) || Covers(sp, i) }

  /** Slot `k` of `slots` may be overwritten, even if it still has to be added. */
  ghost predicate Vacant(slots: seq<Slot>, k: nat, sp: Special)
  {
    k >= EndOf(slots, 0) || IsFree(slots[k], k, sp)
  }

  /** `n` consecutive slots from `first` on that may be overwritten, with no hole before them. */
  ghost predicate VacantRun(slots: seq<Slot>, first: nat, n: nat, sp: Special)
  {
    first <= EndOf(slots, 0) && forall k :: first <= k < first + n ==> Vacant(slots, k, sp)
  }

  /** The first place where `n` slots fit: no run that starts earlier is vacant. */
  ghost predicate FirstFit(slots: seq<Slot>, first: nat, n: nat, sp: Special)
  {
    VacantRun(slots, first, n, sp) && forall f :: 0 <= f < first ==> !VacantRun(slots, f, n, sp)
  }

  /** Every run of `n` slots that starts before `g` meets a slot before `i` that is in use. */
  ghost predicate NoRoomBefore(slots: seq<Slot>, g: nat, n: nat, sp: Special, i: nat)
    requires i <= |slots|
  {
    forall f :: 0 <= f < g ==> InUseIn(slots, f, n, sp, i)
  }

  ghost predicate InUseIn(slots: seq<Slot>, f: nat, n: nat, sp: Special, i: nat)
    requires i <= |slots|
  {
    exists k :: f <= k < f + n && k < i && !IsFree(slots[k], k, sp)
  }

  lemma RoomIsFirst(slots: seq<Slot>, first: nat, n: nat, sp: Special)
    requires VacantRun(slots, first, n, sp) && NoRoomBefore(slots, first, n, sp, EndOf(slots, 0))
    ensures FirstFit(slots, first, n, sp)
  {
    hide EndOf, IsFree;
    forall f | 0 <= f < first
      ensures !VacantRun(slots, f, n, sp)
    {
      assert InUseIn(slots, f, n, sp, EndOf(slots, 0));
      var k :| f <= k < f + n && k < EndOf(slots, 0) && !IsFree(slots[k], k, sp);
      assert !Vacant(slots, k, sp);
    }
  }

  /** A slot in use at `i` rules out every run that reaches from the gap to it. */
  lemma GapIsLost(slots: seq<Slot>, gap: Gap, n: nat, sp: Special, i: nat)
    requires i < |slots| && !IsFree(slots[i], i, sp) && 1 <= n && !gap.found && GapSound(slots, gap, i, n, sp)
    requires NoRoomBefore(slots, GapStart(gap, i), n, sp, i)
    ensures NoRoomBefore(slots, i + 1, n, sp, i + 1)
  {
    hide IsFree;
    var next := i + 1;
    forall f | 0 <= f < next
      ensures InUseIn(slots, f, n, sp, next)
    {
      if f < GapStart(gap, i) {
        assert InUseIn(slots, f, n, sp, i);
        var k :| f <= k < f + n && k < i && !IsFree(slots[k], k, sp);
      } else {
        assert f <= i < f + n;
      }
    }
  }

  lemma NoRoomStays(slots: seq<Slot>, g: nat, n: nat, sp: Special, i: nat)
    requires i < |slots| && NoRoomBefore(slots, g, n, sp, i)
    ensures NoRoomBefore(slots, g, n, sp, i + 1)
  {
    hide IsFree;
    var next := i + 1;
    forall f | 0 <= f < g
      ensures InUseIn(slots, f, n, sp, next)
    {
      assert InUseIn(slots, f, n, sp, i);
      var k :| f <= k < f + n && k < i && !IsFree(slots[k], k, sp);
    }
  }

  /** Where the gap starts, or would start. */
  function GapStart(gap: Gap, i: nat): (g: nat) { if gap.pos < 0 then i else gap.pos }

  /** `after` is `before` with zeroed slots added at the end. */
  ghost predicate Grown(before: seq<Slot>, after: seq<Slot>)
  {
    exists z: nat :: after == before + Zeros(z)
  }

  /** Entries that can clash with the alias: main entries other than the one being renamed. */
  predicate Counts(s: Slot, i: nat, sp: Special)
  {
    IsMain(s) && !Covers(sp, i) && i != sp.main
  }

  /** The 8+3 names in `[0, i)` that can clash. */
  function OtherNames(slots: seq<Slot>, i: nat, sp: Special): (ds: seq<Name>)
    requires i <= |slots|
  {
    if i == 0 then []
    else OtherNames(slots, i - 1, sp) + if Counts(slots[i - 1], i - 1, sp) then [ShortName(slots[i - 1])] else []
  }

  lemma OtherNamesContain(slots: seq<Slot>, i: nat, sp: Special, k: nat)
    requires k < i <= |slots| && Counts(slots[k], k, sp)
    ensures ShortName(slots[k]) in OtherNames(slots, i, sp)
  {
  }

  lemma UsedSnoc(base: Name, taken: bool, ds: seq<Name>, d: Name, k: nat)
    ensures Used(base, taken, ds + [d], k) <==> Used(base, taken, ds, k) || MarkOf(base, d) == Number(k)
  {
    hide MarkOf;
    var all := ds + [d];
    assert all[|ds|] == d;
    assert forall i :: 0 <= i < |ds| ==> all[i] == ds[i];
  }

  /** The gap being collected: where it starts (-1 for nowhere), its length, and whether it suffices. */
  datatype Gap = Gap(pos: int, len: nat, found: bool)

  /** The gap is vacant, and unless it suffices it reaches up to `i`. */
  ghost predicate GapSound(slots: seq<Slot>, gap: Gap, i: nat, count: nat, sp: Special)
    requires i <= |slots|
  {
    && (gap.found ==> 0 <= gap.pos && count <= gap.len)
    && (0 <= gap.pos ==> gap.pos + gap.len <= i)
    && (0 <= gap.pos ==> forall k :: gap.pos <= k < gap.pos + gap.len ==> IsFree(slots[k], k, sp))
    && (0 <= gap.pos && !gap.found ==> gap.pos + gap.len == i && gap.len < count)
  }

  function GapGrown(gap: Gap, i: nat, count: nat): (r: Gap)
  {
    if gap.found then gap
    else if gap.pos < 0 then Gap(i, 1, count <= 1)
    else Gap(gap.pos, gap.len + 1, count <= gap.len + 1)
  }

  lemma GapGrownIsSound(slots: seq<Slot>, gap: Gap, i: nat, count: nat, sp: Special)
    requires i < |slots| && GapSound(slots, gap, i, count, sp) && IsFree(slots[i], i, sp)
    ensures GapSound(slots, GapGrown(gap, i, count), i + 1, count, sp)
  {
  }

  lemma NoGapIsSound(slots: seq<Slot>, gap: Gap, i: nat, count: nat, sp: Special)
    requires i <= |slots| && gap.pos < 0 && !gap.found
    ensures GapSound(slots, gap, i, count, sp)
  {
  }

  lemma FoundGapStaysSound(slots: seq<Slot>, gap: Gap, i: nat, count: nat, sp: Special)
    requires i < |slots| && gap.found && GapSound(slots, gap, i, count, sp)
    ensures GapSound(slots, gap, i + 1, count, sp)
  {
  }

  // ---------- Why a search fails ----------

  /** `n` vacant slots exist in the file, or it can still grow. */
  ghost predicate HasRoom(slots: seq<Slot>, spare: nat, n: nat, sp: Special)
  {
    spare > 0 || exists first: nat :: first + n <= |slots| && VacantRun(slots, first, n, sp)
  }

  /** The first fit decides whether there is room. */
  lemma RoomExactly(slots: seq<Slot>, spare: nat, first: nat, n: nat, sp: Special)
    requires FirstFit(slots, first, n, sp)
    ensures HasRoom(slots, spare, n, sp) <==> spare > 0 || first + n <= |slots|
  {
    hide VacantRun;
    if HasRoom(slots, spare, n, sp) && spare == 0 {
      var f: nat :| f + n <= |slots| && VacantRun(slots, f, n, sp);
      assert first <= f;
    }
  }

  /** Some other entry makes the collision test write outside its table. */
  ghost predicate RunsWild(base: Name, ds: seq<Name>)
  {
    exists i :: 0 <= i < |ds| && MarkOf(base, ds[i]) == Wild
  }

  ghost predicate Exhausted(base: Name, taken: bool, ds: seq<Name>)
  {
    forall k :: 0 <= k < NUMBERS ==> Used(base, taken, ds, k)
  }

  /** The first free number has nothing but blanks to stand behind, not even in front of the name. */
  ghost predicate NoPlaceForNumber(base: Name, taken: bool, ds: seq<Name>, front: byte)
  {
    exists k :: IsPick(base, taken, ds, k) && !Patchable(base, k, front)
  }

  lemma PickIsUnique(base: Name, taken: bool, ds: seq<Name>, j: nat, k: nat)
    requires IsPick(base, taken, ds, j) && IsPick(base, taken, ds, k)
    ensures j == k && !Exhausted(base, taken, ds)
  {
    hide Used, MarkOf;
  }

  /**
   The reason for which a search fails, if it fails; `spare` clusters are left, and `front` is the
   byte in front of the name in memory.
   */
  ghost function Complaint(slots: seq<Slot>, spare: nat, want: Demand, sp: Special, base: Name, front: byte)
    : (e: Option<Error>)
  {
    var ds := OtherNames(slots, EndOf(slots, 0), sp);
    if want.long.Some? && |want.long.value| > MAX_NAME then Some(NameTooLong)
    else if want.long.Some? && RunsWild(base, ds) then Some(WildAccess)
    else if !HasRoom(slots, spare, want.count, sp) then Some(NoSpace)
    else if want.long.None? then None
    else if Exhausted(base, want.taken, ds) then Some(NumbersExhausted)
    else if NoPlaceForNumber(base, want.taken, ds, front) then Some(WildAccess)
    else None
  }

  /**
   The two ways into memory that is not the search's own, for a base that a new name has. Either a
   number below zero is spelled by another name of the same beginning and extension, or the base
   is blank, cannot be used as it is, and happens to lie behind another blank in memory.
   */
  lemma WildAccessExactly(slots: seq<Slot>, spare: nat, want: Demand, sp: Special, base: Name, front: byte)
    requires base[0] != BLANK || IsBlank(base)
    ensures var ds := OtherNames(slots, EndOf(slots, 0), sp);
            Complaint(slots, spare, want, sp, base, front) == Some(WildAccess) <==>
              && want.long.Some? && |want.long.value| <= MAX_NAME
              && ((exists i :: 0 <= i < |ds| && base[8..] == ds[i][8..] && base[0] == ds[i][0] && Wraps(base, ds[i], 1))
                  || (IsBlank(base) && front == BLANK && HasRoom(slots, spare, want.count, sp)
                      && Used(base, want.taken, ds, 0) && !Exhausted(base, want.taken, ds)))
  {
    hide MarkOf, Used, EndOf, OtherNames, HasRoom, Wraps;
    var ds := OtherNames(slots, EndOf(slots, 0), sp);
    forall i | 0 <= i < |ds|
      ensures MarkOf(base, ds[i]) == Wild <==>
              base[8..] == ds[i][8..] && base[0] == ds[i][0] && Wraps(base, ds[i], 1)
    {
      WildExactly(base, ds[i]);
    }
    if !RunsWild(base, ds) {
      BlankHasNoPlace(base, want.taken, ds, front);
    }
  }

  /** Only a blank base behind a blank has no place for a number, when it needs one and there is one. */
  lemma BlankHasNoPlace(base: Name, taken: bool, ds: seq<Name>, front: byte)
    requires base[0] != BLANK || IsBlank(base)
    requires !RunsWild(base, ds)
    ensures !Exhausted(base, taken, ds) ==>
      (NoPlaceForNumber(base, taken, ds, front) <==> IsBlank(base) && front == BLANK && Used(base, taken, ds, 0))
  {
    hide Used, MarkOf;
    if !Exhausted(base, taken, ds) {
      var k := FirstFree(base, taken, ds, 0);
      assert IsPick(base, taken, ds, k);
      assert Patchable(base, k, front) <==> k == 0 || base[0] != BLANK || front != BLANK;
      assert k == 0 <==> !Used(base, taken, ds, 0);
      forall j | IsPick(base, taken, ds, j)
        ensures j == k
      {
        PickIsUnique(base, taken, ds, j, k);
      }
    }
  }

  lemma FirstFree(base: Name, taken: bool, ds: seq<Name>, i: nat) returns (k: nat)
    requires i <= NUMBERS && (forall j :: 0 <= j < i ==> Used(base, taken, ds, j)) && !Exhausted(base, taken, ds)
    ensures k < NUMBERS && !Used(base, taken, ds, k) && forall j :: 0 <= j < k ==> Used(base, taken, ds, j)
    decreases NUMBERS - i
  {
    hide Used;
    if i == NUMBERS || Used(base, taken, ds, i) {
      k := FirstFree(base, taken, ds, i + 1);
    } else {
      k := i;
    }
  }

  // ---------- The search ----------

  /** A directory and the number of clusters by which it can still grow. */
  datatype Volume = Volume(slots: seq<Slot>, spare: nat)

  /** Nothing has changed, or one cluster of zeroed slots has been added. */
  ghost predicate GrewOnce(before: Volume, after: Volume, cluster: nat)
  {
    after == before || (before.spare > 0 && after == Volume(before.slots + Zeros(cluster), before.spare - 1))
  }

  lemma GrewOnceIsGrown(before: Volume, after: Volume, cluster: nat)
    requires GrewOnce(before, after, cluster)
    ensures Grown(before.slots, after.slots)
  {
    assert before.slots == before.slots + Zeros(0);
  }

  ghost function VolumeOf(fd: DosDir): (v: Volume)
    reads fd
  {
    Volume(fd.slots, fd.clustersLeft)
  }

  /** Makes the slots of a gap that reaches the end mark exist. */
  method MakeRoom(fd: DosDir, gap: Gap, count: nat) returns (ok: bool)
    requires fd.Valid() && 0 <= gap.pos && gap.pos + gap.len <= |fd.slots| && gap.len <= count <= 16
    modifies fd
    ensures GrewOnce(old(VolumeOf(fd)), VolumeOf(fd), fd.slotsPerCluster)
    ensures ok <==> gap.pos + count <= |old(fd.slots)| || old(fd.clustersLeft) > 0
    ensures ok ==> gap.pos + count <= |fd.slots|
    ensures gap.pos + count <= |old(fd.slots)| ==> fd.slots == old(fd.slots)
  {
    var len := gap.len;
    while len < count
      invariant gap.len <= len <= count && gap.pos + len <= |fd.slots|
      invariant GrewOnce(old(VolumeOf(fd)), VolumeOf(fd), fd.slotsPerCluster)
      invariant gap.pos + count <= |fd.slots| || VolumeOf(fd) == old(VolumeOf(fd))
      invariant gap.pos + count <= |old(fd.slots)| ==> fd.slots == old(fd.slots)
    {
      if gap.pos + len >= |fd.slots| {
        ok := fd.Extend();
        if !ok {
          return;
        }
      }
      len := len + 1;
    }
    ok := true;
  }

  datatype Found = Failed(error: Error) | Room(first: nat, at: nat, long: Option<seq<byte>>, main: Slot)

  /** What a search over `slots` may answer when it succeeds. */
  ghost predicate Answers(slots: seq<Slot>, after: seq<Slot>, r: Found, want: Demand, sp: Special, main: Slot)
    requires r.Room?
  {
    && r.long == want.long && r.at == r.first + want.count - 1
    && Grown(slots, after) && r.first + want.count <= |after|
    && FirstFit(slots, r.first, want.count, sp)
    && (r.first + want.count <= |slots| ==> after == slots)
    && (r.long.None? ==> r.main == main)
    && (r.long.Some? ==> AliasGiven(main, r.main, want.taken, OtherNames(slots, EndOf(slots, 0), sp)))
  }

  /** `after` is `before` under the alias with the first number that is free among `ds`. */
  ghost predicate AliasGiven(before: Slot, after: Slot, taken: bool, ds: seq<Name>)
  {
    exists k :: IsPick(ShortName(before), taken, ds, k) && Renumbered(before, after, k)
  }

  ghost predicate Renumbered(before: Slot, after: Slot, k: nat)
  {
    if k == 0 then after == before
    else k < NUMBERS && after == AliasName(ShortName(before), k) + before[11..]
  }

  /** The numbers noted while scanning `[0, i)`. */
  ghost predicate Noted(used: seq<bool>, base: Name, taken: bool, ds: seq<Name>)
  {
    && |used| == NUMBERS
    && (forall k :: 0 <= k < NUMBERS ==> (used[k] <==> Used(base, taken, ds, k)))
    && forall i :: 0 <= i < |ds| ==> MarkOf(base, ds[i]) != Wild
  }

  method NoteMain(base: Name, d: Name, used: array<bool>, ghost taken: bool, ghost ds: seq<Name>)
    returns (wild: bool)
    requires used.Length == NUMBERS && Noted(used[..], base, taken, ds)
    modifies used
    ensures wild <==> MarkOf(base, d) == Wild
    ensures !wild ==> Noted(used[..], base, taken, ds + [d])
  {
    hide MarkOf, Used;
    ghost var before := used[..];
    wild := NoteEntry(base, d, used);
    forall k | 0 <= k < NUMBERS
      ensures used[..][k] <==> before[k] || MarkOf(base, d) == Number(k)
      ensures used[..][k] <==> Used(base, taken, ds + [d], k)
    {
      assert before[k] <==> Used(base, taken, ds, k);
      UsedSnoc(base, taken, ds, d, k);
    }
  }

  /** The last part: choose the number and patch the name, or say why that cannot be done. */
  method GiveAlias(main: Slot, used: array<bool>, front: byte, ghost taken: bool, ghost ds: seq<Name>)
    returns (e: Option<Error>, r: Slot)
    requires used.Length == NUMBERS && Noted(used[..], ShortName(main), taken, ds)
    ensures e.None? ==> AliasGiven(main, r, taken, ds)
    ensures var base := ShortName(main);
            e == if Exhausted(base, taken, ds) then Some(NumbersExhausted)
                 else if NoPlaceForNumber(base, taken, ds, front) then Some(WildAccess) else None
  {
    hide MarkOf, Used, AliasName, Patchable;
    r := main;
    var found, number := PickNumber(used);
    if !found {
      assert forall k :: 0 <= k < NUMBERS ==> used[..][k];
      return Some(NumbersExhausted), r;
    }
    var base := ShortName(main);
    assert IsPick(base, taken, ds, number) by {
      assert !used[..][number];
      assert forall k :: 0 <= k < number ==> used[..][k];
    }
    forall k | IsPick(base, taken, ds, k)
      ensures k == number
    {
      PickIsUnique(base, taken, ds, k, number);
    }
    if number != 0 {
      var alias := PatchAlias(base, number, front);
      if alias.None? {
        return Some(WildAccess), r;
      }
      r := alias.value + main[11..];
    } else {
      ZeroIsPatchable(base, front);
    }
    assert Renumbered(main, r, number);
    return None, r;
  }

  lemma ZeroIsPatchable(base: Name, front: byte)
    ensures Patchable(base, 0, front)
  {
  }

  /** The scan is over at `i`: settles where the gap is and makes its slots exist. */
  method FinishGap(fd: DosDir, gap: Gap, i: nat, count: nat, sp: Special) returns (ok: bool, first: nat)
    requires fd.Valid() && 1 <= count <= 16
    requires i == EndOf(fd.slots, 0) && GapSound(fd.slots, gap, i, count, sp)
    requires NoRoomBefore(fd.slots, GapStart(gap, i), count, sp, i)
    modifies fd
    ensures GrewOnce(old(VolumeOf(fd)), VolumeOf(fd), fd.slotsPerCluster)
    ensures ok <==> HasRoom(old(fd.slots), old(fd.clustersLeft), count, sp)
    ensures ok ==> first + count <= |fd.slots| && FirstFit(old(fd.slots), first, count, sp)
    ensures ok && first + count <= |old(fd.slots)| ==> fd.slots == old(fd.slots)
  {
    hide EndOf, NoRoomBefore, FirstFit, HasRoom;
    ghost var slots := fd.slots;
    first := GapStart(gap, i);
    assert VacantRun(slots, first, count, sp);
    RoomIsFirst(slots, first, count, sp);
    RoomExactly(slots, fd.clustersLeft, first, count, sp);
    if gap.found {
      return true, first;
    }
    if i == |fd.slots| {
      ok := fd.Extend();
    } else {
      ok := MakeRoom(fd, GapGrown(gap, i, count), count);
    }
  }

  /** A wild entry that the pass meets is among the names that it counts. */
  lemma WildIsMet(slots: seq<Slot>, sp: Special, i: nat, base: Name)
    requires i < |slots| && Counts(slots[i], i, sp) && forall k :: 0 <= k <= i ==> !IsEnd(slots[k])
    requires MarkOf(base, ShortName(slots[i])) == Wild
    ensures RunsWild(base, OtherNames(slots, EndOf(slots, 0), sp))
  {
    hide MarkOf, EndOf, OtherNames;
    EndOfIsPast(slots, i + 1);
    OtherNamesContain(slots, EndOf(slots, 0), sp, i);
  }

  lemma NotedIsTame(used: seq<bool>, base: Name, taken: bool, ds: seq<Name>)
    requires Noted(used, base, taken, ds)
    ensures !RunsWild(base, ds)
  {
    hide MarkOf;
  }

  lemma NothingBefore(slots: seq<Slot>, n: nat, sp: Special)
    ensures NoRoomBefore(slots, 0, n, sp, 0)
  {
  }

  /** A short name stops at the first free slot. */
  lemma EarlyIsFirst(slots: seq<Slot>, i: nat, sp: Special)
    requires i < |slots| && IsFree(slots[i], i, sp) && forall k :: 0 <= k <= i ==> !IsEnd(slots[k])
    requires NoRoomBefore(slots, i, 1, sp, i)
    ensures FirstFit(slots, i, 1, sp)
  {
    hide EndOf, IsFree;
    EndOfIsPast(slots, i);
    assert Vacant(slots, i, sp);
    forall f | 0 <= f < i
      ensures InUseIn(slots, f, 1, sp, EndOf(slots, 0))
    {
      assert InUseIn(slots, f, 1, sp, i);
    }
    RoomIsFirst(slots, i, 1, sp);
  }

  datatype Pass = Stopped(error: Error) | Early(i: nat) | Whole(first: nat)

  /** The pass over the directory. A short name takes the first free slot it meets. */
  method PassOver(fd: DosDir, want: Demand, sp: Special, base: Name, used: array<bool>) returns (r: Pass)
    requires fd.Valid() && fd.pos == 0 && 1 <= want.count <= 16
    requires want.long.None? ==> want.count == 1
    requires used.Length == NUMBERS && Noted(used[..], base, want.taken, [])
    modifies fd, used
    ensures GrewOnce(old(VolumeOf(fd)), VolumeOf(fd), fd.slotsPerCluster)
    ensures var wild := want.long.Some? && RunsWild(base, OtherNames(old(fd.slots), EndOf(old(fd.slots), 0), sp));
            && (wild ==> r == Stopped(WildAccess))
            && (!wild ==> if HasRoom(old(fd.slots), old(fd.clustersLeft), want.count, sp) then !r.Stopped?
                          else r == Stopped(NoSpace))
    ensures r.Early? ==> want.long.None? && r.i < |fd.slots| && fd.slots == old(fd.slots)
                         && FirstFit(fd.slots, r.i, 1, sp)
    ensures r.Whole? ==> r.first + want.count <= |fd.slots|
                         && FirstFit(old(fd.slots), r.first, want.count, sp)
    ensures r.Whole? && r.first + want.count <= |old(fd.slots)| ==> fd.slots == old(fd.slots)
    ensures r.Whole? && want.long.Some? ==>
      Noted(used[..], base, want.taken, OtherNames(old(fd.slots), EndOf(old(fd.slots), 0), sp))
  {
    hide EndOf, Noted, NoRoomBefore, FirstFit, GapSound, HasRoom, RunsWild, MarkOf;
    ghost var slots := fd.slots;
    assert NoRoomBefore(slots, 0, want.count, sp, 0) by { NothingBefore(slots, want.count, sp); }
    var gap := Gap(-1, 0, false);
    NoGapIsSound(slots, gap, 0, want.count, sp);
    while true
      invariant fd.slots == slots && fd.clustersLeft == old(fd.clustersLeft) && fd.pos <= |slots|
      invariant forall k :: 0 <= k < fd.pos ==> !IsEnd(slots[k])
      invariant GapSound(slots, gap, fd.pos, want.count, sp)
      invariant want.long.None? ==> gap == Gap(-1, 0, false)
      invariant NoRoomBefore(slots, GapStart(gap, fd.pos), want.count, sp, fd.pos)
      invariant want.long.Some? ==> Noted(used[..], base, want.taken, OtherNames(slots, fd.pos, sp))
      decreases |slots| - fd.pos
    {
      var i := fd.pos;
      var more, s := fd.Read();
      if !more || s[0] == 0 {
        EndOfIs(slots, i);
        if want.long.Some? {
          NotedIsTame(used[..], base, want.taken, OtherNames(slots, i, sp));
        }
        var ok, first := FinishGap(fd, gap, i, want.count, sp);
        return if ok then Whole(first) else Stopped(NoSpace);
      }
      assert !Counts(s, i, sp) ==> OtherNames(slots, i + 1, sp) == OtherNames(slots, i, sp);
      NoRoomStays(slots, GapStart(gap, i), want.count, sp, i);
      if s[0] == 0xe5 || (i <= sp.main && i >= sp.first) {
        if want.long.None? {
          EarlyIsFirst(slots, i, sp);
          RoomExactly(slots, fd.clustersLeft, i, 1, sp);
          return Early(i);
        }
        GapGrownIsSound(slots, gap, i, want.count, sp);
        gap := GapGrown(gap, i, want.count);
        continue;
      }
      if !gap.found {
        GapIsLost(slots, gap, want.count, sp, i);
        NoGapIsSound(slots, Gap(-1, gap.len, false), i + 1, want.count, sp);
      } else {
        FoundGapStaysSound(slots, gap, i, want.count, sp);
      }
      if want.long.Some? {
        if !gap.found {
          gap := Gap(-1, gap.len, false);
        }
        if s[11] != LONG_NAME_ATTR && i != sp.main {
          var wild := NoteMain(base, ShortName(s), used, want.taken, OtherNames(slots, i, sp));
          if wild {
            WildIsMet(slots, sp, i, base);
            return Stopped(WildAccess);
          }
        }
      }
    }
  }

  /** What the new entry needs: a long name only if its short name does not spell it. */
  method Measure(name: seq<byte>, base: Name, longNames: bool) returns (want: Demand)
    ensures want == DemandOf(name, base, longNames)
  {
    hide Expanded, SameName;
    want := Demand(None, 1, false);
    if longNames {
      var short := Expanded(base);
      if short != name {
        want := Demand(Some(name), (|name| + 12) / 13 + 1, !SameName(short, name));
      }
    }
  }

  /** The slots of the old entry, or none if the new one needs another number of slots. */
  method OldRange(special: Special, count: nat) returns (sp: Special)
    ensures sp == Reusable(special, count)
  {
    sp := special;
    if sp.main >= 0 {
      if sp.first < 0 {
        sp := Special(sp.main, sp.main);
      }
      if count != sp.main - sp.first + 1 {
        sp := Special(sp.main, sp.main + 1);
      }
    }
  }

  /**
   The whole search. It fails for exactly the reasons that `Complaint` gives. Otherwise it answers
   with the first run of vacant slots that is long enough, makes those slots exist, and gives an
   alias whose number is the first one free; on failure the directory has at most grown.
   */
  method FFree(fd: DosDir, special: Special, name: seq<byte>, main: Slot, longNames: bool, front: byte)
    returns (r: Found)
    requires fd.Valid()
    modifies fd
    ensures GrewOnce(old(VolumeOf(fd)), VolumeOf(fd), fd.slotsPerCluster)
    ensures var want := DemandOf(name, ShortName(main), longNames);
            var sp := Reusable(special, want.count);
            var why := Complaint(old(fd.slots), old(fd.clustersLeft), want, sp, ShortName(main), front);
            && (r.Failed? ==> why == Some(r.error))
            && (r.Room? ==> why == None && Answers(old(fd.slots), fd.slots, r, want, sp, main))
  {
    hide MarkOf, EndOf, Reusable, Expanded, SameName, FirstFit, HasRoom, RunsWild, Exhausted, NoPlaceForNumber;
    fd.Seek(0);
    var base := ShortName(main);
    var want := Measure(name, base, longNames);
    if want.long.Some? && |name| > MAX_NAME {
      return Failed(NameTooLong);
    }
    var sp := OldRange(special, want.count);
    var used := new bool[NUMBERS](k => k == 0 && want.taken);
    var pass := PassOver(fd, want, sp, base, used);
    GrewOnceIsGrown(old(VolumeOf(fd)), VolumeOf(fd), fd.slotsPerCluster);
    match pass {
      case Stopped(e) => return Failed(e);
      case Early(i) => return Room(i, i, None, main);
      case Whole(first) =>
        var named := main;
        if want.long.Some? {
          var e;
          e, named := GiveAlias(main, used, front, want.taken,
                                OtherNames(old(fd.slots), EndOf(old(fd.slots), 0), sp));
          if e.Some? {
            return Failed(e.value);
          }
        }
        return Room(first, first + want.count - 1, want.long, named);
    }
  }
}
