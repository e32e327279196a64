/**
 Creating an entry, from the search for room to the written slots, and what it
 keeps: the listing of every other entry and the shape of the directory.
 */
module Directory {
  import opened Basics
  import opened Slots
  import opened LongNames
  import opened Reading
  import opened Creation
  import opened Alias
  import opened Names
  import opened FreeSlots

  /** No entry is being renamed. */
  const NO_SPECIAL := Special(-1, -1)

  lemma {:induction false} WellFormedEnds(slots: seq<Slot>, i: nat)
    requires i <= |slots| && WellFormed(slots, i)
    ensures EndsAt(slots, EndOf(slots, i))
    decreases |slots| - i
  {
    if i < |slots| && !EndsAt(slots, i) {
      if IsPiece(slots[i]) {
        var n := PieceNumber(slots[i]);
        WellFormedEnds(slots, i + n + 1);
        EndOfSkips(slots, i, i + n + 1);
      } else {
        WellFormedEnds(slots, i + 1);
      }
    }
  }

  lemma {:induction false} EndOfSkips(slots: seq<Slot>, i: nat, j: nat)
    requires i <= j <= |slots| && forall k :: i <= k < j ==> !IsEnd(slots[k])
    ensures EndOf(slots, i) == EndOf(slots, j)
    decreases j - i
  {
    if i < j {
      EndOfSkips(slots, i + 1, j);
    }
  }

  lemma {:induction false} WellFormedGrows(slots: seq<Slot>, z: nat, i: nat)
    requires i <= |slots| && WellFormed(slots, i)
    ensures WellFormed(slots + Zeros(z), i)
    decreases |slots| - i
  {
    var all := slots + Zeros(z);
    if i < |slots| && !EndsAt(slots, i) {
      if IsPiece(slots[i]) {
        var n := PieceNumber(slots[i]);
        assert forall j :: i <= j <= i + n ==> all[j] == slots[j];
        assert IsRun(all, i, n);
        WellFormedGrows(slots, z, i + n + 1);
      } else {
        WellFormedGrows(slots, z, i + 1);
      }
    } else {
      assert EndsAt(all, i);
    }
  }

  /** A vacant run in a well-formed directory is a gap once its slots exist. */
  lemma VacantIsGap(slots: seq<Slot>, z: nat, first: nat, n: nat)
    requires WellFormed(slots, 0) && VacantRun(slots, first, n, NO_SPECIAL) && first + n <= |slots| + z
    ensures GapAt(slots + Zeros(z), first, n)
    ensures forall k :: 0 <= k < first ==> !IsEnd((slots + Zeros(z))[k])
  {
    hide EndOf, WellFormed;
    var all := slots + Zeros(z);
    var e := EndOf(slots, 0);
    WellFormedEnds(slots, 0);
    assert EndsAt(all, e);
    assert forall k :: 0 <= k < e ==> all[k] == slots[k];
    forall k | first <= k < first + n && k < e
      ensures IsDeleted(all[k])
    {
      assert Vacant(slots, k, NO_SPECIAL);
    }
    if e < first + n {
      assert first <= e < first + n && EndsAt(all, e) && forall k :: first <= k < e ==> IsDeleted(all[k]);
    }
  }

  // ---------- The shape is kept ----------

  lemma {:induction false} TailStaysWellFormed(slots: seq<Slot>, after: seq<Slot>, i: nat)
    requires |after| == |slots| && i <= |slots| && WellFormed(slots, i)
    requires forall k :: i <= k < |slots| ==> after[k] == slots[k]
    ensures WellFormed(after, i)
    decreases |slots| - i
  {
    if i < |slots| && !EndsAt(slots, i) {
      if IsPiece(slots[i]) {
        var n := PieceNumber(slots[i]);
        assert IsRun(after, i, n);
        TailStaysWellFormed(slots, after, i + n + 1);
      } else {
        TailStaysWellFormed(slots, after, i + 1);
      }
    } else {
      assert EndsAt(after, i);
    }
  }

  lemma {:induction false} WellFormedPastDeleted(slots: seq<Slot>, i: nat, j: nat)
    requires i <= j <= |slots| && WellFormed(slots, i) && forall k :: i <= k < j ==> IsDeleted(slots[k])
    ensures WellFormed(slots, j)
    decreases j - i
  {
    if i < j {
      assert !IsEnd(slots[i]);
      WellFormedPastDeleted(slots, i + 1, j);
    }
  }

  /** The stored entry is itself well formed. */
  lemma EntryIsRun(after: seq<Slot>, g: nat, name: seq<byte>, main: Slot)
    requires Creatable(Some(name), main)
    requires g + PieceCount(name) < |after|
    requires after[g..g + PieceCount(name) + 1] == EntrySlots(Some(name), main)
    ensures IsRun(after, g, PieceCount(name)) && PieceNumber(after[g]) == PieceCount(name)
  {
    hide Checksum, Chain, StoredPiece, PieceText;
    var n := PieceCount(name);
    var sum := Checksum(ShortName(main));
    var all := EntrySlots(Some(name), main);
    assert all == Chain(name, sum, n) + [main];
    assert forall j :: g <= j <= g + n ==> after[j] == after[g..g + n + 1][j - g];
    forall j | g <= j < g + n
      ensures after[j] == StoredPiece(name, sum, g + n - j)
      ensures IsPiece(after[j]) && PieceNumber(after[j]) == g + n - j && PieceChecksum(after[j]) == sum
      ensures IsLastPiece(after[j]) <==> j == g
    {
      assert after[j] == all[j - g];
      ChainAt(name, sum, n, j - g);
      StoredPieceReads(name, sum, g + n - j);
    }
    assert after[g + n] == main;
  }

  /** `after` is `slots` with `patch` in place of its slots from `g` on. */
  ghost predicate Filled(slots: seq<Slot>, after: seq<Slot>, g: nat, patch: seq<Slot>)
  {
    && |after| == |slots| && g + |patch| <= |slots|
    && after[g..g + |patch|] == patch
    && forall k :: 0 <= k < |slots| && !(g <= k < g + |patch|) ==> after[k] == slots[k]
  }

  lemma PatchedIsFilled(slots: seq<Slot>, g: nat, patch: seq<Slot>)
    requires g + |patch| <= |slots|
    ensures Filled(slots, Patched(slots, g, patch), g, patch)
  {
  }

  lemma ShapeBehindGap(slots: seq<Slot>, after: seq<Slot>, g: nat, patch: seq<Slot>)
    requires g <= |slots| && WellFormed(slots, g) && GapAt(slots, g, |patch|) && Filled(slots, after, g, patch)
    ensures WellFormed(after, g + |patch|)
  {
    var n := |patch|;
    if forall k :: g <= k < g + n ==> IsDeleted(slots[k]) {
      WellFormedPastDeleted(slots, g, g + n);
      TailStaysWellFormed(slots, after, g + n);
    } else {
      assert EndsAt(after, g + n);
    }
  }

  /** An entry that leaves no orphaned run behind. */
  ghost predicate Leaves(long: Option<seq<byte>>, main: Slot)
  {
    Storable(long, main) && (long.Some? ==> main[0] != 0xe5)
  }

  lemma ShapeAtGap(slots: seq<Slot>, after: seq<Slot>, g: nat, long: Option<seq<byte>>, main: Slot)
    requires g <= |slots| && Leaves(long, main) && WellFormed(slots, g)
    requires GapAt(slots, g, |EntrySlots(long, main)|) && Filled(slots, after, g, EntrySlots(long, main))
    ensures WellFormed(after, g)
  {
    hide Checksum, GapAt, IsRun, EntrySlots, EndsAt, PieceNumber;
    ShapeBehindGap(slots, after, g, EntrySlots(long, main));
    EntryEndsWithMain(long, main);
    if long.Some? {
      EntryIsRun(after, g, long.value, main);
      assert IsPiece(after[g]) by { RunBegins(after, g, PieceCount(long.value)); }
    } else {
      assert after[g] == after[g..g + 1][0] == main;
      assert IsDeleted(after[g]) || IsMain(after[g]);
    }
  }

  lemma RunBegins(slots: seq<Slot>, i: nat, n: nat)
    requires IsRun(slots, i, n)
    ensures IsPiece(slots[i])
  {
  }

  lemma {:induction false} FillingKeepsShape(slots: seq<Slot>, after: seq<Slot>, i: nat, g: nat,
                                            long: Option<seq<byte>>, main: Slot)
    requires i <= g < |slots| && Leaves(long, main) && WellFormed(slots, i)
    requires GapAt(slots, g, |EntrySlots(long, main)|) && Filled(slots, after, g, EntrySlots(long, main))
    requires IsDeleted(slots[g]) || IsEnd(slots[g])
    requires forall k :: 0 <= k < g ==> !IsEnd(slots[k])
    ensures WellFormed(after, i)
    decreases g - i
  {
    hide Checksum, GapAt, EntrySlots, PieceNumber, Leaves;
    if i == g {
      ShapeAtGap(slots, after, g, long, main);
    } else {
      assert slots[i] == after[i] && !IsEnd(slots[i]);
      if IsPiece(slots[i]) {
        var m := PieceNumber(slots[i]);
        assert i + m < g;
        assert forall j :: i <= j <= i + m ==> after[j] == slots[j];
        assert IsRun(after, i, m);
        FillingKeepsShape(slots, after, i + m + 1, g, long, main);
      } else {
        FillingKeepsShape(slots, after, i + 1, g, long, main);
      }
    }
  }

  // ---------- The listing is kept ----------

  lemma FillingKeepsListing(slots: seq<Slot>, after: seq<Slot>, g: nat, long: Option<seq<byte>>, main: Slot)
    requires g < |slots| && Creatable(long, main) && WellFormed(slots, 0)
    requires GapAt(slots, g, |EntrySlots(long, main)|) && Filled(slots, after, g, EntrySlots(long, main))
    requires IsDeleted(slots[g]) || IsEnd(slots[g])
    requires forall k :: 0 <= k < g ==> !IsEnd(slots[k])
    ensures var before := List(slots, 0, IDLE, FindAll);
            List(after, 0, IDLE, FindAll) == Listing(Inserted(before.entries, NewEntry(g, long, main)), before.broken)
  {
    hide StepSlot, EntrySlots, List, WellFormed, GapAt, StateAt, Inserted;
    WellFormedIsIdle(slots, 0, g);
    NewEntryIsFound(after, g, long, main);
    EntryEndsWithMain(long, main);
    FillingAddsOne(slots, after, g, |EntrySlots(long, main)|, NewEntry(g, long, main), 0, IDLE, FindAll);
  }

  lemma EntryEndsWithMain(long: Option<seq<byte>>, main: Slot)
    requires Storable(long, main)
    ensures |EntrySlots(long, main)| == 1 + if long.Some? then PieceCount(long.value) else 0
    ensures EntrySlots(long, main)[|EntrySlots(long, main)| - 1] == main
    ensures long.None? ==> EntrySlots(long, main) == [main]
  {
  }

  /**
   Create preserves the listing: writing an entry over a vacant run of a well-formed
   directory, grown if need be, leaves a well-formed directory whose full listing is the
   old one with exactly the new entry in its place.
   */
  lemma CreationPreservesListing(slots: seq<Slot>, grown: seq<Slot>, first: nat, long: Option<seq<byte>>, main: Slot)
    requires WellFormed(slots, 0) && Creatable(long, main) && Grown(slots, grown)
    requires first + |EntrySlots(long, main)| <= |grown|
    requires VacantRun(slots, first, |EntrySlots(long, main)|, NO_SPECIAL)
    ensures var after := Patched(grown, first, EntrySlots(long, main));
            var before := List(slots, 0, IDLE, FindAll);
            && WellFormed(after, 0)
            && List(after, 0, IDLE, FindAll)
               == Listing(Inserted(before.entries, NewEntry(first, long, main)), before.broken)
  {
    hide EntrySlots, NewEntry, List, WellFormed, VacantRun, Inserted, Filled, Patched;
    var z: nat :| grown == slots + Zeros(z);
    var after := Patched(grown, first, EntrySlots(long, main));
    PatchedIsFilled(grown, first, EntrySlots(long, main));
    EntryEndsWithMain(long, main);
    VacantIsGap(slots, z, first, |EntrySlots(long, main)|);
    assert IsDeleted(grown[first]) || IsEnd(grown[first]);
    WellFormedGrows(slots, z, 0);
    ZerosAddNothing(slots, z, 0, IDLE, FindAll);
    FillingKeepsListing(grown, after, first, long, main);
    FillingKeepsShape(grown, after, 0, first, long, main);
  }

  // ---------- The other case: a name that begins with the mark of deleted slots ----------

  /** The listing once an entry has been written at `first`. */
  function NewListing(before: Listing, after: seq<Slot>, first: nat, long: Option<seq<byte>>, main: Slot): (l: Listing)
    requires first + (if long.Some? then PieceCount(long.value) else 0) < |after|
  {
    if main[0] != 0xe5 then Listing(Inserted(before.entries, NewEntry(first, long, main)), before.broken)
    else
      match long
      case None => before
      case Some(name) =>
        var heir := Heir(after, first + PieceCount(name) + 1, Checksum(ShortName(main)));
        Listing(Renamed(before.entries, heir, RecodeAll(name), first), before.broken)
  }

  lemma FillingIsOrphaned(slots: seq<Slot>, after: seq<Slot>, g: nat, long: Option<seq<byte>>, main: Slot)
    requires g < |slots| && Storable(long, main) && main[0] == 0xe5 && WellFormed(slots, 0)
    requires GapAt(slots, g, |EntrySlots(long, main)|) && Filled(slots, after, g, EntrySlots(long, main))
    requires IsDeleted(slots[g]) || IsEnd(slots[g])
    requires forall k :: 0 <= k < g ==> !IsEnd(slots[k])
    ensures g + (if long.Some? then PieceCount(long.value) else 0) < |after|
    ensures List(after, 0, IDLE, FindAll) == NewListing(List(slots, 0, IDLE, FindAll), after, g, long, main)
  {
    hide List, EntrySlots, WellFormed, GapAt, Renamed, RecodeAll, Checksum, Heir, Filled;
    WellFormedIsIdle(slots, 0, g);
    EntryEndsWithMain(long, main);
    FilledFits(slots, after, g, EntrySlots(long, main));
    if long.Some? {
      OrphanIsListed(slots, after, g, long.value, main);
    } else {
      LostIsNotListed(slots, after, g, main);
    }
  }

  lemma OrphanIsListed(slots: seq<Slot>, after: seq<Slot>, g: nat, name: seq<byte>, main: Slot)
    requires g < |slots| && Storable(Some(name), main) && main[0] == 0xe5
    requires var patch := EntrySlots(Some(name), main); GapAt(slots, g, |patch|) && Filled(slots, after, g, patch)
    requires StateAt(slots, 0, g, IDLE, FindAll) == Some(IDLE)
    ensures g + PieceCount(name) < |after|
    ensures List(after, 0, IDLE, FindAll) == NewListing(List(slots, 0, IDLE, FindAll), after, g, Some(name), main)
  {
    hide List, EntrySlots, GapAt, StateAt, Renamed, RecodeAll, Checksum, Heir;
    EntryEndsWithMain(Some(name), main);
    var n, sum, text := PieceCount(name) + 1, Checksum(ShortName(main)), RecodeAll(name);
    OrphanIsWritten(after, g, name, main);
    OrphanIsAdopted(after, g + n, g, text, sum);
    FillingRenames(slots, after, g, n, Heir(after, g + n, sum), text, 0, IDLE);
  }

  lemma LostIsNotListed(slots: seq<Slot>, after: seq<Slot>, g: nat, main: Slot)
    requires g < |slots| && Storable(None, main) && main[0] == 0xe5
    requires var patch := EntrySlots(None, main); GapAt(slots, g, |patch|) && Filled(slots, after, g, patch)
    requires StateAt(slots, 0, g, IDLE, FindAll) == Some(IDLE)
    ensures List(after, 0, IDLE, FindAll) == List(slots, 0, IDLE, FindAll)
  {
    hide EntrySlots, GapAt, StateAt, Renamed, StepPiece, StepMain;
    EntryEndsWithMain(None, main);
    assert after[g] == after[g..g + 1][0] == main;
    assert List(after, g, IDLE, FindAll) == List(after, g + 1, IDLE, FindAll);
    hide List;
    NothingRenamed(List(after, g + 1, IDLE, FindAll).entries, None, [], g);
    FillingRenames(slots, after, g, 1, None, [], 0, IDLE);
    NothingRenamed(List(slots, 0, IDLE, FindAll).entries, None, [], g);
  }

  /** Everything that is listed is a main entry in use. */
  lemma {:induction false} ListedAreLive(slots: seq<Slot>, i: nat, st: Pending, mode: Mode)
    requires i <= |slots|
    ensures forall e :: e in List(slots, i, st, mode).entries ==>
              i <= e.index < |slots| && slots[e.index] == e.main && IsMain(e.main) && Wanted(mode, e.main[11])
    decreases |slots| - i
  {
    hide StepPiece, StepMain, Wanted;
    if i < |slots| {
      var step := StepSlot(slots[i], i, st, mode);
      ListedAreLive(slots, i + 1, if step.Skip? then step.st else IDLE, mode);
    }
  }

  lemma {:induction false} InsertedIsThere(entries: seq<Entry>, e: Entry)
    ensures e in Inserted(entries, e)
    decreases |entries|
  {
    if entries != [] && e.index >= entries[0].index {
      InsertedIsThere(entries[1..], e);
    }
  }

  /**
   Creation, for every entry that can be written: the new entry is listed if and only if its name
   does not begin with the mark of deleted slots. If it does, a bare main entry is lost without a
   trace, and a long name in front of it may be taken for that of a later entry, with nothing
   else changed.
   */
  lemma CreationListing(slots: seq<Slot>, grown: seq<Slot>, first: nat, long: Option<seq<byte>>, main: Slot)
    requires WellFormed(slots, 0) && Storable(long, main) && Grown(slots, grown)
    requires first + |EntrySlots(long, main)| <= |grown|
    requires VacantRun(slots, first, |EntrySlots(long, main)|, NO_SPECIAL)
    ensures var after := Patched(grown, first, EntrySlots(long, main));
            var at := first + |EntrySlots(long, main)| - 1;
            && first + (if long.Some? then PieceCount(long.value) else 0) == at < |after|
            && List(after, 0, IDLE, FindAll) == NewListing(List(slots, 0, IDLE, FindAll), after, first, long, main)
            && (Leaves(long, main) ==> WellFormed(after, 0))
            && (main[0] != 0xe5 <==> exists e :: e in List(after, 0, IDLE, FindAll).entries && e.index == at)
  {
    hide EntrySlots, List, WellFormed, VacantRun, Inserted, Filled, Patched, Checksum, RecodeAll;
    var z: nat :| grown == slots + Zeros(z);
    var after := Patched(grown, first, EntrySlots(long, main));
    var at := first + |EntrySlots(long, main)| - 1;
    PatchedIsFilled(grown, first, EntrySlots(long, main));
    EntryEndsWithMain(long, main);
    if main[0] != 0xe5 {
      CreationPreservesListing(slots, grown, first, long, main);
      InsertedIsThere(List(slots, 0, IDLE, FindAll).entries, NewEntry(first, long, main));
    } else {
      OrphanInGap(slots, z, after, first, long, main);
      MainIsLast(grown, after, first, EntrySlots(long, main));
      ListedAreLive(after, 0, IDLE, FindAll);
    }
  }

  lemma MainIsLast(slots: seq<Slot>, after: seq<Slot>, g: nat, patch: seq<Slot>)
    requires Filled(slots, after, g, patch) && patch != []
    ensures after[g + |patch| - 1] == patch[|patch| - 1]
  {
    assert after[g..g + |patch|][|patch| - 1] == patch[|patch| - 1];
  }

  lemma OrphanInGap(slots: seq<Slot>, z: nat, after: seq<Slot>, first: nat, long: Option<seq<byte>>, main: Slot)
    requires WellFormed(slots, 0) && Storable(long, main) && main[0] == 0xe5
    requires VacantRun(slots, first, |EntrySlots(long, main)|, NO_SPECIAL)
    requires Filled(slots + Zeros(z), after, first, EntrySlots(long, main))
    ensures first + (if long.Some? then PieceCount(long.value) else 0) < |after|
    ensures List(after, 0, IDLE, FindAll) == NewListing(List(slots, 0, IDLE, FindAll), after, first, long, main)
    ensures Leaves(long, main) ==> WellFormed(after, 0)
  {
    hide EntrySlots, List, WellFormed, VacantRun, NewListing, Filled;
    var grown := slots + Zeros(z);
    EntryEndsWithMain(long, main);
    FilledFits(grown, after, first, EntrySlots(long, main));
    VacantIsGap(slots, z, first, |EntrySlots(long, main)|);
    assert IsDeleted(grown[first]) || IsEnd(grown[first]);
    WellFormedGrows(slots, z, 0);
    ZerosAddNothing(slots, z, 0, IDLE, FindAll);
    FillingIsOrphaned(grown, after, first, long, main);
    if Leaves(long, main) {
      FillingKeepsShape(grown, after, 0, first, long, main);
    }
  }

  lemma FilledFits(slots: seq<Slot>, after: seq<Slot>, g: nat, patch: seq<Slot>)
    requires Filled(slots, after, g, patch)
    ensures g + |patch| <= |slots| == |after|
  {
  }

  // ---------- Creating an entry ----------

  /**
   Patching the number in leaves the attributes alone, and the first character too unless it is a
   blank, which can become a tilde.
   */
  lemma AliasKeepsEntry(before: Slot, after: Slot, k: nat)
    requires Renumbered(before, after, k)
    ensures after[0] == before[0] || (before[0] == BLANK && after[0] == TILDE)
    ensures after[11..] == before[11..]
  {
    hide Decimal;
    if k > 0 {
      DecimalLength(k);
    }
  }

  lemma GrowingKeepsAll(slots: seq<Slot>, after: seq<Slot>)
    requires WellFormed(slots, 0) && Grown(slots, after)
    ensures WellFormed(after, 0) && List(after, 0, IDLE, FindAll) == List(slots, 0, IDLE, FindAll)
  {
    var z: nat :| after == slots + Zeros(z);
    ZerosAddNothing(slots, z, 0, IDLE, FindAll);
    WellFormedGrows(slots, z, 0);
  }

  /** No main entry outside the one being renamed bears the name that was given. */
  ghost predicate NameIsNew(slots: seq<Slot>, sp: Special, main: Slot)
  {
    forall k :: 0 <= k < EndOf(slots, 0) && Counts(slots[k], k, sp) ==> ShortName(slots[k]) != ShortName(main)
  }

  /** What was given is the base as it is and not numbered, or the base is not blank. */
  ghost predicate GivesNew(before: Slot, after: Slot, taken: bool)
  {
    var base := ShortName(before);
    if IsBlank(base) then ShortName(after) == base else ShortName(after) != base || taken || !IsNumbered(base)
  }

  /** The alias that the search gives is new among all main entries wherever that can be ensured. */
  lemma GivenAliasIsNew(slots: seq<Slot>, sp: Special, before: Slot, after: Slot, taken: bool)
    requires AliasGiven(before, after, taken, OtherNames(slots, EndOf(slots, 0), sp))
    requires PaddedAtEnd(ShortName(before)) || IsBlank(ShortName(before))
    requires GivesNew(before, after, taken)
    ensures NameIsNew(slots, sp, after)
  {
    hide EndOf, IsPick, OtherNames, IsNumbered, Decimal;
    var ds := OtherNames(slots, EndOf(slots, 0), sp);
    var base := ShortName(before);
    var n :| IsPick(base, taken, ds, n) && Renumbered(before, after, n);
    PickIsSmall(base, taken, ds, n);
    assert ShortName(after) == AliasName(base, n);
    BlankIsNotNumbered(base);
    if IsBlank(base) && n > 0 {
      BlankMissesItsAlias(base, n);
      assert false;
    }
    AliasIsUnique(base, taken, ds, n);
    forall k | 0 <= k < EndOf(slots, 0) && Counts(slots[k], k, sp)
      ensures ShortName(slots[k]) != ShortName(after)
    {
      OtherNamesContain(slots, EndOf(slots, 0), sp, k);
    }
  }

  lemma PickIsSmall(base: Name, taken: bool, ds: seq<Name>, k: nat)
    requires IsPick(base, taken, ds, k)
    ensures k < NUMBERS && (taken ==> k > 0)
  {
  }

  /**
   A new entry: its name, its slot as far as it is known, whether the volume has long names, and
   the byte in front of that slot in memory.
   */
  datatype Request = Request(name: seq<byte>, main: Slot, longNames: bool, front: byte)

  ghost predicate IsRequest(q: Request)
  {
    q.main[0] != 0 && !IsLabel(q.main[11]) && IsCString(q.name) && q.name != []
  }

  function DemandFor(q: Request): (d: Demand) { DemandOf(q.name, ShortName(q.main), q.longNames) }

  /** The answer `r` is written into the directory as the search leaves it. */
  ghost predicate Writes(before: Volume, grown: Volume, q: Request, r: Found, after: Volume)
  {
    && r.Room? && Answers(before.slots, grown.slots, r, DemandFor(q), NO_SPECIAL, q.main)
    && Storable(r.long, r.main) && r.first + |EntrySlots(r.long, r.main)| <= |grown.slots|
    && after == Volume(Patched(grown.slots, r.first, EntrySlots(r.long, r.main)), grown.spare)
  }

  /**
   What one creation does to any directory. It fails for exactly the reasons of the search, and
   then has added at most one empty cluster; nothing is said once memory that is not its own has
   been written. Otherwise the entry is stored in the first run of vacant slots that is long enough.
   */
  ghost predicate Creates(before: Volume, q: Request, r: Found, after: Volume, cluster: nat)
  {
    var why := Complaint(before.slots, before.spare, DemandFor(q), NO_SPECIAL, ShortName(q.main), q.front);
    match r
    case Failed(e) => why == Some(e) && (e != WildAccess ==> GrewOnce(before, after, cluster))
    case Room(_, _, _, _) =>
      why == None && exists grown :: GrewOnce(before, grown, cluster) && Writes(before, grown, q, r, after)
  }

  /** What the search answers can be stored. */
  lemma AnswerIsStorable(slots: seq<Slot>, grown: seq<Slot>, q: Request, sp: Special, r: Found, spare: nat)
    requires IsRequest(q) && r.Room? && Answers(slots, grown, r, DemandFor(q), sp, q.main)
    requires Complaint(slots, spare, DemandFor(q), sp, ShortName(q.main), q.front) == None
    ensures Storable(r.long, r.main) && (r.long.Some? ==> r.long.value == q.name)
    ensures r.main[0] == 0xe5 <==> q.main[0] == 0xe5
    ensures r.first + |EntrySlots(r.long, r.main)| <= |grown|
    ensures r.at == r.first + |EntrySlots(r.long, r.main)| - 1
  {
    hide EndOf, IsPick, OtherNames, AliasName, Expanded, SameName, Grown, EntrySlots, FirstFit;
    hide HasRoom, RunsWild, Exhausted, NoPlaceForNumber;
    if r.long.Some? {
      var ds := OtherNames(slots, EndOf(slots, 0), sp);
      var n :| IsPick(ShortName(q.main), DemandFor(q).taken, ds, n) && Renumbered(q.main, r.main, n);
      AliasKeepsEntry(q.main, r.main, n);
      assert r.main[11] == r.main[11..][0] == q.main[11..][0] == q.main[11];
    }
    EntryEndsWithMain(r.long, r.main);
  }

  /** The creating call: search, seek to the first slot, write. */
  method Create(fd: DosDir, q: Request) returns (r: Found)
    requires fd.Valid() && IsRequest(q)
    modifies fd
    ensures Creates(old(VolumeOf(fd)), q, r, VolumeOf(fd), fd.slotsPerCluster)
  {
    hide EntrySlots, Complaint, Answers, Patched, Storable, GrewOnce;
    assert forall n :: Reusable(NO_SPECIAL, n) == NO_SPECIAL;
    r := FFree(fd, NO_SPECIAL, q.name, q.main, q.longNames, q.front);
    if r.Room? {
      ghost var grown := VolumeOf(fd);
      AnswerIsStorable(old(fd.slots), fd.slots, q, NO_SPECIAL, r, old(fd.clustersLeft));
      StorableFits(r.long, r.main);
      fd.Seek(r.first);
      var ok := CrNam(fd, r.main, r.long);
      assert ok;
      assert Writes(old(VolumeOf(fd)), grown, q, r, VolumeOf(fd));
    }
  }

  lemma StorableFits(long: Option<seq<byte>>, main: Slot)
    requires Storable(long, main)
    ensures long.Some? ==> IsCString(long.value) && PieceCount(long.value) < 32
  {
  }

  /**
   What a creation keeps: in a well-formed directory a failure changes no entry, and a success
   leaves the listing that `NewListing` describes, at the place that it reports, and the shape
   unless it has left an orphaned run.
   */
  lemma CreationKeepsListing(before: Volume, q: Request, r: Found, after: Volume, cluster: nat)
    requires WellFormed(before.slots, 0) && IsRequest(q) && Creates(before, q, r, after, cluster)
    ensures r.Failed? && r.error != WildAccess ==>
      WellFormed(after.slots, 0) && List(after.slots, 0, IDLE, FindAll) == List(before.slots, 0, IDLE, FindAll)
    ensures r.Room? ==>
      && (r.main[0] == 0xe5 <==> q.main[0] == 0xe5) && (Leaves(r.long, r.main) ==> WellFormed(after.slots, 0))
      && r.first + (if r.long.Some? then PieceCount(r.long.value) else 0) == r.at < |after.slots|
      && List(after.slots, 0, IDLE, FindAll)
         == NewListing(List(before.slots, 0, IDLE, FindAll), after.slots, r.first, r.long, r.main)
  {
    hide List, WellFormed, NewListing, EntrySlots, VacantRun, Complaint, AliasGiven, Patched;
    if r.Failed? {
      if r.error != WildAccess {
        GrewOnceIsGrown(before, after, cluster);
        GrowingKeepsAll(before.slots, after.slots);
      }
    } else {
      var grown :| GrewOnce(before, grown, cluster) && Writes(before, grown, q, r, after);
      GrewOnceIsGrown(before, grown, cluster);
      AnswerIsStorable(before.slots, grown.slots, q, NO_SPECIAL, r, before.spare);
      EntryEndsWithMain(r.long, r.main);
      CreationListing(before.slots, grown.slots, r.first, r.long, r.main);
    }
  }

  /** What a creation gives: an alias that no main entry bears, wherever that can be ensured. */
  lemma CreationGivesNewAlias(before: Volume, q: Request, r: Found, after: Volume, cluster: nat)
    requires Creates(before, q, r, after, cluster) && r.Room? && r.long.Some?
    requires PaddedAtEnd(ShortName(q.main)) || IsBlank(ShortName(q.main))
    requires GivesNew(q.main, r.main, DemandFor(q).taken)
    ensures NameIsNew(before.slots, NO_SPECIAL, r.main)
  {
    hide EndOf, OtherNames, IsNumbered, Expanded, SameName, Complaint, EntrySlots, NameIsNew, Patched, AliasGiven;
    var grown :| GrewOnce(before, grown, cluster) && Writes(before, grown, q, r, after);
    GivenAliasIsNew(before.slots, NO_SPECIAL, q.main, r.main, DemandFor(q).taken);
  }

  // ---------- Which numbers a directory occupies ----------

  /** Some main entry in front of the end mark leaves the given mark for this base. */
  ghost predicate Occupies(slots: seq<Slot>, base: Name, mark: Mark)
  {
    exists i :: 0 <= i < EndOf(slots, 0) && OccupiesAt(slots, base, mark, i)
  }

  ghost predicate OccupiesAt(slots: seq<Slot>, base: Name, mark: Mark, i: nat)
    requires i < |slots|
  {
    IsMain(slots[i]) && MarkOf(base, slots[i][..11]) == mark
  }

  lemma {:induction false} OtherNameIsThere(slots: seq<Slot>, n: nat, d: Name) returns (i: nat)
    requires n <= |slots| && d in OtherNames(slots, n, NO_SPECIAL)
    ensures i < n && Counts(slots[i], i, NO_SPECIAL) && ShortName(slots[i]) == d
    decreases n
  {
    if Counts(slots[n - 1], n - 1, NO_SPECIAL) && ShortName(slots[n - 1]) == d {
      i := n - 1;
    } else {
      i := OtherNameIsThere(slots, n - 1, d);
    }
  }

  /** Some of the names leaves the given mark. */
  ghost predicate LeavesMark(base: Name, ds: seq<Name>, mark: Mark)
  {
    exists n :: 0 <= n < |ds| && MarkOf(base, ds[n]) == mark
  }

  lemma MarkIsOccupied(slots: seq<Slot>, base: Name, mark: Mark)
    ensures LeavesMark(base, OtherNames(slots, EndOf(slots, 0), NO_SPECIAL), mark) <==> Occupies(slots, base, mark)
  {
    hide EndOf, OtherNames, MarkOf;
    var e := EndOf(slots, 0);
    var ds := OtherNames(slots, e, NO_SPECIAL);
    if LeavesMark(base, ds, mark) {
      var n :| 0 <= n < |ds| && MarkOf(base, ds[n]) == mark;
      var i := OtherNameIsThere(slots, e, ds[n]);
      assert OccupiesAt(slots, base, mark, i);
      assert Occupies(slots, base, mark);
    }
    if Occupies(slots, base, mark) {
      var i :| 0 <= i < e && OccupiesAt(slots, base, mark, i);
      OtherNamesContain(slots, e, NO_SPECIAL, i);
      var n :| 0 <= n < |ds| && ds[n] == ShortName(slots[i]);
      assert LeavesMark(base, ds, mark);
    }
  }

  /** The numbers that the search finds used, and the wild marks, are those that the slots leave. */
  lemma UsedIsOccupied(slots: seq<Slot>, base: Name, taken: bool, k: nat)
    ensures var ds := OtherNames(slots, EndOf(slots, 0), NO_SPECIAL);
            && (Used(base, taken, ds, k) <==> (k == 0 && taken) || Occupies(slots, base, Number(k)))
            && (RunsWild(base, ds) <==> Occupies(slots, base, Wild))
  {
    hide EndOf, OtherNames, MarkOf, Occupies;
    MarkIsOccupied(slots, base, Number(k));
    MarkIsOccupied(slots, base, Wild);
  }

  // ---------- Runs of creations ----------

  /** The entries that a run of creations has added. */
  function Added(results: seq<Found>): (es: seq<Entry>)
  {
    if results == [] then []
    else
      var r := results[|results| - 1];
      Added(results[..|results| - 1]) + if r.Room? then [NewEntry(r.first, r.long, r.main)] else []
  }

  /** A listing with several entries added one after the other. */
  function AllInserted(l: Listing, added: seq<Entry>): (r: Listing)
  {
    if added == [] then l
    else
      var before := AllInserted(l, added[..|added| - 1]);
      Listing(Inserted(before.entries, added[|added| - 1]), before.broken)
  }

  /** Every step of a run creates what was asked for. */
  ghost predicate AllCreated(trace: seq<Volume>, requests: seq<Request>, results: seq<Found>, cluster: nat)
  {
    && |trace| == |results| + 1 && |results| <= |requests|
    && forall i :: 0 <= i < |results| ==> Creates(trace[i], requests[i], results[i], trace[i + 1], cluster)
  }

  ghost predicate EndsWild(results: seq<Found>)
  {
    results != [] && results[|results| - 1] == Failed(WildAccess)
  }

  /** A run of creations, request by request; it ends early only where the source writes to foreign memory. */
  method CreateAll(fd: DosDir, requests: seq<Request>) returns (results: seq<Found>, ghost trace: seq<Volume>)
    requires fd.Valid() && forall i :: 0 <= i < |requests| ==> IsRequest(requests[i])
    modifies fd
    ensures AllCreated(trace, requests, results, fd.slotsPerCluster)
    ensures trace[0] == old(VolumeOf(fd)) && trace[|results|] == VolumeOf(fd)
    ensures forall i :: 0 <= i < |results| - 1 ==> results[i] != Failed(WildAccess)
    ensures |results| == |requests| || EndsWild(results)
  {
    hide Creates, IsRequest;
    results, trace := [], [VolumeOf(fd)];
    while |results| < |requests|
      invariant AllCreated(trace, requests, results, fd.slotsPerCluster)
      invariant trace[0] == old(VolumeOf(fd)) && trace[|results|] == VolumeOf(fd)
      invariant forall i :: 0 <= i < |results| ==> results[i] != Failed(WildAccess)
      decreases |requests| - |results|
    {
      var r := Create(fd, requests[|results|]);
      results, trace := results + [r], trace + [VolumeOf(fd)];
      if r == Failed(WildAccess) {
        return;
      }
    }
  }

  /**
   Any run of creations that begins in a well-formed directory and meets neither of the two
   defects keeps the directory well formed and loses no entry: the listing at the end is the one
   at the start with the created entries added in turn.
   */
  lemma {:induction false} RunKeepsListing(trace: seq<Volume>, requests: seq<Request>, results: seq<Found>,
                                           cluster: nat)
    requires AllCreated(trace, requests, results, cluster) && WellFormed(trace[0].slots, 0)
    requires forall i :: 0 <= i < |results| ==> IsRequest(requests[i]) && requests[i].main[0] != 0xe5
    requires forall i :: 0 <= i < |results| ==> results[i] != Failed(WildAccess)
    ensures WellFormed(trace[|results|].slots, 0)
    ensures List(trace[|results|].slots, 0, IDLE, FindAll)
         == AllInserted(List(trace[0].slots, 0, IDLE, FindAll), Added(results))
    decreases |results|
  {
    hide List, WellFormed, Inserted, Creates, NewEntry;
    if results != [] {
      var n := |results| - 1;
      var front, r := results[..n], results[n];
      RunKeepsListing(trace[..n + 1], requests, front, cluster);
      assert Creates(trace[n], requests[n], r, trace[n + 1], cluster);
      CreationKeepsListing(trace[n], requests[n], r, trace[n + 1], cluster);
      if r.Room? {
        var e := NewEntry(r.first, r.long, r.main);
        var added := Added(front) + [e];
        assert added[..|added| - 1] == Added(front);
        RoomLeaves(trace[n], requests[n], r, trace[n + 1], cluster);
      } else {
        assert Added(front) + [] == Added(front);
      }
    }
  }

  lemma RoomLeaves(before: Volume, q: Request, r: Found, after: Volume, cluster: nat)
    requires IsRequest(q) && q.main[0] != 0xe5 && Creates(before, q, r, after, cluster) && r.Room?
    requires r.main[0] == 0xe5 <==> q.main[0] == 0xe5
    ensures Leaves(r.long, r.main)
  {
    hide Complaint, Answers, EntrySlots, Patched;
  }
}
