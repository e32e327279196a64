/**
 Opening a file that may have to be created: search for the name, test it, convert it, make
 the entry. What the search did not find is new, is listed afterwards and is found again.
 */
module Opening {
  import opened Basics
  import opened CodePage
  import opened Slots
  import opened LongNames
  import opened Reading
  import opened Creation
  import opened Alias
  import opened Names
  import opened FreeSlots
  import opened Directory
  import opened Searching

  // ---------- What a search that finds nothing tells ----------

  /** Slot `k` is a main entry that a full listing shows. */
  predicate IsFile(slots: seq<Slot>, k: nat)
    requires k < |slots|
  {
    IsMain(slots[k]) && !IsLabel(slots[k][11])
  }

  /** A listing that is not broken shows every file in front of the end mark. */
  lemma LiveAreListed(slots: seq<Slot>, k: nat)
    requires k < EndOf(slots, 0) && IsFile(slots, k) && !List(slots, 0, IDLE, FindAll).broken
    ensures Reports(List(slots, 0, IDLE, FindAll), k, slots[k])
  {
    hide List, EndOf;
    ListedExactly(slots, 0, IDLE, FindAll, k);
  }

  lemma {:induction false} MissedByAll(entries: seq<Entry>, fname: seq<byte>, mode: Mode, e: Entry)
    requires FirstHit(entries, fname, mode) == None && e in entries
    ensures !Hits(e, fname, mode)
    decreases |entries|
  {
    hide Hits;
    if e != entries[0] {
      MissedByAll(entries[1..], fname, mode, e);
    }
  }

  /** No file bears the given short name. */
  ghost predicate NewAmongFiles(slots: seq<Slot>, main: Slot)
  {
    forall k :: 0 <= k < EndOf(slots, 0) && IsFile(slots, k) ==> ShortName(slots[k]) != ShortName(main)
  }

  /** A short name that expands to what was searched for in vain is new. */
  lemma MissedIsNew(slots: seq<Slot>, fname: seq<byte>, main: Slot)
    requires SearchListing(List(slots, 0, IDLE, FindAll), fname, FindAll) == NoMore
    requires SameName(Expanded(ShortName(main)), fname)
    ensures NewAmongFiles(slots, main)
  {
    hide List, FirstHit, Expanded, EndOf, SameName;
    var l := List(slots, 0, IDLE, FindAll);
    forall k | 0 <= k < EndOf(slots, 0) && IsFile(slots, k) && ShortName(slots[k]) == ShortName(main)
      ensures false
    {
      LiveAreListed(slots, k);
      var e :| e in l.entries && e.index == k && e.main == slots[k];
      MissedByAll(l.entries, fname, FindAll, e);
    }
  }

  // ---------- The entry that is made for a name ----------

  /** The slot that is made for a new name: its short form and whatever the caller fills in. */
  function MainFor(name: seq<byte>, rest: seq<byte>): (main: Slot)
    requires |rest| == 21
  {
    ShortForm(name) + rest
  }

  lemma MainForShape(name: seq<byte>, rest: seq<byte>, front: byte)
    requires |rest| == 21 && IsElement(name) && Acceptable(name) && !IsLabel(rest[0])
    ensures ShortName(MainFor(name, rest)) == ShortForm(name)
    ensures IsRequest(Request(name, MainFor(name, rest), true, front))
    ensures MainFor(name, rest)[0] == 0xe5 <==> name[0] == 0xe5
  {
    hide ShortForm;
    ShortFormShape(name);
    assert MainFor(name, rest)[11] == rest[0];
  }

  /** Dot files apart, or if the base is used as it is, the short name that is given can be made new. */
  ghost predicate HasOwnName(name: seq<byte>, r: Found)
    requires r.Room?
  {
    name == [] || name[0] != DOT || ShortName(r.main) == ShortForm(name)
  }

  /**
   The short name of a new file is new. When a search for its name has found nothing, no file of
   the directory bears the alias that the creation gives, not even if the base is numbered; the
   exception are dot files that need a number.
   */
  lemma AliasIsNewAfterSearch(before: Volume, name: seq<byte>, rest: seq<byte>, front: byte, r: Found, after: Volume,
                              cluster: nat)
    requires |rest| == 21 && IsElement(name) && Acceptable(name) && !IsLabel(rest[0])
    requires SearchListing(List(before.slots, 0, IDLE, FindAll), name, FindAll) == NoMore
    requires Creates(before, Request(name, MainFor(name, rest), true, front), r, after, cluster) && r.Room?
    requires HasOwnName(name, r)
    ensures NewAmongFiles(before.slots, r.main)
  {
    hide List, FirstHit, Expanded, EndOf, ShortForm, NameIsNew, MainFor, SameName, IsNumbered;
    var q := Request(name, MainFor(name, rest), true, front);
    MainForShape(name, rest, front);
    ShortFormShape(name);
    LongIsDemanded(before, q, r, after, cluster);
    if r.long.Some? && GivesNew(q.main, r.main, DemandFor(q).taken) {
      CreationGivesNewAlias(before, q, r, after, cluster);
      NewIsNewAmongFiles(before.slots, r.main);
    } else {
      SameIsSame(name);
      MissedIsNew(before.slots, name, r.main);
    }
  }

  /** What is stored is what the name demands: a long name, or the entry as it is. */
  lemma LongIsDemanded(before: Volume, q: Request, r: Found, after: Volume, cluster: nat)
    requires Creates(before, q, r, after, cluster) && r.Room?
    ensures r.long == DemandFor(q).long && (r.long.None? ==> r.main == q.main)
  {
    hide Complaint, EntrySlots, Patched, AliasGiven, FirstFit;
  }

  lemma SameIsSame(name: seq<byte>)
    ensures SameName(name, name)
  {
  }

  lemma NewIsNewAmongFiles(slots: seq<Slot>, main: Slot)
    requires NameIsNew(slots, NO_SPECIAL, main)
    ensures NewAmongFiles(slots, main)
  {
  }

  // ---------- The call ----------

  datatype Opened = Exists(entry: Entry) | Damaged | Refused | Made(r: Found)

  /**
   Opening with the permission to create. A file that is found is not touched; otherwise a name
   that is not acceptable is refused, and every other one is created.
   */
  method OpenOrCreate(fd: DosDir, name: seq<byte>, rest: seq<byte>, front: byte) returns (r: Opened)
    requires fd.Valid() && IsCString(name) && BACKSLASH !in name && |rest| == 21 && !IsLabel(rest[0])
    modifies fd
    ensures var found := SearchListing(old(List(fd.slots, 0, IDLE, FindAll)), name, FindAll);
            if name != [] && found.Found? then r == Exists(found.entry) && VolumeOf(fd) == old(VolumeOf(fd))
            else if name != [] && found.Broken? then r == Damaged && VolumeOf(fd) == old(VolumeOf(fd))
            else if !Acceptable(name) then r == Refused && VolumeOf(fd) == old(VolumeOf(fd))
            else
              && r.Made?
              && Creates(old(VolumeOf(fd)), Request(name, MainFor(name, rest), true, front), r.r, VolumeOf(fd),
                         fd.slotsPerCluster)
  {
    hide List, FirstHit, Creates, ShortForm, Acceptable, MainFor;
    fd.Seek(0);
    var found := DirSearch(fd, name, FindAll);
    if found.Found? {
      return Exists(found.entry);
    }
    if found.Broken? {
      return Damaged;
    }
    var short := Conv83(name);
    var ok := TstName(name);
    if !ok {
      return Refused;
    }
    assert IsElement(name) by { AcceptableIsElement(name); }
    MainForShape(name, rest, front);
    WholeElement(name);
    var main: Slot := short + rest;
    assert main == MainFor(name, rest) by { MainForIs(name, rest); }
    var f := Create(fd, Request(name, main, true, front));
    return Made(f);
  }

  lemma AcceptableIsElement(name: seq<byte>)
    requires Acceptable(name) && IsCString(name) && BACKSLASH !in name
    ensures IsElement(name)
  {
  }

  lemma MainForIs(name: seq<byte>, rest: seq<byte>)
    requires |rest| == 21
    ensures MainFor(name, rest) == ShortForm(name) + rest
  {
  }

  /** Every character of the name survives being stored, or the name needs no long name. */
  ghost predicate Survives(name: seq<byte>, r: Found)
    requires r.Room?
  {
    r.long.None? || forall i :: 0 <= i < |name| ==> 0x20 <= name[i] && name[i] != 173
  }

  /**
   The whole story of a new file. A name that was not found, that is acceptable and does not begin
   with the mark of deleted slots either cannot be stored for one of the reasons of the search, or
   gets an entry. Then the directory stays well formed, lists every old entry unchanged and in
   order with exactly the new one added, and a search for the name finds that entry, provided that
   its characters survive. Its short name is new unless it is a dot file with a number.
   */
  lemma NewFileIsFound(before: Volume, name: seq<byte>, rest: seq<byte>, front: byte, r: Found, after: Volume,
                       cluster: nat)
    requires |rest| == 21 && IsElement(name) && Acceptable(name) && !IsLabel(rest[0])
    requires WellFormed(before.slots, 0) && name[0] != 0xe5
    requires SearchListing(List(before.slots, 0, IDLE, FindAll), name, FindAll) == NoMore
    requires Creates(before, Request(name, MainFor(name, rest), true, front), r, after, cluster) && r.Room?
    ensures WellFormed(after.slots, 0) && (HasOwnName(name, r) ==> NewAmongFiles(before.slots, r.main))
    ensures var e, was := NewEntry(r.first, r.long, r.main), List(before.slots, 0, IDLE, FindAll);
            && List(after.slots, 0, IDLE, FindAll) == Listing(Inserted(was.entries, e), was.broken)
            && (Survives(name, r) ==> SearchListing(List(after.slots, 0, IDLE, FindAll), name, FindAll) == Found(e))
  {
    hide List, FirstHit, Inserted, Hits, Creates, WellFormed, NewAmongFiles, MainFor, Acceptable;
    var q := Request(name, MainFor(name, rest), true, front);
    if HasOwnName(name, r) {
      AliasIsNewAfterSearch(before, name, rest, front, r, after, cluster);
    }
    MainForShape(name, rest, front);
    CreationKeepsListing(before, q, r, after, cluster);
    RoomLeaves(before, q, r, after, cluster);
    if Survives(name, r) {
      NewEntryHits(before, q, r, after, cluster);
      AddedIsFound(List(before.slots, 0, IDLE, FindAll).entries, NewEntry(r.first, r.long, r.main), name, FindAll);
    }
  }

  /** The new entry answers to the name that it was made for. */
  lemma NewEntryHits(before: Volume, q: Request, r: Found, after: Volume, cluster: nat)
    requires Creates(before, q, r, after, cluster) && r.Room? && Survives(q.name, r) && q.longNames
    ensures Hits(NewEntry(r.first, r.long, r.main), q.name, FindAll)
  {
    hide Complaint, EntrySlots, Patched, Expanded, Recode;
    SameIsSame(q.name);
    if r.long.Some? {
      forall i | 0 <= i < |q.name| ensures Recode(q.name[i]) == q.name[i] { RecodeExact(q.name[i]); }
      assert RecodeAll(q.name) == q.name;
    }
  }

  // ---------- Under which name a new entry is listed ----------

  /** On a volume with long names, one is stored exactly if the short name does not spell the name letter by letter. */
  lemma LongIsStoredExactly(before: Volume, q: Request, r: Found, after: Volume, cluster: nat)
    requires Creates(before, q, r, after, cluster) && r.Room?
    ensures if !q.longNames || Expanded(q.main[..11]) == q.name then r.long == None && r.main == q.main
            else r.long == Some(q.name)
  {
    hide Complaint, EntrySlots, Patched, AliasGiven, FirstFit, Expanded, SameName;
  }

  /**
   The number of the short name that goes with a long name. It is left out exactly if the short
   name spells the long one but for case and no entry occupies it; otherwise it is the first
   from 1 on that no entry occupies.
   */
  lemma NumberIsFirstFree(before: Volume, q: Request, r: Found, after: Volume, cluster: nat) returns (k: nat)
    requires Creates(before, q, r, after, cluster) && r.Room? && r.long.Some?
    ensures var base := q.main[..11];
            && k < 1600 && r.main == (if k == 0 then q.main else AliasName(base, k) + q.main[11..])
            && !Occupies(before.slots, base, Number(k))
            && (forall j: nat :: 0 < j < k ==> Occupies(before.slots, base, Number(j)))
            && (k == 0 <==> DifferInCase(Expanded(base), q.name) && !Occupies(before.slots, base, Number(0)))
  {
    hide Complaint, EntrySlots, Patched, FirstFit, Expanded, SameName, Used, OtherNames, EndOf, MarkOf, Occupies;
    hide DifferInCase, AliasName;
    var base, ds := q.main[..11], OtherNames(before.slots, EndOf(before.slots, 0), NO_SPECIAL);
    var taken := DemandFor(q).taken;
    k :| IsPick(base, taken, ds, k) && Renumbered(q.main, r.main, k);
    SameNameExactly(Expanded(base), q.name);
    forall j: nat
      ensures Used(base, taken, ds, j) <==> (j == 0 && taken) || Occupies(before.slots, base, Number(j))
    {
      UsedIsOccupied(before.slots, base, taken, j);
    }
  }

  /**
   A new entry is listed under exactly the name that it was made for, case included: as its long
   name, or without one as what its short name spells, and the latter only if it does.
   */
  lemma NameReadsBack(before: Volume, q: Request, r: Found, after: Volume, cluster: nat)
    requires WellFormed(before.slots, 0) && IsRequest(q) && q.main[0] != 0xe5 && q.longNames
    requires Creates(before, q, r, after, cluster) && r.Room?
    requires forall i :: 0 <= i < |q.name| ==> 0x20 <= q.name[i] && q.name[i] != 173
    ensures r.at < |after.slots|
    ensures exists e :: e in List(after.slots, 0, IDLE, FindAll).entries && e.index == r.at && e.main == r.main
                        && if Expanded(q.main[..11]) == q.name then e.long == None && e.main == q.main
                           else e.long == Some(q.name)
  {
    hide List, Inserted, Creates, WellFormed, Expanded, Recode;
    CreationKeepsListing(before, q, r, after, cluster);
    LongIsStoredExactly(before, q, r, after, cluster);
    forall i | 0 <= i < |q.name| ensures Recode(q.name[i]) == q.name[i] { RecodeExact(q.name[i]); }
    assert RecodeAll(q.name) == q.name;
    InsertedIsThere(List(before.slots, 0, IDLE, FindAll).entries, NewEntry(r.first, r.long, r.main));
  }

  // ---------- The first file of a directory ----------

  /** In an empty directory that can grow, every acceptable name can be stored; a dot file needs a byte in front. */
  lemma FirstFileFits(spare: nat, name: seq<byte>, rest: seq<byte>, front: byte)
    requires |rest| == 21 && IsElement(name) && Acceptable(name) && (name[0] != DOT || front != BLANK) && spare > 0
    ensures var q := Request(name, MainFor(name, rest), true, front);
            Complaint([], spare, DemandFor(q), NO_SPECIAL, ShortName(q.main), front) == None
    ensures SearchListing(List([], 0, IDLE, FindAll), name, FindAll) == NoMore && WellFormed([], 0)
  {
    hide ShortForm, Expanded, SameName;
    var base := ShortForm(name);
    var taken := DemandFor(Request(name, MainFor(name, rest), true, front)).taken;
    ShortFormShape(name);
    assert ShortName(MainFor(name, rest)) == base;
    assert OtherNames([], EndOf([], 0), NO_SPECIAL) == [];
    assert !Used(base, taken, [], 1);
    BlankHasNoPlace(base, taken, [], front);
  }
}
