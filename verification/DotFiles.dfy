/**
 Dot files on a volume with long names: their base is blank, so that the tilde and the number
 stand at the front of their short names, where the search for a free number does not look.
 */
module DotFiles {
  import opened Basics
  import opened Slots
  import opened LongNames
  import opened Reading
  import opened Creation
  import opened Alias
  import opened Names
  import opened FreeSlots
  import opened Directory
  import opened Searching
  import opened Opening

  /** A dot file of more than three characters, which cannot do without a long name and a number. */
  ghost predicate NeedsNumber(name: seq<byte>)
  {
    IsElement(name) && Acceptable(name) && name[0] == DOT && |name| > 4
  }

  /**
   When a dot file can be created: where there is room, a free number and no wild entry, the only
   obstacle is a blank in front of the name in memory.
   */
  lemma DotFileFitsExactly(slots: seq<Slot>, spare: nat, name: seq<byte>, rest: seq<byte>, front: byte)
    requires |rest| == 21 && NeedsNumber(name)
    ensures var q := Request(name, MainFor(name, rest), true, front);
            var base := ShortForm(name);
            var ds := OtherNames(slots, EndOf(slots, 0), NO_SPECIAL);
            && DemandFor(q).taken
            && (HasRoom(slots, spare, DemandFor(q).count, NO_SPECIAL) && !Exhausted(base, true, ds)
                && !RunsWild(base, ds) ==>
                  Complaint(slots, spare, DemandFor(q), NO_SPECIAL, base, front)
                  == if front == BLANK then Some(WildAccess) else None)
  {
    hide ShortForm, Expanded, SameName, HasRoom, Exhausted, OtherNames, EndOf, RunsWild, NoPlaceForNumber, MarkOf, Used;
    var base := ShortForm(name);
    var ds := OtherNames(slots, EndOf(slots, 0), NO_SPECIAL);
    DotFileHasNoBase(name);
    assert ShortName(MainFor(name, rest)) == base;
    if Expanded(base) == name {
      SameIsSame(name);
    }
    if !RunsWild(base, ds) {
      BlankHasNoPlace(base, true, ds, front);
      TakenIsUsed(base, ds);
    }
  }

  lemma TakenIsUsed(base: Name, ds: seq<Name>)
    ensures Used(base, true, ds, 0)
  {
  }

  // ---------- Which numbers a written entry occupies ----------

  /** The slots of a written entry: none is an end mark, and only the last one can be counted. */
  lemma EntrySlotsAreLive(long: Option<seq<byte>>, main: Slot, j: nat)
    requires Storable(long, main) && j < |EntrySlots(long, main)|
    ensures !IsEnd(EntrySlots(long, main)[j])
    ensures j < |EntrySlots(long, main)| - 1 ==> IsPiece(EntrySlots(long, main)[j])
    ensures EntrySlots(long, main)[|EntrySlots(long, main)| - 1] == main
  {
    hide Checksum, StoredPiece, PieceText, Chain, PieceNumber, PieceChecksum, IsLastPiece, RecodeAll, IsLabel;
    if long.Some? {
      var name, n, sum := long.value, PieceCount(long.value), Checksum(ShortName(main));
      var all := EntrySlots(long, main);
      assert all == Chain(name, sum, n) + [main];
      if j < n {
        ChainAt(name, sum, n, j);
        StoredPieceReads(name, sum, n - j);
        assert all[j] == StoredPiece(name, sum, n - j);
      }
    }
  }

  /** Writing an entry whose short name leaves no mark keeps all marks as they are. */
  lemma OccupiedStays(slots: seq<Slot>, z: nat, after: seq<Slot>, first: nat, long: Option<seq<byte>>, main: Slot,
                      base: Name, mark: Mark)
    requires mark != Nothing && WellFormed(slots, 0) && Storable(long, main) && MarkOf(base, ShortName(main)) == Nothing
    requires VacantRun(slots, first, |EntrySlots(long, main)|, NO_SPECIAL)
    requires Filled(slots + Zeros(z), after, first, EntrySlots(long, main))
    ensures Occupies(after, base, mark) <==> Occupies(slots, base, mark)
  {
    hide MarkOf, EndOf, WellFormed, EntrySlots;
    var patch, e := EntrySlots(long, main), EndOf(slots, 0);
    WellFormedEnds(slots, 0);
    forall j | first <= j < first + |patch|
      ensures after[j] == patch[j - first] && !IsEnd(after[j]) && !OccupiesAt(after, base, mark, j)
    {
      assert after[j] == after[first..first + |patch|][j - first];
      EntrySlotsAreLive(long, main, j - first);
    }
    if i :| 0 <= i < e && OccupiesAt(slots, base, mark, i) {
      assert !(first <= i < first + |patch|) by {
        assert first <= i < first + |patch| ==> Vacant(slots, i, NO_SPECIAL);
      }
      EndOfIsPast(after, i + 1);
      assert OccupiesAt(after, base, mark, i);
    }
    if i :| 0 <= i < EndOf(after, 0) && OccupiesAt(after, base, mark, i) {
      assert i < e;
      assert OccupiesAt(slots, base, mark, i);
    }
  }

  // ---------- Two dot files share a short name ----------

  /** The alias and its number, as a creation gives them. */
  lemma NumberGiven(before: Volume, q: Request, r: Found, after: Volume, cluster: nat) returns (k: nat, z: nat)
    requires Creates(before, q, r, after, cluster) && r.Room? && r.long.Some?
    ensures var ds := OtherNames(before.slots, EndOf(before.slots, 0), NO_SPECIAL);
            IsPick(ShortName(q.main), DemandFor(q).taken, ds, k)
    ensures k < NUMBERS && ShortName(r.main) == AliasName(ShortName(q.main), k)
    ensures Storable(r.long, r.main) && VacantRun(before.slots, r.first, |EntrySlots(r.long, r.main)|, NO_SPECIAL)
    ensures Filled(before.slots + Zeros(z), after.slots, r.first, EntrySlots(r.long, r.main))
    ensures r.at < |after.slots| && after.slots[r.at] == r.main
  {
    hide EndOf, OtherNames, Complaint, EntrySlots, Patched, AliasName, VacantRun, Filled, Expanded, SameName;
    var grown :| GrewOnce(before, grown, cluster) && Writes(before, grown, q, r, after);
    var ds := OtherNames(before.slots, EndOf(before.slots, 0), NO_SPECIAL);
    k :| IsPick(ShortName(q.main), DemandFor(q).taken, ds, k) && Renumbered(q.main, r.main, k);
    PickIsSmall(ShortName(q.main), DemandFor(q).taken, ds, k);
    assert ShortName(r.main) == AliasName(ShortName(q.main), k) by { ShortOfRenumbered(q.main, r.main, k); }
    GrewOnceIsGrown(before, grown, cluster);
    z :| grown.slots == before.slots + Zeros(z);
    EntryEndsWithMain(r.long, r.main);
    PatchedIsFilled(grown.slots, r.first, EntrySlots(r.long, r.main));
    MainIsLast(grown.slots, after.slots, r.first, EntrySlots(r.long, r.main));
    FilledFits(grown.slots, after.slots, r.first, EntrySlots(r.long, r.main));
  }

  lemma ShortOfRenumbered(before: Slot, after: Slot, k: nat)
    requires Renumbered(before, after, k) && k < NUMBERS
    ensures ShortName(after) == AliasName(ShortName(before), k)
  {
  }

  /** The creation of a dot file changes none of the marks that the next one with its base meets. */
  lemma MarksStay(before: Volume, mid: Volume, p: Request, r: Found, cluster: nat, k: nat)
    requires WellFormed(before.slots, 0) && IsBlank(ShortName(p.main)) && DemandFor(p).taken
    requires Creates(before, p, r, mid, cluster) && r.Room?
    ensures var base := ShortName(p.main);
            var ds := OtherNames(before.slots, EndOf(before.slots, 0), NO_SPECIAL);
            var es := OtherNames(mid.slots, EndOf(mid.slots, 0), NO_SPECIAL);
            && (Used(base, true, ds, k) <==> Used(base, true, es, k))
            && (RunsWild(base, ds) <==> RunsWild(base, es))
  {
    hide WellFormed, MarkOf, EndOf, OtherNames, Used, RunsWild, Occupies, AliasName, VacantRun, Filled, Creates;
    hide EntrySlots, DemandFor;
    var base := ShortName(p.main);
    LongIsDemanded(before, p, r, mid, cluster);
    TakenIsLong(p);
    var j, z := NumberGiven(before, p, r, mid, cluster);
    TakenIsUsed(base, OtherNames(before.slots, EndOf(before.slots, 0), NO_SPECIAL));
    BlankMissesItsAlias(base, j);
    UsedIsOccupied(before.slots, base, true, k);
    UsedIsOccupied(mid.slots, base, true, k);
    OccupiedStays(before.slots, z, mid.slots, r.first, r.long, r.main, base, Number(k));
    OccupiedStays(before.slots, z, mid.slots, r.first, r.long, r.main, base, Wild);
  }

  /**
   Two dot files with the same extension that are created one after the other get the same short
   name, whatever the well-formed directory holds: the first one's alias occupies no number, so
   that the second one is given it again although the first one's main entry bears it.
   */
  lemma DotFilesShareAlias(before: Volume, mid: Volume, after: Volume, p: Request, q: Request, r: Found, s: Found,
                           cluster: nat)
    requires WellFormed(before.slots, 0) && IsBlank(ShortName(p.main)) && ShortName(p.main) == ShortName(q.main)
    requires DemandFor(p).taken && DemandFor(q).taken
    requires Creates(before, p, r, mid, cluster) && Creates(mid, q, s, after, cluster) && r.Room? && s.Room?
    ensures r.at < |mid.slots| && ShortName(s.main) == ShortName(mid.slots[r.at]) == ShortName(r.main)
  {
    hide WellFormed, MarkOf, EndOf, OtherNames, Used, AliasName, VacantRun, Filled, Creates, EntrySlots, DemandFor;
    LongIsDemanded(before, p, r, mid, cluster);
    LongIsDemanded(mid, q, s, after, cluster);
    TakenIsLong(p);
    TakenIsLong(q);
    var j, _ := NumberGiven(before, p, r, mid, cluster);
    var k, _ := NumberGiven(mid, q, s, after, cluster);
    MarksStay(before, mid, p, r, cluster, j);
    MarksStay(before, mid, p, r, cluster, k);
    assert j == k;
  }

  lemma TakenIsLong(q: Request)
    requires DemandFor(q).taken
    ensures DemandFor(q).long.Some?
  {
  }

  const PROFILE: seq<byte> := [0x2e, 0x70, 0x72, 0x6f, 0x66, 0x69, 0x6c, 0x65]
  const PROFANITY: seq<byte> := [0x2e, 0x70, 0x72, 0x6f, 0x66, 0x61, 0x6e, 0x69, 0x74, 0x79]

  /** `.profile` and `.profanity` are two such files. */
  lemma ProfileAndProfanity(rest: seq<byte>, front: byte)
    requires |rest| == 21
    ensures var p, q := Request(PROFILE, MainFor(PROFILE, rest), true, front),
                        Request(PROFANITY, MainFor(PROFANITY, rest), true, front);
            && DemandFor(p).taken && DemandFor(q).taken
            && IsBlank(ShortName(p.main)) && ShortName(p.main) == ShortName(q.main)
  {
    hide ShortForm, NeedsNumber, UpperAll, Complaint, DemandFor;
    assert NeedsNumber(PROFILE) && NeedsNumber(PROFANITY) by { AreDotFiles(); }
    DotFileFitsExactly([], 0, PROFILE, rest, front);
    DotFileFitsExactly([], 0, PROFANITY, rest, front);
    DotFileForm(PROFILE);
    DotFileForm(PROFANITY);
    assert PROFILE[1..4] == [0x70, 0x72, 0x6f] == PROFANITY[1..4];
    assert ShortName(MainFor(PROFILE, rest)) == ShortForm(PROFILE);
    assert ShortName(MainFor(PROFANITY, rest)) == ShortForm(PROFANITY);
  }

  lemma AreDotFiles()
    ensures NeedsNumber(PROFILE) && NeedsNumber(PROFANITY)
  {
  }

  /** The stored form of a dot file without further dots and blanks: blanks and its first three characters. */
  lemma DotFileForm(name: seq<byte>)
    requires NeedsNumber(name) && forall i :: 1 <= i < |name| ==> name[i] != DOT && name[i] != BLANK
    ensures ShortForm(name) == Repeat(BLANK, 8) + UpperAll(name[1..4])
  {
    hide UpperAll, BaseChars;
    OnlyDot(name, 0);
    assert ExtLength(name, 1, 0) == 3;
    assert BaseLength(name, 0) == 0 && name[..0] == [];
    assert BaseChars([]) == [] && BaseForm(name) == Repeat(BLANK, 8);
    assert ExtForm(name) == UpperAll(name[1..4]) + Repeat(BLANK, 0) == UpperAll(name[1..4]);
  }

  // ---------- The two files in an empty directory ----------

  lemma SpareAfter(before: Volume, q: Request, r: Found, after: Volume, cluster: nat)
    requires Creates(before, q, r, after, cluster) && r.Room?
    ensures after.spare + 1 >= before.spare
  {
    hide Complaint, Answers, EntrySlots, Patched;
  }

  /** The short name of a dot file with a number begins with a tilde. */
  lemma AliasBeginsWithTilde(before: Volume, p: Request, r: Found, mid: Volume, cluster: nat)
    requires IsBlank(ShortName(p.main)) && DemandFor(p).taken && Creates(before, p, r, mid, cluster) && r.Room?
    ensures ShortName(r.main)[0] == TILDE
  {
    hide WellFormed, MarkOf, EndOf, OtherNames, Used, AliasName, VacantRun, Filled, Creates, EntrySlots, DemandFor;
    LongIsDemanded(before, p, r, mid, cluster);
    TakenIsLong(p);
    var j, _ := NumberGiven(before, p, r, mid, cluster);
    TakenIsUsed(ShortName(p.main), OtherNames(before.slots, EndOf(before.slots, 0), NO_SPECIAL));
    BlankMissesItsAlias(ShortName(p.main), j);
  }

  /** An entry answers to no name that begins with a dot and has another length than its long name. */
  lemma OtherDotFileIsMissed(e: Entry, fname: seq<byte>)
    requires e.long.Some? && |fname| != |e.long.value| && fname != [] && fname[0] == DOT
    requires ShortName(e.main)[0] == TILDE
    ensures !Hits(e, fname, FindAll)
  {
    hide ExtText;
    var short := Expanded(ShortName(e.main));
    assert short[0] == TILDE;
    assert UpperAll(short)[0] == TILDE && UpperAll(fname)[0] == DOT;
  }

  /** After `.profile` alone a search for `.profanity` finds nothing. */
  lemma ProfanityIsMissed(mid: seq<Slot>, e: Entry)
    requires List(mid, 0, IDLE, FindAll) == Listing(Inserted([], e), false)
    requires e.long.Some? && |e.long.value| == |PROFILE| && ShortName(e.main)[0] == TILDE
    ensures SearchListing(List(mid, 0, IDLE, FindAll), PROFANITY, FindAll) == NoMore
  {
    hide Hits, List;
    OtherDotFileIsMissed(e, PROFANITY);
    var entries := Inserted([], e);
    assert entries == [e] && entries[1..] == [];
    assert FirstHit(entries, PROFANITY, FindAll) == FirstHit([], PROFANITY, FindAll) == None;
  }

  /**
   The two files created in an empty directory, by the same calls as any other file: both are
   stored, and they bear the same short name.
   */
  method ProfileThenProfanity(fd: DosDir, rest: seq<byte>, front: byte) returns (a: Opened, b: Opened)
    requires fd.Valid() && fd.slots == [] && fd.clustersLeft >= 2
    requires |rest| == 21 && !IsLabel(rest[0]) && front != BLANK
    modifies fd
    ensures a.Made? && a.r.Room? && b.Made? && b.r.Room? && ShortName(a.r.main) == ShortName(b.r.main)
  {
    hide List, Creates, Complaint, WellFormed, NeedsNumber, Used, RunsWild, Exhausted, DemandFor, MainFor;
    hide SearchListing, OtherNames, EndOf, HasRoom, Inserted, IsBlank, NewAmongFiles, UpperAll;
    ghost var cluster, before := fd.slotsPerCluster, VolumeOf(fd);
    ghost var p := Request(PROFILE, MainFor(PROFILE, rest), true, front);
    ghost var q := Request(PROFANITY, MainFor(PROFANITY, rest), true, front);
    AreNew();
    ProfileAndProfanity(rest, front);
    FirstFileFits(fd.clustersLeft, PROFILE, rest, front);
    a := OpenOrCreate(fd, PROFILE, rest, front);
    ghost var mid := VolumeOf(fd);
    NoComplaintIsRoom(before, p, a.r, mid, cluster);
    NewFileIsFound(before, PROFILE, rest, front, a.r, mid, cluster);
    SecondFits(before, mid, rest, front, a.r, cluster);
    b := OpenOrCreate(fd, PROFANITY, rest, front);
    NoComplaintIsRoom(mid, q, b.r, VolumeOf(fd), cluster);
    DotFilesShareAlias(before, mid, VolumeOf(fd), p, q, a.r, b.r, cluster);
  }

  lemma AreNew()
    ensures IsElement(PROFILE) && Acceptable(PROFILE) && IsElement(PROFANITY) && Acceptable(PROFANITY)
  {
  }

  lemma NoComplaintIsRoom(before: Volume, q: Request, r: Found, after: Volume, cluster: nat)
    requires Creates(before, q, r, after, cluster)
    requires Complaint(before.slots, before.spare, DemandFor(q), NO_SPECIAL, ShortName(q.main), q.front) == None
    ensures r.Room?
  {
    hide Complaint;
  }

  /** Once `.profile` is there, nothing stands in the way of `.profanity`. */
  lemma SecondFits(before: Volume, mid: Volume, rest: seq<byte>, front: byte, r: Found, cluster: nat)
    requires before.slots == [] && before.spare >= 2 && |rest| == 21 && !IsLabel(rest[0]) && front != BLANK
    requires Creates(before, Request(PROFILE, MainFor(PROFILE, rest), true, front), r, mid, cluster) && r.Room?
    requires var e, was := NewEntry(r.first, r.long, r.main), List(before.slots, 0, IDLE, FindAll);
             List(mid.slots, 0, IDLE, FindAll) == Listing(Inserted(was.entries, e), was.broken)
    ensures SearchListing(List(mid.slots, 0, IDLE, FindAll), PROFANITY, FindAll) == NoMore
    ensures var q := Request(PROFANITY, MainFor(PROFANITY, rest), true, front);
            Complaint(mid.slots, mid.spare, DemandFor(q), NO_SPECIAL, ShortName(q.main), front) == None
  {
    hide Creates, Complaint, WellFormed, NeedsNumber, DemandFor, Inserted, UpperAll, SearchListing, ShortForm;
    hide RecodeAll, IsBlank, MarkOf;
    var p := Request(PROFILE, MainFor(PROFILE, rest), true, front);
    assert NeedsNumber(PROFILE) && NeedsNumber(PROFANITY) by { AreDotFiles(); }
    ProfileAndProfanity(rest, front);
    EmptyIsWellFormed(before.slots);
    LongIsDemanded(before, p, r, mid, cluster);
    TakenIsLong(p);
    DemandedName(p);
    AliasBeginsWithTilde(before, p, r, mid, cluster);
    ProfanityIsMissed(mid.slots, NewEntry(r.first, r.long, r.main));
    SpareAfter(before, p, r, mid, cluster);
    MarksStay(before, mid, p, r, cluster, 1);
    DotFileFitsExactly(mid.slots, mid.spare, PROFANITY, rest, front);
  }

  lemma EmptyIsWellFormed(slots: seq<Slot>)
    requires slots == []
    ensures WellFormed(slots, 0) && List(slots, 0, IDLE, FindAll) == Listing([], false)
    ensures OtherNames(slots, EndOf(slots, 0), NO_SPECIAL) == []
  {
  }

  lemma DemandedName(q: Request)
    requires DemandFor(q).long.Some?
    ensures DemandFor(q).long.value == q.name
  {
  }
}
