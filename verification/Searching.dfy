/**
 Two consequences of the scan: a reported long name is always made of the pieces that
 belong to its entry, and a search by name finds the first entry that matches.
 */
module Searching {
  import opened Basics
  import opened CodePage
  import opened Slots
  import opened LongNames
  import opened Reading
  import opened Creation
  import opened Names
  import opened FreeSlots
  import opened Directory

  // ---------- A reported name belongs to its entry ----------

  /** The number of pieces in `[i, j)`. */
  function PiecesIn(slots: seq<Slot>, i: nat, j: nat): (n: nat)
    requires i <= j <= |slots|
  {
    if i == j then 0 else PiecesIn(slots, i, j - 1) + if IsPiece(slots[j - 1]) then 1 else 0
  }

  /** The texts of the pieces in `[i, j)`, the last one first. */
  function Gathered(slots: seq<Slot>, i: nat, j: nat): (text: seq<byte>)
    requires i <= j <= |slots|
  {
    if i == j then []
    else (if IsPiece(slots[j - 1]) then PieceText(slots[j - 1]) else []) + Gathered(slots, i, j - 1)
  }

  /** Piece `k` of the run that begins at `start` has the checksum `sum` and the next number down. */
  ghost predicate Belongs(slots: seq<Slot>, start: nat, k: nat, sum: byte)
    requires start <= k < |slots|
  {
    IsPiece(slots[k]) ==>
      && PieceChecksum(slots[k]) == sum
      && PieceNumber(slots[k]) == PieceNumber(slots[start]) - PiecesIn(slots, start, k)
      && (IsLastPiece(slots[k]) <==> k == start)
  }

  /** All pieces in `[start, j)` form one run with the checksum `sum` and the given text. */
  ghost predicate IsRunOf(slots: seq<Slot>, start: nat, j: nat, sum: byte, text: seq<byte>)
    requires j <= |slots|
  {
    && start < j && IsPiece(slots[start]) && IsLastPiece(slots[start])
    && (forall k :: start <= k < j ==> Belongs(slots, start, k, sum))
    && text == Gathered(slots, start, j)
  }

  /** What is pending at `j` is a run, counted down as far as it has been read. */
  ghost predicate Justified(slots: seq<Slot>, i: nat, j: nat, st: Pending)
    requires j <= |slots|
  {
    st.count >= 0 ==>
      && i <= st.start < j && IsRunOf(slots, st.start, j, st.sum, st.text)
      && st.count == PieceNumber(slots[st.start]) - PiecesIn(slots, st.start, j)
  }

  lemma StepStaysJustified(slots: seq<Slot>, i: nat, j: nat, st: Pending, mode: Mode)
    requires i <= j < |slots| && Justified(slots, i, j, st) && StepSlot(slots[j], j, st, mode).Skip?
    ensures Justified(slots, i, j + 1, StepSlot(slots[j], j, st, mode).st)
  {
    hide PieceText, Checksum, Wanted;
    var s := slots[j];
    var st' := StepSlot(s, j, st, mode).st;
    if st'.count >= 0 {
      if IsPiece(s) && IsLastPiece(s) {
        assert PiecesIn(slots, j, j) == 0 && Gathered(slots, j, j) == [];
        assert Belongs(slots, j, j, st'.sum);
        assert Gathered(slots, j, j + 1) == PieceText(s) + [];
      } else {
        assert st.count >= 0 && st'.start == st.start && st'.sum == st.sum;
        assert Belongs(slots, st.start, j, st.sum);
        if !IsPiece(s) {
          assert Gathered(slots, st.start, j + 1) == [] + Gathered(slots, st.start, j);
        }
      }
    }
  }

  lemma {:induction false} ScanIsSound(slots: seq<Slot>, i: nat, j: nat, st: Pending, mode: Mode)
    requires i <= j <= |slots| && Justified(slots, i, j, st)
    ensures var r := Scan(slots, j, st, mode);
            r.Found? && r.entry.long.Some? ==>
              && i <= r.entry.start < r.entry.index
              && IsRunOf(slots, r.entry.start, r.entry.index, Checksum(ShortName(r.entry.main)), r.entry.long.value)
    decreases |slots| - j
  {
    hide Checksum, Wanted, IsRunOf, StepPiece;
    if j < |slots| {
      var step := StepSlot(slots[j], j, st, mode);
      if step.Skip? {
        StepStaysJustified(slots, i, j, st, mode);
        ScanIsSound(slots, i, j + 1, step.st, mode);
      } else if step.Report? {
        assert IsMain(slots[j]) && step == StepMain(slots[j], j, st, mode);
      }
    }
  }

  /**
   Whatever a directory holds, a long name that is reported is the text of pieces in front of
   the entry that carry the checksum of its short name and are numbered down from the last
   piece without a gap. Nothing says that the run has reached piece 1.
   */
  lemma ReportedNameBelongs(slots: seq<Slot>, i: nat, mode: Mode)
    requires i <= |slots|
    ensures var r := Scan(slots, i, IDLE, mode);
            r.Found? && r.entry.long.Some? ==>
              && i <= r.entry.start < r.entry.index
              && IsRunOf(slots, r.entry.start, r.entry.index, Checksum(ShortName(r.entry.main)), r.entry.long.value)
  {
    ScanIsSound(slots, i, i, IDLE, mode);
  }

  // ---------- Searching by name ----------

  function LongText(e: Entry): (s: seq<byte>) { if e.long.Some? then e.long.value else [] }

  /** `*.EXT` matches an entry by its extension alone. */
  predicate MatchesExtension(short: seq<byte>, fname: seq<byte>, p: nat)
    requires p <= |short|
    decreases |short| - p
  {
    && p < |short| && 2 <= |fname|
    && ((short[p] == DOT && SameName(short[p + 1..], fname[2..])) || MatchesExtension(short, fname, p + 1))
  }

  predicate Hits(e: Entry, fname: seq<byte>, mode: Mode)
  {
    var short := Expanded(ShortName(e.main));
    || SameName(LongText(e), fname) || SameName(short, fname) || mode.FindLabel?
    || (2 <= |fname| && fname[0] == STAR && fname[1] == DOT && MatchesExtension(short, fname, 0))
  }

  lemma {:induction false} MatchesExactly(short: seq<byte>, fname: seq<byte>, p: nat)
    requires p <= |short| && 2 <= |fname|
    ensures MatchesExtension(short, fname, p) <==>
            exists k: nat :: p <= k < |short| && short[k] == 0x2e && DifferInCase(short[k + 1..], fname[2..])
    decreases |short| - p
  {
    hide SameName, DifferInCase;
    if p < |short| {
      MatchesExactly(short, fname, p + 1);
      SameNameExactly(short[p + 1..], fname[2..]);
    }
  }

  /**
   What a search finds: an entry whose long or short name differs from the sought one in case
   alone, and for `*.EXT` one whose short name has that behind a dot. A search for a label takes any.
   */
  lemma HitsExactly(e: Entry, fname: seq<byte>, mode: Mode)
    ensures var short := Expanded(ShortName(e.main));
            Hits(e, fname, mode) <==>
            || mode == FindLabel || DifferInCase(LongText(e), fname) || DifferInCase(short, fname)
            || (|fname| >= 2 && fname[..2] == [0x2a, 0x2e] && exists k: nat ::
                  k < |short| && short[k] == 0x2e && DifferInCase(short[k + 1..], fname[2..]))
  {
    hide SameName, DifferInCase, Expanded;
    var short := Expanded(ShortName(e.main));
    SameNameExactly(LongText(e), fname);
    SameNameExactly(short, fname);
    if |fname| >= 2 {
      MatchesExactly(short, fname, 0);
      assert fname[..2] == [0x2a, 0x2e] <==> fname[0] == 0x2a && fname[1] == 0x2e;
    }
  }

  /** `*.EXT` finds an entry without a long name by the bytes of its extension, whatever their case. */
  lemma ExtensionIsFound(e: Entry, ext: seq<byte>, mode: Mode, p: nat, x: nat)
    requires IsStored(ShortName(e.main), p, x) && e.long.None? && mode != FindLabel
    ensures Hits(e, [0x2a, 0x2e] + ext, mode) <==> x > 0 && DifferInCase(e.main[8..8 + x], ext)
  {
    hide Expanded, DifferInCase, Hits, Upper, CasePair;
    var n, fname := ShortName(e.main), [0x2a, 0x2e] + ext;
    var short := Expanded(n);
    HitsExactly(e, fname, mode);
    ExpandedIs(n, p, x);
    assert !DifferInCase([], fname) by { DifferInFirst([], fname); }
    assert !DifferInCase(short, fname) by { DifferInFirst(short, fname); }
    assert fname[2..] == ext && fname[..2] == [0x2a, 0x2e];
    assert forall k :: 0 <= k < |short| ==> (short[k] == 0x2e <==> x > 0 && k == p);
    if x > 0 {
      assert short[p] == 0x2e && short[p + 1..] == n[8..8 + x] == e.main[8..8 + x];
    }
  }

  lemma DifferInFirst(a: seq<byte>, b: seq<byte>)
    requires b != [] && b[0] == STAR && (a == [] || a[0] != STAR)
    ensures !DifferInCase(a, b)
  {
  }

  /** The first entry of a listing that matches. */
  function FirstHit(entries: seq<Entry>, fname: seq<byte>, mode: Mode): (r: Option<Entry>)
  {
    if entries == [] then None
    else if Hits(entries[0], fname, mode) then Some(entries[0])
    else FirstHit(entries[1..], fname, mode)
  }

  /** What a search should answer, in terms of the whole listing. */
  function SearchListing(l: Listing, fname: seq<byte>, mode: Mode): (r: Outcome)
  {
    match FirstHit(l.entries, fname, mode)
    case Some(e) => Found(e)
    case None => if l.broken then Broken else NoMore
  }

  /** One scan answers the search, or moves it on behind an entry that does not match. */
  lemma SearchStep(slots: seq<Slot>, i: nat, fname: seq<byte>, mode: Mode)
    requires i <= |slots|
    ensures var r := Scan(slots, i, IDLE, mode);
            SearchListing(List(slots, i, IDLE, mode), fname, mode) ==
            if !r.Found? || Hits(r.entry, fname, mode) then r
            else SearchListing(List(slots, r.entry.index + 1, IDLE, mode), fname, mode)
  {
    hide Hits, Scan, List;
    ListIsRepeatedScan(slots, i, IDLE, mode);
    var r := Scan(slots, i, IDLE, mode);
    if r.Found? {
      var rest := List(slots, r.entry.index + 1, IDLE, mode).entries;
      assert ([r.entry] + rest)[1..] == rest;
    }
  }

  /** The walk along a short name to a dot behind which the sought extension stands. */
  method HasExtension(short: seq<byte>, fname: seq<byte>) returns (found: bool)
    requires 2 <= |fname|
    ensures found <==> MatchesExtension(short, fname, 0)
  {
    hide SameName;
    var s := 0;
    while s < |short|
      invariant s <= |short|
      invariant MatchesExtension(short, fname, 0) <==> MatchesExtension(short, fname, s)
    {
      if short[s] == DOT && SameName(short[s + 1..], fname[2..]) {
        return true;
      }
      s := s + 1;
    }
    return false;
  }

  /** The tests that an entry has to pass. */
  method IsHit(e: Entry, fname: seq<byte>, mode: Mode) returns (hit: bool)
    ensures hit <==> Hits(e, fname, mode)
  {
    hide SameName, Expanded, MatchesExtension;
    var short := Expanded(ShortName(e.main));
    hit := SameName(LongText(e), fname) || SameName(short, fname) || mode == FindLabel;
    if !hit && 2 <= |fname| && fname[0] == STAR && fname[1] == DOT {
      hit := HasExtension(short, fname);
    }
  }

  /** The search stops at the first match; an empty name matches nothing. */
  method DirSearch(fd: DosDir, fname: seq<byte>, mode: Mode) returns (r: Outcome)
    requires fd.pos <= |fd.slots|
    modifies fd`pos
    ensures fname == [] ==> r == NoMore
    ensures fname != [] ==> r == SearchListing(List(fd.slots, old(fd.pos), IDLE, mode), fname, mode)
    ensures r.Found? ==> fd.pos == r.entry.index + 1
  {
    hide Hits, Scan, List;
    if fname == [] {
      return NoMore;
    }
    while true
      invariant fd.pos <= |fd.slots|
      invariant SearchListing(List(fd.slots, old(fd.pos), IDLE, mode), fname, mode)
             == SearchListing(List(fd.slots, fd.pos, IDLE, mode), fname, mode)
      decreases |fd.slots| - fd.pos
    {
      SearchStep(fd.slots, fd.pos, fname, mode);
      r := ReadEntry(fd, mode);
      if !r.Found? {
        return;
      }
      var hit := IsHit(r.entry, fname, mode);
      if hit {
        return;
      }
    }
  }

  /** An entry added to a listing in which nothing matched is the one that is found. */
  lemma {:induction false} AddedIsFound(entries: seq<Entry>, e: Entry, fname: seq<byte>, mode: Mode)
    requires FirstHit(entries, fname, mode) == None && Hits(e, fname, mode)
    ensures FirstHit(Inserted(entries, e), fname, mode) == Some(e)
    decreases |entries|
  {
    hide Hits;
    if entries != [] && e.index >= entries[0].index {
      AddedIsFound(entries[1..], e, fname, mode);
    }
  }

  /**
   Create, then search: a name that was not found before is found afterwards, at the entry
   that was created for it, provided that its characters survive being stored.
   */
  lemma CreatedIsFound(slots: seq<Slot>, grown: seq<Slot>, first: nat, name: seq<byte>, main: Slot)
    requires WellFormed(slots, 0) && Creatable(Some(name), main) && Grown(slots, grown)
    requires first + |EntrySlots(Some(name), main)| <= |grown|
    requires VacantRun(slots, first, |EntrySlots(Some(name), main)|, NO_SPECIAL)
    requires forall i :: 0 <= i < |name| ==> 0x20 <= name[i] && name[i] != 173
    requires SearchListing(List(slots, 0, IDLE, FindAll), name, FindAll) == NoMore
    ensures var after := Patched(grown, first, EntrySlots(Some(name), main));
            SearchListing(List(after, 0, IDLE, FindAll), name, FindAll)
            == Found(Entry(first + PieceCount(name), main, Some(name), first))
  {
    hide List, WellFormed, EntrySlots, VacantRun, Patched, Inserted, Recode, FirstHit, Expanded;
    CreationPreservesListing(slots, grown, first, Some(name), main);
    forall i | 0 <= i < |name| ensures Recode(name[i]) == name[i] { RecodeExact(name[i]); }
    assert RecodeAll(name) == name;
    AddedIsFound(List(slots, 0, IDLE, FindAll).entries, NewEntry(first, Some(name), main), name, FindAll);
  }
}
