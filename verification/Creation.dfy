/**
 What creating an entry does to the rest of a directory: the long name reads back,
 every old entry is listed as before, and exactly the new one is added.
 */
module Creation {
  import opened Basics
  import opened CodePage
  import opened Slots
  import opened LongNames
  import opened Reading

  // ---------- A stored name reads back ----------

  function RecodeAll(text: seq<byte>): (r: seq<byte>)
    ensures |r| == |text| && forall i :: 0 <= i < |text| ==> r[i] == Recode(text[i])
  {
    if text == [] then [] else [Recode(text[0])] + RecodeAll(text[1..])
  }

  /** Nothing but terminators and filler follows the end of the text. */
  ghost predicate EndsClean(us: seq<unit>)
  {
    forall i, j :: 0 <= i < j < |us| && EndsName(us[i]) ==> EndsName(us[j])
  }

  /** Decoding field by field is decoding at once, because the text ends cleanly. */
  lemma {:induction false} DecodeSplits(us: seq<unit>, k: nat)
    requires k <= |us| && EndsClean(us)
    ensures DecodeUnits(us[..k]) + DecodeUnits(us[k..]) == DecodeUnits(us)
  {
    hide DecodeUnit;
    if k == 0 {
      assert us[..0] == [] && us[0..] == us;
    } else if EndsName(us[0]) {
      assert k < |us| ==> EndsName(us[k..][0]);
    } else {
      assert forall i :: 0 <= i < |us[1..]| ==> us[1..][i] == us[i + 1];
      DecodeSplits(us[1..], k - 1);
      assert us[..k] == [us[0]] + us[1..][..k - 1];
      assert us[k..] == us[1..][k - 1..];
    }
  }

  lemma {:induction false} DecodeEncoded(text: seq<byte>, rest: seq<unit>)
    requires IsCString(text) && (rest == [] || EndsName(rest[0]))
    ensures DecodeUnits(Encode(text) + rest) == RecodeAll(text)
  {
    hide ToUnicode, DecodeUnit;
    if text == [] {
      assert Encode(text) + rest == rest;
    } else {
      EncodedKeepsGoing(text[0]);
      var us := Encode(text) + rest;
      assert us[0] == ToUnicode(text[0]) && !EndsName(us[0]);
      assert us[1..] == Encode(text[1..]) + rest;
      DecodeEncoded(text[1..], rest);
      assert DecodeUnits(us) == [DecodeUnit(us[0])] + DecodeUnits(us[1..]);
    }
  }

  lemma PieceUnitsEndClean(text: seq<byte>)
    requires |text| <= 13 && IsCString(text)
    ensures EndsClean(PieceUnits(text))
  {
    hide ToUnicode;
    forall i | 0 <= i < |text| ensures !EndsName(ToUnicode(text[i])) { EncodedKeepsGoing(text[i]); }
  }

  /** The fields of a stored piece, as the reading side sees them. */
  lemma StoredPieceReads(name: seq<byte>, sum: byte, k: nat)
    requires 1 <= k <= PieceCount(name) < 32 && IsCString(name)
    ensures var s := StoredPiece(name, sum, k);
            && IsPiece(s) && PieceNumber(s) == k && PieceChecksum(s) == sum
            && (IsLastPiece(s) <==> k == PieceCount(name))
            && PieceText(s) == RecodeAll(PieceOf(name, k))
  {
    hide DecodeUnits, RecodeAll, UnitsAt, MakePiece, Encode;
    var text := PieceOf(name, k);
    var us := PieceUnits(text);
    MakePieceFields(Head(k, PieceCount(name)), sum, us);
    PieceUnitsEndClean(text);
    DecodeSplits(us, 11);
    assert EndsClean(us[..11]);
    DecodeSplits(us[..11], 5);
    assert us[..11][..5] == us[..5] && us[..11][5..] == us[5..11];
    var rest: seq<unit> := if |text| < 13 then [0] + Fill(12 - |text|) else [];
    assert us == Encode(text) + rest;
    DecodeEncoded(text, rest);
  }

  // ---------- Following the scan without reports ----------

  /** The state after scanning `[i, j)` when every slot in between is skipped. */
  function Skips(slots: seq<Slot>, i: nat, j: nat, st: Pending, mode: Mode): (r: Option<Pending>)
    requires i <= j <= |slots|
    decreases j - i
  {
    if i == j then Some(st)
    else
      match StepSlot(slots[i], i, st, mode)
      case Skip(st') => Skips(slots, i + 1, j, st', mode)
      case _ => None
  }

  lemma {:induction false} SkipsCarry(slots: seq<Slot>, i: nat, j: nat, st: Pending, mode: Mode)
    requires i <= j <= |slots| && Skips(slots, i, j, st, mode).Some?
    ensures var st' := Skips(slots, i, j, st, mode).value;
            && List(slots, i, st, mode) == List(slots, j, st', mode)
            && Scan(slots, i, st, mode) == Scan(slots, j, st', mode)
    decreases j - i
  {
    hide StepSlot;
    if i < j {
      SkipsCarry(slots, i + 1, j, StepSlot(slots[i], i, st, mode).st, mode);
    }
  }

  /** The text that has accumulated once pieces `count` down to `k + 1` have been read. */
  function TextFrom(name: seq<byte>, k: nat): (t: seq<byte>)
    requires 13 * k <= |name| + 12
  {
    RecodeAll(name[Min(13 * k, |name|)..])
  }

  lemma TextGrows(name: seq<byte>, k: nat)
    requires 1 <= k <= PieceCount(name)
    ensures RecodeAll(PieceOf(name, k)) + TextFrom(name, k) == TextFrom(name, k - 1)
  {
    hide Recode;
    var from := Min(13 * k, |name|);
    assert name[13 * (k - 1)..] == PieceOf(name, k) + name[from..];
    RecodeConcat(PieceOf(name, k), name[from..]);
  }

  lemma RecodeConcat(a: seq<byte>, b: seq<byte>)
    ensures RecodeAll(a + b) == RecodeAll(a) + RecodeAll(b)
  {
  }

  /** Reading the stored pieces `k` down to `m + 1` assembles their part of the name. */
  lemma {:induction false} ChainReads(slots: seq<Slot>, g: nat, name: seq<byte>, sum: byte, k: nat, m: nat,
                                      st: Pending, mode: Mode)
    requires IsCString(name) && |name| <= MAX_TEXT && m < k <= PieceCount(name) < 32
    requires g + PieceCount(name) - m <= |slots|
    requires slots[g..g + PieceCount(name) - m] == Chain(name, sum, PieceCount(name))[..PieceCount(name) - m]
    requires k < PieceCount(name) ==> st == Pending(k, g, TextFrom(name, k), sum)
    ensures Skips(slots, g + PieceCount(name) - k, g + PieceCount(name) - m, st, mode)
         == Some(Pending(m, g, TextFrom(name, m), sum))
    decreases k
  {
    hide StoredPiece, PieceText, RecodeAll, Chain, StepSlot, TextFrom;
    var n := PieceCount(name);
    var i := g + n - k;
    ChainAt(name, sum, n, n - k);
    assert slots[i] == slots[g..g + n - m][n - k] == Chain(name, sum, n)[..n - m][n - k];
    PieceIsTaken(i, g, name, sum, k, st, mode);
    if k > m + 1 {
      ChainReads(slots, g, name, sum, k - 1, m, Pending(k - 1, g, TextFrom(name, k - 1), sum), mode);
    }
  }

  /** Reading stored piece `k` at index `i` moves the pending run on by one piece. */
  lemma PieceIsTaken(i: nat, g: nat, name: seq<byte>, sum: byte, k: nat, st: Pending, mode: Mode)
    requires IsCString(name) && |name| <= MAX_TEXT && 1 <= k <= PieceCount(name) < 32
    requires k < PieceCount(name) ==> st == Pending(k, g, TextFrom(name, k), sum)
    requires k == PieceCount(name) ==> i == g
    ensures StepSlot(StoredPiece(name, sum, k), i, st, mode) == Skip(Pending(k - 1, g, TextFrom(name, k - 1), sum))
  {
    hide StoredPiece, PieceText, RecodeAll;
    StoredPieceReads(name, sum, k);
    TextGrows(name, k);
    TextBounded(name, k - 1);
    TextEmpty(name);
  }

  lemma TextWhole(name: seq<byte>)
    ensures TextFrom(name, 0) == RecodeAll(name)
  {
    assert name[0..] == name;
  }

  lemma TextEmpty(name: seq<byte>)
    ensures TextFrom(name, PieceCount(name)) == []
  {
  }

  lemma TextBounded(name: seq<byte>, k: nat)
    requires 13 * k <= |name| + 12
    ensures |TextFrom(name, k)| <= |name|
  {
  }

  // ---------- The new entry ----------

  /** What a creation asks for: a long name that fits, and a main entry that is neither empty nor a label. */
  ghost predicate Storable(long: Option<seq<byte>>, main: Slot)
  {
    && main[0] != 0 && !IsLabel(main[11])
    && (long.Some? ==> IsCString(long.value) && 1 <= |long.value| <= MAX_TEXT)
  }

  /** A main entry is listed unless its first character is the mark of deleted slots. */
  ghost predicate Creatable(long: Option<seq<byte>>, main: Slot)
  {
    Storable(long, main) && main[0] != 0xe5
  }

  /** The entry that a creation at index `g` should add to the listing. */
  function NewEntry(g: nat, long: Option<seq<byte>>, main: Slot): (e: Entry)
  {
    match long
    case None => Entry(g, main, None, -1)
    case Some(name) => Entry(g + PieceCount(name), main, Some(RecodeAll(name)), g)
  }

  /** A stored entry is its chain and, behind it, its main slot. */
  lemma EntryParts(slots: seq<Slot>, g: nat, name: seq<byte>, main: Slot)
    requires PieceCount(name) < 32 && g + PieceCount(name) < |slots|
    requires slots[g..g + PieceCount(name) + 1] == EntrySlots(Some(name), main)
    ensures slots[g + PieceCount(name)] == main
    ensures var n := PieceCount(name);
            slots[g..g + n] == Chain(name, Checksum(ShortName(main)), n)[..n]
  {
    hide Checksum, Chain;
    var n := PieceCount(name);
    var chain, part := Chain(name, Checksum(ShortName(main)), n), slots[g..g + n + 1];
    assert part == chain + [main];
    assert part[n] == main && part[n] == slots[g + n];
    assert part[..n] == chain;
    assert part[..n] == slots[g..g + n];
  }

  /** Scanning from the first slot of a created entry reports exactly that entry. */
  lemma NewEntryIsFound(slots: seq<Slot>, g: nat, long: Option<seq<byte>>, main: Slot)
    requires Creatable(long, main)
    requires g + |EntrySlots(long, main)| <= |slots|
    requires slots[g..g + |EntrySlots(long, main)|] == EntrySlots(long, main)
    ensures Scan(slots, g, IDLE, FindAll) == Found(NewEntry(g, long, main))
    ensures var rest := List(slots, g + |EntrySlots(long, main)|, IDLE, FindAll);
            List(slots, g, IDLE, FindAll) == Listing([NewEntry(g, long, main)] + rest.entries, rest.broken)
  {
    hide Checksum, Chain, RecodeAll, PieceText, EntrySlots;
    if long.Some? {
      var name, n := long.value, PieceCount(long.value);
      EntryLength(long, main);
      EntryParts(slots, g, name, main);
      ChainReads(slots, g, name, Checksum(ShortName(main)), n, 0, IDLE, FindAll);
      TextWhole(name);
      SkipsCarry(slots, g, g + n, IDLE, FindAll);
    } else {
      EntryLength(long, main);
      assert slots[g] == slots[g..g + 1][0] == main;
    }
  }

  lemma EntryLength(long: Option<seq<byte>>, main: Slot)
    requires long.Some? ==> PieceCount(long.value) < 32
    ensures |EntrySlots(long, main)| == 1 + if long.Some? then PieceCount(long.value) else 0
    ensures long.None? ==> EntrySlots(long, main) == [main]
  {
  }

  /**
   Long-name round trip. The entry written for a name is reported as starting at its first
   slot, and its name comes back unchanged exactly when every character is at least a space
   and none is the inverted exclamation mark. This covers names of a multiple of thirteen
   characters, whose terminator is not stored.
   */
  lemma LongNameRoundTrip(slots: seq<Slot>, g: nat, name: seq<byte>, main: Slot)
    requires Creatable(Some(name), main)
    requires g + |EntrySlots(Some(name), main)| <= |slots|
    requires slots[g..g + |EntrySlots(Some(name), main)|] == EntrySlots(Some(name), main)
    ensures var r := Scan(slots, g, IDLE, FindAll);
            && r.Found? && r.entry.start == g && r.entry.main == main && r.entry.long.Some?
            && |r.entry.long.value| == |name|
            && (r.entry.long.value == name <==> forall i :: 0 <= i < |name| ==> 0x20 <= name[i] && name[i] != 173)
  {
    hide Recode, EntrySlots, Scan;
    NewEntryIsFound(slots, g, Some(name), main);
    forall i | 0 <= i < |name|
      ensures Recode(name[i]) == name[i] <==> 0x20 <= name[i] && name[i] != 173
    {
      RecodeExact(name[i]);
    }
    assert RecodeAll(name) == name <==> forall i :: 0 <= i < |name| ==> RecodeAll(name)[i] == name[i];
  }

  /**
   The reader does not ask whether a run is complete: behind a chain that lacks its last
   `m` pieces the main entry is reported under the rest of its name.
   */
  lemma TruncatedRunIsAccepted(slots: seq<Slot>, g: nat, name: seq<byte>, main: Slot, m: nat)
    requires Creatable(Some(name), main) && m < PieceCount(name) && g + PieceCount(name) - m < |slots|
    requires var sum := Checksum(ShortName(main));
             slots[g..g + PieceCount(name) - m] == Chain(name, sum, PieceCount(name))[..PieceCount(name) - m]
    requires slots[g + PieceCount(name) - m] == main
    ensures Scan(slots, g, IDLE, FindAll)
         == Found(Entry(g + PieceCount(name) - m, main, Some(RecodeAll(name[13 * m..])), g))
  {
    hide Checksum, Chain, RecodeAll, PieceText;
    var n := PieceCount(name);
    ChainReads(slots, g, name, Checksum(ShortName(main)), n, m, IDLE, FindAll);
    SkipsCarry(slots, g, g + n - m, IDLE, FindAll);
  }

  // ---------- The rest of the directory ----------

  /** The state of the scan when it reaches `j`, starting afresh behind every report. */
  function StateAt(slots: seq<Slot>, i: nat, j: nat, st: Pending, mode: Mode): (r: Option<Pending>)
    requires i <= j <= |slots|
    decreases j - i
  {
    if i == j then Some(st)
    else
      match StepSlot(slots[i], i, st, mode)
      case Skip(st') => StateAt(slots, i + 1, j, st', mode)
      case Report(_) => StateAt(slots, i + 1, j, IDLE, mode)
      case _ => None
  }

  /** A listing with one more entry in its place. */
  function Inserted(entries: seq<Entry>, e: Entry): (r: seq<Entry>)
  {
    if entries == [] || e.index < entries[0].index then [e] + entries
    else [entries[0]] + Inserted(entries[1..], e)
  }

  /**
   The slots `[g, g + n)` hold nothing: deleted slots, up to an end mark behind which
   only end marks follow.
   */
  ghost predicate GapAt(slots: seq<Slot>, g: nat, n: nat)
  {
    && g + n <= |slots|
    && ((forall k :: g <= k < g + n ==> IsDeleted(slots[k])) ||
        exists e :: g <= e < g + n && EndsAt(slots, e) && forall k :: g <= k < e ==> IsDeleted(slots[k]))
  }

  ghost predicate EndsAt(slots: seq<Slot>, e: nat)
  {
    forall k :: e <= k < |slots| ==> IsEnd(slots[k])
  }

  lemma {:induction false} DeletedAreSkipped(slots: seq<Slot>, i: nat, j: nat, st: Pending, mode: Mode)
    requires i <= j <= |slots| && forall k :: i <= k < j ==> IsDeleted(slots[k])
    ensures List(slots, i, st, mode) == List(slots, j, st, mode)
    decreases j - i
  {
    if i < j {
      DeletedAreSkipped(slots, i + 1, j, st, mode);
    }
  }

  lemma {:induction false} SameTailSameList(a: seq<Slot>, b: seq<Slot>, i: nat, st: Pending, mode: Mode)
    requires |a| == |b| && i <= |a| && forall k :: i <= k < |a| ==> a[k] == b[k]
    ensures List(a, i, st, mode) == List(b, i, st, mode)
    decreases |a| - i
  {
    hide StepSlot;
    if i < |a| {
      var step := StepSlot(a[i], i, st, mode);
      SameTailSameList(a, b, i + 1, if step.Skip? then step.st else IDLE, mode);
    }
  }

  lemma {:induction false} ZerosAddNothing(slots: seq<Slot>, n: nat, i: nat, st: Pending, mode: Mode)
    requires i <= |slots|
    ensures List(slots + Zeros(n), i, st, mode) == List(slots, i, st, mode)
    decreases |slots| - i
  {
    hide StepPiece, StepMain;
    if i < |slots| {
      var step := StepSlot(slots[i], i, st, mode);
      ZerosAddNothing(slots, n, i + 1, if step.Skip? then step.st else IDLE, mode);
    }
  }

  /** Past the gap both directories list the same. */
  lemma GapListsNothing(slots: seq<Slot>, after: seq<Slot>, g: nat, n: nat, mode: Mode)
    requires GapAt(slots, g, n) && |after| == |slots|
    requires forall k :: g + n <= k < |slots| ==> after[k] == slots[k]
    ensures List(slots, g, IDLE, mode) == List(after, g + n, IDLE, mode)
  {
    hide StepPiece, StepMain;
    if forall k :: g <= k < g + n ==> IsDeleted(slots[k]) {
      DeletedAreSkipped(slots, g, g + n, IDLE, mode);
      SameTailSameList(slots, after, g + n, IDLE, mode);
    } else {
      var e :| g <= e < g + n && EndsAt(slots, e) && forall k :: g <= k < e ==> IsDeleted(slots[k]);
      DeletedAreSkipped(slots, g, e, IDLE, mode);
    }
  }

  /**
   Filling a gap at which the scan has nothing pending adds one entry to the listing and
   changes nothing else, whatever the directory looks like elsewhere.
   */
  lemma {:induction false} FillingAddsOne(slots: seq<Slot>, after: seq<Slot>, g: nat, n: nat, e: Entry,
                                          i: nat, st: Pending, mode: Mode)
    requires GapAt(slots, g, n) && |after| == |slots| && i <= g
    requires forall k :: 0 <= k < |slots| && !(g <= k < g + n) ==> after[k] == slots[k]
    requires StateAt(slots, i, g, st, mode) == Some(IDLE)
    requires g <= e.index < g + n
    requires var rest := List(after, g + n, IDLE, mode);
             List(after, g, IDLE, mode) == Listing([e] + rest.entries, rest.broken)
    ensures var before := List(slots, i, st, mode);
            List(after, i, st, mode) == Listing(Inserted(before.entries, e), before.broken)
    decreases g - i
  {
    hide StepSlot;
    if i == g {
      GapListsNothing(slots, after, g, n, mode);
    } else {
      var step := StepSlot(slots[i], i, st, mode);
      FillingAddsOne(slots, after, g, n, e, i + 1, if step.Skip? then step.st else IDLE, mode);
    }
  }

  // ---------- An entry whose first character is the mark of deleted slots ----------

  /**
   The slot that inherits the name of an orphaned run with the checksum `sum`: the next one that
   is not deleted, if it is a main entry with that checksum; labels with it are passed over.
   */
  function Heir(slots: seq<Slot>, i: nat, sum: byte): (h: Option<nat>)
    requires i <= |slots|
    ensures h.Some? ==> i <= h.value < |slots| && IsMain(slots[h.value])
    decreases |slots| - i
  {
    if i == |slots| || IsEnd(slots[i]) || IsPiece(slots[i]) then None
    else if IsDeleted(slots[i]) then Heir(slots, i + 1, sum)
    else if Checksum(ShortName(slots[i])) != sum then None
    else if IsLabel(slots[i][11]) then Heir(slots, i + 1, sum)
    else Some(i)
  }

  /** A listing in which the entry at index `h` bears the name of a run that begins at `g`. */
  function Renamed(entries: seq<Entry>, h: Option<nat>, text: seq<byte>, g: nat): (r: seq<Entry>)
    ensures |r| == |entries|
  {
    if entries == [] then []
    else
      var e := entries[0];
      [if h == Some(e.index) then Entry(e.index, e.main, Some(text), g) else e] + Renamed(entries[1..], h, text, g)
  }

  lemma {:induction false} NothingRenamed(entries: seq<Entry>, h: Option<nat>, text: seq<byte>, g: nat)
    requires forall k :: 0 <= k < |entries| ==> h != Some(entries[k].index)
    ensures Renamed(entries, h, text, g) == entries
    decreases |entries|
  {
    if entries != [] {
      NothingRenamed(entries[1..], h, text, g);
    }
  }

  /** A finished run makes a difference only to a main entry with its checksum. */
  lemma StepWhenOrphaned(s: Slot, i: nat, st: Pending)
    requires st.count == 0
    ensures var step, plain := StepSlot(s, i, st, FindAll), StepSlot(s, i, IDLE, FindAll);
            && (IsPiece(s) || (IsMain(s) && Checksum(ShortName(s)) != st.sum) ==> step == plain)
            && (IsMain(s) && Checksum(ShortName(s)) == st.sum ==>
                  if IsLabel(s[11]) then step == Skip(st) && plain == Skip(IDLE)
                  else step == Report(Entry(i, s, Some(st.text), st.start)) && plain == Report(Entry(i, s, None, -1)))
  {
    hide PieceText, Checksum;
  }

  /** A finished run that waits for its main entry does nothing but rename its heir. */
  lemma {:induction false} OrphanIsAdopted(slots: seq<Slot>, i: nat, g: nat, text: seq<byte>, sum: byte)
    requires i <= |slots|
    ensures var plain := List(slots, i, IDLE, FindAll);
            List(slots, i, Pending(0, g, text, sum), FindAll)
            == Listing(Renamed(plain.entries, Heir(slots, i, sum), text, g), plain.broken)
    decreases |slots| - i
  {
    hide StepPiece, StepMain, Checksum;
    var st := Pending(0, g, text, sum);
    var plain := List(slots, i, IDLE, FindAll).entries;
    if i < |slots| {
      OrphanIsAdopted(slots, i + 1, g, text, sum);
      StepWhenOrphaned(slots[i], i, st);
      if IsPiece(slots[i]) || (IsMain(slots[i]) && Checksum(ShortName(slots[i])) != sum) {
        NothingRenamed(plain, None, text, g);
      } else if IsMain(slots[i]) && !IsLabel(slots[i][11]) {
        var rest := List(slots, i + 1, IDLE, FindAll).entries;
        assert plain == [Entry(i, slots[i], None, -1)] + rest;
        NothingRenamed(rest, Some(i), text, g);
      }
    }
  }

  /** What was written is read as a run without a main entry. */
  lemma OrphanIsWritten(after: seq<Slot>, g: nat, name: seq<byte>, main: Slot)
    requires Storable(Some(name), main) && main[0] == 0xe5 && g + PieceCount(name) < |after|
    requires after[g..g + PieceCount(name) + 1] == EntrySlots(Some(name), main)
    ensures List(after, g, IDLE, FindAll)
         == List(after, g + PieceCount(name) + 1, Pending(0, g, RecodeAll(name), Checksum(ShortName(main))), FindAll)
  {
    hide Checksum, Chain, RecodeAll, List, Scan, Skips, StepSlot, EntrySlots;
    var n := PieceCount(name);
    var sum := Checksum(ShortName(main));
    EntryParts(after, g, name, main);
    ChainReads(after, g, name, sum, n, 0, IDLE, FindAll);
    TextWhole(name);
    SkipsCarry(after, g, g + n, IDLE, FindAll);
    DeletedAreSkipped(after, g + n, g + n + 1, Pending(0, g, RecodeAll(name), sum), FindAll);
  }

  /** Filling a gap with an orphaned run renames its heir and changes nothing else. */
  lemma {:induction false} FillingRenames(slots: seq<Slot>, after: seq<Slot>, g: nat, n: nat, h: Option<nat>,
                                          text: seq<byte>, i: nat, st: Pending)
    requires GapAt(slots, g, n) && |after| == |slots| && i <= g && (h.Some? ==> g <= h.value)
    requires forall k :: 0 <= k < |slots| && !(g <= k < g + n) ==> after[k] == slots[k]
    requires StateAt(slots, i, g, st, FindAll) == Some(IDLE)
    requires var rest := List(after, g + n, IDLE, FindAll);
             List(after, g, IDLE, FindAll) == Listing(Renamed(rest.entries, h, text, g), rest.broken)
    ensures var before := List(slots, i, st, FindAll);
            List(after, i, st, FindAll) == Listing(Renamed(before.entries, h, text, g), before.broken)
    decreases g - i
  {
    hide StepSlot;
    if i == g {
      GapListsNothing(slots, after, g, n, FindAll);
    } else {
      var step := StepSlot(slots[i], i, st, FindAll);
      FillingRenames(slots, after, g, n, h, text, i + 1, if step.Skip? then step.st else IDLE);
    }
  }

  // ---------- Well-formed directories ----------

  /** A complete run of `n` pieces at `i`, numbered downwards, that belongs to the main entry behind it. */
  ghost predicate IsRun(slots: seq<Slot>, i: nat, n: nat)
  {
    && 1 <= n && 13 * n <= MAX_TEXT && i + n < |slots|
    && IsLastPiece(slots[i])
    && (forall j :: i <= j < i + n ==> IsPiece(slots[j]) && PieceNumber(slots[j]) == i + n - j)
    && (forall j :: i <= j < i + n ==> PieceChecksum(slots[j]) == PieceChecksum(slots[i]))
    && (forall j :: i < j < i + n ==> !IsLastPiece(slots[j]))
    && IsMain(slots[i + n]) && !IsLabel(slots[i + n][11])
    && Checksum(ShortName(slots[i + n])) == PieceChecksum(slots[i])
  }

  /** Deleted slots, bare main entries and complete runs, then nothing but end marks. */
  ghost predicate WellFormed(slots: seq<Slot>, i: nat)
    requires i <= |slots|
    decreases |slots| - i
  {
    || i == |slots|
    || EndsAt(slots, i)
    || ((IsDeleted(slots[i]) || IsMain(slots[i])) && WellFormed(slots, i + 1))
    || (IsPiece(slots[i]) && IsRun(slots, i, PieceNumber(slots[i])) && WellFormed(slots, i + PieceNumber(slots[i]) + 1))
  }

  /** Inside a run the scan keeps counting down. */
  lemma {:induction false} RunIsFollowed(slots: seq<Slot>, i: nat, n: nat, j: nat, st: Pending, mode: Mode)
    requires IsRun(slots, i, n) && i <= j <= i + n
    requires j > i ==> st.count == i + n - j && st.start == i && st.sum == PieceChecksum(slots[i])
    requires j > i ==> |st.text| <= 13 * (j - i)
    ensures var r := Skips(slots, j, i + n, st, mode);
            r.Some? && r.value.count == 0 && r.value.start == i && r.value.sum == PieceChecksum(slots[i])
    decreases i + n - j
  {
    hide PieceText, Checksum;
    if j < i + n {
      var step := StepSlot(slots[j], j, st, mode);
      assert step.Skip? && step.st.count == i + n - j - 1;
      RunIsFollowed(slots, i, n, j + 1, step.st, mode);
    }
  }

  lemma {:induction false} SkipsThenStep(slots: seq<Slot>, i: nat, j: nat, st: Pending, mode: Mode)
    requires i <= j < |slots| && Skips(slots, i, j, st, mode).Some?
    requires StepSlot(slots[j], j, Skips(slots, i, j, st, mode).value, mode).Report?
    ensures StateAt(slots, i, j + 1, st, mode) == Some(IDLE)
    decreases j - i
  {
    hide StepSlot;
    if i < j {
      SkipsThenStep(slots, i + 1, j, StepSlot(slots[i], i, st, mode).st, mode);
    }
  }

  lemma {:induction false} StateAtSplits(slots: seq<Slot>, i: nat, j: nat, k: nat, st: Pending, mode: Mode)
    requires i <= j <= k <= |slots| && StateAt(slots, i, j, st, mode).Some?
    ensures StateAt(slots, i, k, st, mode) == StateAt(slots, j, k, StateAt(slots, i, j, st, mode).value, mode)
    decreases j - i
  {
    hide StepSlot;
    if i < j {
      var step := StepSlot(slots[i], i, st, mode);
      StateAtSplits(slots, i + 1, j, k, if step.Skip? then step.st else IDLE, mode);
    }
  }

  /** Nothing comes to be pending at a slot that is deleted or a main entry. */
  lemma StepWhenIdle(s: Slot, i: nat)
    ensures IsDeleted(s) ==> StepSlot(s, i, IDLE, FindAll) == Skip(IDLE)
    ensures IsMain(s) ==> StepSlot(s, i, IDLE, FindAll).Report? || StepSlot(s, i, IDLE, FindAll) == Skip(IDLE)
  {
    hide Checksum;
  }

  /** A complete run ends with its main entry, and nothing is pending behind it. */
  lemma RunIsReported(slots: seq<Slot>, i: nat, n: nat)
    requires IsRun(slots, i, n)
    ensures StateAt(slots, i, i + n + 1, IDLE, FindAll) == Some(IDLE)
  {
    hide PieceText, Checksum, StepPiece;
    RunIsFollowed(slots, i, n, i, IDLE, FindAll);
    SkipsThenStep(slots, i, i + n, IDLE, FindAll);
  }

  /** In a well-formed directory nothing is pending at a slot that is not live. */
  lemma {:induction false} WellFormedIsIdle(slots: seq<Slot>, i: nat, g: nat)
    requires i <= g <= |slots| && WellFormed(slots, i)
    requires g < |slots| ==> IsDeleted(slots[g]) || IsEnd(slots[g])
    requires forall k :: i <= k < g ==> !IsEnd(slots[k])
    ensures StateAt(slots, i, g, IDLE, FindAll) == Some(IDLE)
    decreases g - i
  {
    hide StepSlot, Checksum;
    if i < g {
      assert !IsEnd(slots[i]);
      StepWhenIdle(slots[i], i);
      if IsPiece(slots[i]) {
        var n := PieceNumber(slots[i]);
        RunIsReported(slots, i, n);
        assert g > i + n;
        WellFormedIsIdle(slots, i + n + 1, g);
        StateAtSplits(slots, i, i + n + 1, g, IDLE, FindAll);
      } else {
        WellFormedIsIdle(slots, i + 1, g);
      }
    }
  }
}
