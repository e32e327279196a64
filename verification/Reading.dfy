/**
 The slot-by-slot scan of a directory: how pieces accumulate into a long name,
 when a main entry is reported, and the listing that repeated scans produce.
 */
module Reading {
  import opened Basics
  import opened CodePage
  import opened Slots

  datatype Mode = FindFolder | FindFolderOrLink | FindNoFolder | FindAll | FindLabel

  predicate Wanted(mode: Mode, attr: byte)
  {
    match mode
    case FindLabel => IsLabel(attr) && !IsFolder(attr)
    case FindFolder => IsFolder(attr)
    case FindFolderOrLink => IsFolder(attr) || IsSymlink(attr)
    case FindNoFolder => !IsLabel(attr) && !IsFolder(attr)
    case FindAll => !IsLabel(attr)
  }

  /**
   What the scan remembers between slots: the number of the piece it saw last minus one
   (-1 for none), where the run began (-1 for nowhere), its text so far and its checksum.
   */
  datatype Pending = Pending(count: int, start: int, text: seq<byte>, sum: byte)

  const IDLE := Pending(-1, -1, [], 0)

  /** The capacity of the buffer in which a long name is assembled. */
  const MAX_TEXT := 299

  /** A reported entry: its index, its main slot, its long name if any, and where it begins. */
  datatype Entry = Entry(index: nat, main: Slot, long: Option<seq<byte>>, start: int)

  datatype Step = Stop | Fault | Skip(st: Pending) | Report(entry: Entry)

  /** Text and checksum mean nothing once the count has run out. */
  function Settled(count: int, start: int, text: seq<byte>, sum: byte): (st: Pending)
  {
    if count < 0 then Pending(-1, start, [], 0) else Pending(count, start, text, sum)
  }

  function StepPiece(s: Slot, i: nat, st: Pending): (r: Step)
  {
    if !IsLastPiece(s) && (st.count <= 0 || PieceNumber(s) != st.count || PieceChecksum(s) != st.sum) then
      Skip(IDLE)
    else
      var run := if IsLastPiece(s) then Pending(PieceNumber(s), i, [], PieceChecksum(s)) else st;
      var text := PieceText(s) + run.text;
      if |text| > MAX_TEXT then Fault else Skip(Settled(run.count - 1, run.start, text, run.sum))
  }

  function StepMain(s: Slot, i: nat, st: Pending, mode: Mode): (r: Step)
  {
    var own := if st.count >= 0 && Checksum(ShortName(s)) != st.sum then IDLE else st;
    if Wanted(mode, s[11]) then
      Report(Entry(i, s, if own.count >= 0 then Some(own.text) else None, own.start))
    else
      Skip(own)
  }

  /** What one slot does to the scan. */
  function StepSlot(s: Slot, i: nat, st: Pending, mode: Mode): (r: Step)
    ensures r.Report? ==> r.entry.index == i && r.entry.main == s && IsMain(s) && Wanted(mode, s[11])
  {
    if IsEnd(s) then Stop
    else if IsDeleted(s) then Skip(st)
    else if IsPiece(s) then StepPiece(s, i, st)
    else StepMain(s, i, st, mode)
  }

  datatype Outcome = NoMore | Broken | Found(entry: Entry)

  /** The scan for the next entry of the wanted kind. */
  function Scan(slots: seq<Slot>, i: nat, st: Pending, mode: Mode): (r: Outcome)
    requires i <= |slots|
    ensures r.Found? ==> i <= r.entry.index < |slots|
    decreases |slots| - i
  {
    if i == |slots| then NoMore
    else
      match StepSlot(slots[i], i, st, mode)
      case Stop => NoMore
      case Fault => Broken
      case Report(e) => Found(e)
      case Skip(st') => Scan(slots, i + 1, st', mode)
  }

  /** The reading loop. */
  method ReadEntry(fd: DosDir, mode: Mode) returns (r: Outcome)
    requires fd.pos <= |fd.slots|
    modifies fd`pos
    ensures r == Scan(fd.slots, old(fd.pos), IDLE, mode)
    ensures r.Found? ==> fd.pos == r.entry.index + 1
    ensures fd.pos <= |fd.slots|
  {
    hide StepPiece, StepMain;
    var st := IDLE;
    while true
      invariant old(fd.pos) <= fd.pos <= |fd.slots|
      invariant Scan(fd.slots, old(fd.pos), IDLE, mode) == Scan(fd.slots, fd.pos, st, mode)
      decreases |fd.slots| - fd.pos
    {
      var i := fd.pos;
      var found, s := fd.Read();
      if !found || s[0] == 0 {
        return NoMore;
      }
      if s[0] == 0xe5 {
        continue;
      }
      var step;
      if s[11] == LONG_NAME_ATTR {
        step := TakePiece(s, i, st.count, st.start, st.text, st.sum);
      } else {
        step := TakeMain(s, i, st.count, st.start, st.text, st.sum, mode);
      }
      match step {
        case Fault => return Broken;
        case Report(e) => return Found(e);
        case Skip(st') => st := st';
      }
    }
  }

  /** The branch for a piece, on the four local variables of the reading loop. */
  method TakePiece(s: Slot, i: nat, c: int, p: int, t: seq<byte>, m: byte) returns (r: Step)
    ensures r == StepPiece(s, i, Pending(c, p, t, m)) && !r.Stop? && !r.Report?
  {
    hide PieceText;
    var count, start, text, sum := c, p, t, m;
    var number := s[0] % 32;
    if s[0] / 64 % 2 == 1 {
      text, count, start, sum := [], number, i, s[13];
    } else if count <= 0 || number != count || sum != s[13] {
      return Skip(IDLE);
    }
    var piece := ReadPiece(s);
    if |text| + |piece| > MAX_TEXT {
      return Fault;
    }
    text := piece + text;
    count := count - 1;
    return Skip(Settled(count, start, text, sum));
  }

  /** The branch for a main entry. */
  method TakeMain(s: Slot, i: nat, c: int, p: int, t: seq<byte>, m: byte, mode: Mode) returns (r: Step)
    ensures r == StepMain(s, i, Pending(c, p, t, m), mode) && !r.Stop? && !r.Fault?
  {
    hide Checksum;
    var count, start, text, sum := c, p, t, m;
    var own := ChkSum(ShortName(s));
    if count >= 0 && own != sum {
      count, start, text, sum := -1, -1, [], 0;
    }
    var attr: int := s[11];
    var volume, folder, link := attr / 8 % 2 == 1, attr / 16 % 2 == 1, attr / 64 % 2 == 1;
    var wanted;
    match mode {
      case FindLabel => wanted := volume && !folder;
      case FindFolder => wanted := folder;
      case FindFolderOrLink => wanted := folder || link;
      case FindNoFolder => wanted := !volume && !folder;
      case FindAll => wanted := !volume;
    }
    if wanted {
      return Report(Entry(i, s, if count >= 0 then Some(text) else None, start));
    }
    return Skip(Pending(count, start, text, sum));
  }

  method ReadPiece(s: Slot) returns (text: seq<byte>)
    ensures text == PieceText(s)
  {
    var a := Unic2Ibm(UnitsAt(s, 1, 5));
    var b := Unic2Ibm(UnitsAt(s, 14, 6));
    var c := Unic2Ibm(UnitsAt(s, 28, 2));
    text := a + b + c;
  }

  // ---------- The listing ----------

  /** All entries in order; `broken` tells that a scan ended with an error. */
  datatype Listing = Listing(entries: seq<Entry>, broken: bool)

  /** The listing in one pass: every report starts the scan afresh. */
  function List(slots: seq<Slot>, i: nat, st: Pending, mode: Mode): (l: Listing)
    requires i <= |slots|
    ensures forall k :: 0 <= k < |l.entries| ==> i <= l.entries[k].index < |slots|
    decreases |slots| - i
  {
    if i == |slots| then Listing([], false)
    else
      match StepSlot(slots[i], i, st, mode)
      case Stop => Listing([], false)
      case Fault => Listing([], true)
      case Skip(st') => List(slots, i + 1, st', mode)
      case Report(e) =>
        var rest := List(slots, i + 1, IDLE, mode);
        Listing([e] + rest.entries, rest.broken)
  }

  lemma {:induction false} ListIsRepeatedScan(slots: seq<Slot>, i: nat, st: Pending, mode: Mode)
    requires i <= |slots|
    ensures List(slots, i, st, mode) ==
            match Scan(slots, i, st, mode)
            case NoMore => Listing([], false)
            case Broken => Listing([], true)
            case Found(e) =>
              var rest := List(slots, e.index + 1, IDLE, mode);
              Listing([e] + rest.entries, rest.broken)
    decreases |slots| - i
  {
    hide StepSlot;
    if i < |slots| {
      var step := StepSlot(slots[i], i, st, mode);
      if step.Skip? {
        ListIsRepeatedScan(slots, i + 1, step.st, mode);
      }
    }
  }

  /** Slot `k` is reported, with what it holds. */
  ghost predicate Reports(l: Listing, k: nat, main: Slot)
  {
    exists e :: e in l.entries && e.index == k && e.main == main
  }

  /** One step either reports slot `i` or leaves the reports to the rest of the directory. */
  lemma ListStep(slots: seq<Slot>, i: nat, st: Pending, mode: Mode) returns (st': Pending, own: seq<Entry>)
    requires i < |slots| && !IsEnd(slots[i]) && !List(slots, i, st, mode).broken
    ensures var rest := List(slots, i + 1, st', mode);
            !rest.broken && List(slots, i, st, mode) == Listing(own + rest.entries, false)
    ensures if IsMain(slots[i]) && Wanted(mode, slots[i][11])
            then |own| == 1 && own[0].index == i && own[0].main == slots[i] else own == []
  {
    hide PieceText, Checksum, Wanted;
    var step := StepSlot(slots[i], i, st, mode);
    assert !step.Stop? && !step.Fault?;
    st', own := if step.Skip? then step.st else IDLE, if step.Report? then [step.entry] else [];
  }

  /**
   What is listed, exactly and by the bits of the directory entry. Unless a scan ends with an
   error, the slots that are reported are those in front of the end mark that are neither deleted
   nor pieces of a long name and whose attributes are asked for: no label (bit 3) for everything,
   folders (bit 4), folders and links (bit 6), neither labels nor folders, or labels alone.
   */
  lemma {:induction false} ListedExactly(slots: seq<Slot>, i: nat, st: Pending, mode: Mode, k: nat)
    requires i <= k < |slots| && !List(slots, i, st, mode).broken
    ensures Reports(List(slots, i, st, mode), k, slots[k]) <==>
            && k < EndOf(slots, i) && slots[k][0] != 0xe5 && slots[k][11] != 0x0f
            && var attr: int := slots[k][11];
               match mode
               case FindAll => attr / 8 % 2 == 0
               case FindFolder => attr / 16 % 2 == 1
               case FindFolderOrLink => attr / 16 % 2 == 1 || attr / 64 % 2 == 1
               case FindNoFolder => attr / 8 % 2 == 0 && attr / 16 % 2 == 0
               case FindLabel => attr / 8 % 2 == 1 && attr / 16 % 2 == 0
    decreases |slots| - i
  {
    hide List;
    if IsEnd(slots[i]) {
      EndListsNothing(slots, i, st, mode);
    } else {
      var st', own := ListStep(slots, i, st, mode);
      var l, rest := List(slots, i, st, mode), List(slots, i + 1, st', mode);
      if k == i {
        assert forall e :: e in rest.entries ==> e.index != i;
        assert own != [] ==> own[0] in l.entries;
      } else {
        ListedExactly(slots, i + 1, st', mode, k);
        assert forall e: Entry :: e.index == k ==> (e in l.entries <==> e in rest.entries);
      }
    }
  }

  lemma EndListsNothing(slots: seq<Slot>, i: nat, st: Pending, mode: Mode)
    requires i < |slots| && IsEnd(slots[i])
    ensures List(slots, i, st, mode) == Listing([], false)
  {
  }

  ghost predicate InOrder(es: seq<Entry>)
  {
    forall a, b :: 0 <= a < b < |es| ==> es[a].index < es[b].index
  }

  /** Every slot is reported at most once, and in the order of the directory. */
  lemma {:induction false} ListAscends(slots: seq<Slot>, i: nat, st: Pending, mode: Mode)
    requires i <= |slots|
    ensures InOrder(List(slots, i, st, mode).entries)
    decreases |slots| - i
  {
    hide StepPiece, StepMain;
    if i < |slots| {
      var l, step := List(slots, i, st, mode), StepSlot(slots[i], i, st, mode);
      if step.Skip? {
        ListAscends(slots, i + 1, step.st, mode);
        assert l == List(slots, i + 1, step.st, mode);
      } else if step.Report? {
        ListAscends(slots, i + 1, IDLE, mode);
        var rest := List(slots, i + 1, IDLE, mode).entries;
        assert l.entries == [step.entry] + rest;
        assert forall b :: 1 <= b < |l.entries| ==> l.entries[b] == rest[b - 1] && l.entries[b].index > i;
      }
    }
  }

  /** Reading a directory to its end by repeated calls. */
  method ReadAll(fd: DosDir, mode: Mode) returns (l: Listing)
    requires fd.pos <= |fd.slots|
    modifies fd`pos
    ensures l == List(fd.slots, old(fd.pos), IDLE, mode)
  {
    hide Scan, List;
    var entries := [];
    while true
      invariant fd.pos <= |fd.slots|
      invariant var rest := List(fd.slots, fd.pos, IDLE, mode);
                List(fd.slots, old(fd.pos), IDLE, mode) == Listing(entries + rest.entries, rest.broken)
      decreases |fd.slots| - fd.pos
    {
      ListIsRepeatedScan(fd.slots, fd.pos, IDLE, mode);
      var r := ReadEntry(fd, mode);
      match r {
        case NoMore => return Listing(entries, false);
        case Broken => return Listing(entries, true);
        case Found(e) =>
          entries := entries + [e];
      }
    }
  }
}
