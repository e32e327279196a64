/**
 Listing an HFS folder by its ID: the one long that is either an ID or a packed position, the
 first record of a folder, its thread, and its own record in the parent, which makes the entry `.`.
 */
module HfsFolder {
  import opened Basics
  import opened HfsCatalog

  // ---------- The long that names a folder or a position ----------

  /** IDs below this open a folder; everything else is taken for a position. */
  const FIRST_POSITION := 0x1_0000

  /** The position behind the last record. */
  const END := 0xffff_ffff

  function Pack(pos: Position): (start: int)
  {
    match pos
    case Finished => END
    case At(node, recno) => node * 0x1_0000 + recno
  }

  function Unpack(start: nat): (pos: Position)
  {
    if start == END then Finished else At(start / 0x1_0000, start % 0x1_0000)
  }

  /** A position on a chain survives packing and is never taken for a folder ID. */
  lemma PackedPosition(cat: Catalog, ids: seq<nat>, pos: Position, q: nat)
    requires IsChain(cat, ids) && PositionAt(cat, ids, pos, q)
    ensures FIRST_POSITION <= Pack(pos) < END && Unpack(Pack(pos)) == pos
  {
    hide Flat, Start;
    var k :| IsAt(cat, ids, pos.node, pos.recno, k, q);
    assert Linked(cat, ids, k);
  }

  lemma PackedPending(cat: Catalog, ids: seq<nat>, pos: Position, fnum: nat, out: seq<Rec>)
    requires IsChain(cat, ids) && Pending(cat, ids, pos, fnum, out)
    ensures FIRST_POSITION <= Pack(pos) <= END && Unpack(Pack(pos)) == pos && !NoRecord(cat, pos)
  {
    hide Flat, Start, Run;
    if pos.At? {
      var q :| InRun(cat, ids, pos, q, fnum, out);
      PackedPosition(cat, ids, pos, q);
    }
  }

  // ---------- Opening a folder ----------

  /** How a search inside a run of records with one parent ID ends. */
  datatype RunSearch = Hit(rec: Rec) | RunOver | CatalogOver

  /** All of `[q, e)` has the parent ID `fnum`, and none of it is wanted. */
  ghost predicate Passed(rs: seq<Rec>, q: nat, e: nat, fnum: nat, want: Rec -> bool)
    requires e <= |rs|
  {
    forall i :: q <= i < e ==> rs[i].fnum == fnum && !want(rs[i])
  }

  /** The first wanted record among those from `q` on that share the parent ID `fnum`. */
  method FindInRun(cat: Catalog, start: Position, fnum: nat, want: Rec -> bool, ghost ids: seq<nat>, ghost q0: nat)
    returns (r: RunSearch, ghost e: nat)
    requires IsLevel(cat, ids, Leaf) && PositionAt(cat, ids, start, q0)
    ensures q0 <= e <= |Flat(cat, ids)| && Passed(Flat(cat, ids), q0, e, fnum, want)
    ensures r.Hit? ==> e < |Flat(cat, ids)| && r.rec == Flat(cat, ids)[e] && r.rec.fnum == fnum && want(r.rec)
    ensures r.RunOver? ==> e < |Flat(cat, ids)| && Flat(cat, ids)[e].fnum != fnum
    ensures r.CatalogOver? ==> e == |Flat(cat, ids)|
  {
    hide Start, Flat;
    LevelIsChain(cat, ids, Leaf);
    var node, recno := start.node, start.recno;
    ghost var k: nat :| IsAt(cat, ids, node, recno, k, q0);
    e := q0;
    var got := GetRecord(cat, node, recno);
    var current, p := got.value.0, got.value.1;
    while p.fnum == fnum
      invariant q0 <= e && IsAt(cat, ids, node, recno, k, e)
      invariant current == cat.nodes[node] && p == current.recs[recno]
      invariant Passed(Flat(cat, ids), q0, e, fnum, want)
      decreases |Flat(cat, ids)| - e
    {
      if want(p) {
        return Hit(p), e;
      }
      ghost var k' := StepAlong(cat, ids, node, recno, k, e);
      var (link, next) := NextRec(current, node, recno);
      if link == 0 {
        return CatalogOver, e + 1;
      }
      node, recno, k, e := link, next, k', e + 1;
      got := GetRecord(cat, node, recno);
      current, p := got.value.0, got.value.1;
    }
    return RunOver, e;
  }

  predicate IsThread(rec: Rec) { rec.kind == FolderThread }
  predicate IsFolder(rec: Rec, id: nat) { rec.kind == Folder && rec.id == id }

  ghost predicate NoneOf(rs: seq<Rec>, id: nat)
  {
    forall i :: 0 <= i < |rs| ==> rs[i].fnum != id
  }

  /** `pos` is that of the first record of folder `id`. */
  ghost predicate StartsAt(cat: Catalog, ids: seq<nat>, pos: Position, id: nat)
    requires NodesExist(cat, ids)
  {
    var first := FirstAtLeast(Flat(cat, ids), id);
    PositionAt(cat, ids, pos, first) && Flat(cat, ids)[first].fnum == id
  }

  /** Only one record of the catalog describes folder `id`, and its thread names the right parent. */
  ghost predicate Described(rs: seq<Rec>, id: nat, t: nat, d: nat)
  {
    && t < |rs| && rs[t].fnum == id && rs[t].kind == FolderThread
    && (forall i :: 0 <= i < |rs| && rs[i].fnum == id && rs[i].kind == FolderThread ==> i == t)
    && d < |rs| && rs[d].kind == Folder && rs[d].id == id && rs[d].fnum == rs[t].threadParent
    && (forall i :: 0 <= i < |rs| && rs[i].kind == Folder && rs[i].id == id ==> i == d)
  }

  /**
   No record from the landing leaf of the parent on has a parent ID between the low word of
   the parent's ID and the ID itself. Below 65536 there is no such number.
   */
  ghost predicate ParentIsSeen(cat: Catalog, levels: seq<seq<nat>>, parent: nat)
    requires WellFormed(cat, levels) && NodesExist(cat, levels[0])
  {
    var rs, s := Flat(cat, levels[0]), Start(cat, levels[0], LandingLeaf(cat, levels, parent));
    forall i :: s <= i < |rs| ==> !(parent % 0x1_0000 <= rs[i].fnum < parent)
  }

  /** The first call for a folder: `Some` is the entry `.`, `None` leaves the listing to begin at once. */
  datatype Opened = Failed(error: Error) | Dot(rec: Rec) | NoDot

  /**
   Opening a folder whose ID fits a word. It fails when the folder has no record, and what it returns as `.` is a
   record of that folder. For a folder that is properly described the position is that of its
   first record, and `.` is its own record in the parent; because the parent's ID is cut to a
   word when it is searched for, `.` is delivered if and only if no other parent ID gets in
   the way.
   */
  method OpenFolder(cat: Catalog, id: nat, ghost levels: seq<seq<nat>>, ghost t: nat, ghost d: nat)
    returns (r: Opened, pos: Position)
    requires id < FIRST_POSITION && WellFormed(cat, levels) && NodesExist(cat, levels[0]) && cat.headerValid
    ensures NoneOf(Flat(cat, levels[0]), id) ==> r == Failed(PathNotFound)
    ensures !r.Failed? ==> StartsAt(cat, levels[0], pos, id)
    ensures r.Dot? ==> r.rec in Flat(cat, levels[0]) && r.rec.kind == Folder && r.rec.id == id
    ensures Described(Flat(cat, levels[0]), id, t, d) ==>
      && !r.Failed?
      && (r.Dot? <==> ParentIsSeen(cat, levels, Flat(cat, levels[0])[t].threadParent))
      && (r.Dot? ==> r.rec == Flat(cat, levels[0])[d])
  {
    hide Start, Flat, LandingLeaf, FirstAtLeast, ParentIsSeen, Described, NoneOf;
    ghost var ids := levels[0];
    ghost var rs := Flat(cat, ids);
    ghost var first := FirstAtLeast(rs, id);
    assert IsLevel(cat, ids, Leaf);
    var found := Locate(cat, id, levels);
    if found.Err? {
      DescribedIsLocated(rs, id, t, d);
      return Failed(found.error), Finished;
    }
    pos := found.value;
    ghost var e;
    var thread;
    thread, e := FindInRun(cat, pos, id, IsThread, ids, first);
    HitsThread(rs, first, e, id, t, d, thread);
    if !thread.Hit? {
      return Failed(PathNotFound), if thread.RunOver? then Finished else pos;
    }
    r := FindOwn(cat, id, thread.rec.threadParent, levels, t, d);
  }

  /** The search for the folder's own record, from the landing leaf of its parent on. */
  method FindOwn(cat: Catalog, id: nat, parent: nat, ghost levels: seq<seq<nat>>, ghost t: nat, ghost d: nat)
    returns (r: Opened)
    requires id < FIRST_POSITION && WellFormed(cat, levels) && NodesExist(cat, levels[0]) && cat.headerValid
    ensures r.Dot? ==> r.rec in Flat(cat, levels[0]) && r.rec.kind == Folder && r.rec.id == id
    ensures Described(Flat(cat, levels[0]), id, t, d) && Flat(cat, levels[0])[t].threadParent == parent ==>
      !r.Failed? && (r.Dot? <==> ParentIsSeen(cat, levels, parent)) && (r.Dot? ==> r.rec == Flat(cat, levels[0])[d])
  {
    hide Start, Flat, LandingLeaf, FirstAtLeast, ParentIsSeen, Described;
    ghost var ids := levels[0];
    ghost var rs := Flat(cat, ids);
    assert IsLevel(cat, ids, Leaf);
    var leaf := FindLeafNode(cat, parent, levels);
    LandsInFront(cat, levels, parent);
    ghost var j := LandingLeaf(cat, levels, parent);
    ghost var s := Start(cat, ids, j);
    ghost var u, e;
    var near;
    near, u := SkipBelow(cat, leaf.value, 0, parent % 0x1_0000, ids, j, s);
    if near.Err? {
      ParentIsReached(rs, id, parent, t, d, s, |rs|);
      return Failed(near.error);
    }
    ParentIsReached(rs, id, parent, t, d, s, u);
    var fnum := GetRecord(cat, near.value.node, near.value.recno).value.1.fnum;
    var own;
    own, e := FindInRun(cat, near.value, fnum, (rec: Rec) => IsFolder(rec, id), ids, u);
    DotExactly(cat, levels, id, parent, t, d, s, u, e, own);
    match own {
      case Hit(rec) => return Dot(rec);
      case CatalogOver => return Failed(PathNotFound);
      case RunOver => return NoDot;
    }
  }

  lemma DescribedIsLocated(rs: seq<Rec>, id: nat, t: nat, d: nat)
    ensures Described(rs, id, t, d) ==> FirstAtLeast(rs, id) <= t < |rs|
    ensures Described(rs, id, t, d) ==> !NoneOf(rs, id)
  {
  }

  /** The search for the thread finds it, and finds nothing in a folder without records. */
  lemma HitsThread(rs: seq<Rec>, first: nat, e: nat, id: nat, t: nat, d: nat, r: RunSearch)
    requires Ascending(rs) && first == FirstAtLeast(rs, id) <= e <= |rs| && Passed(rs, first, e, id, IsThread)
    requires r.Hit? ==> e < |rs| && r.rec == rs[e] && r.rec.fnum == id && IsThread(r.rec)
    requires r.RunOver? ==> e < |rs| && rs[e].fnum != id
    requires r.CatalogOver? ==> e == |rs|
    ensures Described(rs, id, t, d) ==> r.Hit? && r.rec == rs[t]
    ensures NoneOf(rs, id) ==> !r.Hit?
    ensures r.Hit? ==> first < |rs| && rs[first].fnum == id
  {
    if Described(rs, id, t, d) {
      assert first <= t;
      assert e <= t;
      assert rs[first].fnum <= rs[e].fnum <= rs[t].fnum;
    }
  }

  /** The folder is described, and `parent` is the parent that its thread names. */
  ghost predicate ChildOf(rs: seq<Rec>, id: nat, parent: nat, t: nat, d: nat)
  {
    Described(rs, id, t, d) && rs[t].threadParent == parent
  }

  /** From the landing leaf on, the record of the folder in its parent still lies ahead. */
  lemma ParentIsReached(rs: seq<Rec>, id: nat, parent: nat, t: nat, d: nat, s: nat, u: nat)
    requires u <= |rs| && s <= FirstAtLeast(rs, parent)
    requires forall i :: s <= i < u ==> rs[i].fnum < parent % 0x1_0000
    ensures ChildOf(rs, id, parent, t, d) ==> s <= d && u <= d < |rs|
  {
    if ChildOf(rs, id, parent, t, d) {
      assert rs[d].fnum == parent;
      assert s <= d;
    }
  }

  /** The second search ends at the folder's record exactly when the parent is seen. */
  lemma DotExactly(cat: Catalog, levels: seq<seq<nat>>, id: nat, parent: nat, t: nat, d: nat, s: nat, u: nat, e: nat,
                   r: RunSearch)
    requires WellFormed(cat, levels) && NodesExist(cat, levels[0])
    requires s == Start(cat, levels[0], LandingLeaf(cat, levels, parent))
    requires var rs := Flat(cat, levels[0]);
             && Ascending(rs) && s <= u <= e <= |rs| && u < |rs|
             && Passed(rs, u, e, rs[u].fnum, rec => IsFolder(rec, id))
             && rs[u].fnum >= parent % 0x1_0000 && (forall i :: s <= i < u ==> rs[i].fnum < parent % 0x1_0000)
             && (r.Hit? ==> e < |rs| && r.rec == rs[e] && r.rec.fnum == rs[u].fnum && IsFolder(r.rec, id))
             && (r.RunOver? ==> e < |rs| && rs[e].fnum != rs[u].fnum)
             && (r.CatalogOver? ==> e == |rs|)
             && (ChildOf(rs, id, parent, t, d) ==> u <= d)
    ensures var rs := Flat(cat, levels[0]);
            ChildOf(rs, id, parent, t, d) ==>
             !r.CatalogOver? && (r.Hit? <==> ParentIsSeen(cat, levels, parent)) && (r.Hit? ==> r.rec == rs[d])
  {
    hide Start, Flat, LandingLeaf;
    var rs := Flat(cat, levels[0]);
    if ChildOf(rs, id, parent, t, d) {
      assert rs[u].fnum <= rs[d].fnum == parent;
      if rs[u].fnum == parent {
        assert e <= d;
        assert rs[u].fnum <= rs[e].fnum <= rs[d].fnum;
        assert r.Hit?;
        assert forall i :: u <= i < |rs| ==> rs[u].fnum <= rs[i].fnum;
      } else {
        assert parent % 0x1_0000 <= rs[u].fnum < parent;
      }
    }
  }

  /** For a parent ID that fits a word nothing can get in the way. */
  lemma SmallParentIsSeen(cat: Catalog, levels: seq<seq<nat>>, parent: nat)
    requires WellFormed(cat, levels) && NodesExist(cat, levels[0]) && parent < 0x1_0000
    ensures ParentIsSeen(cat, levels, parent)
  {
  }

  // ---------- Listing a folder ----------

  /** What one call delivers: the entry `.`, another entry, or an error. */
  datatype Answer = Fail(error: Error) | Dotted(rec: Rec) | Entry(rec: Rec)

  /** With `rest` still to come: its first record and a position with the others to come, or the end. */
  ghost predicate Answers(cat: Catalog, ids: seq<nat>, fnum: nat, rest: seq<Rec>, r: Answer, next: int)
    requires NodesExist(cat, ids)
  {
    if rest == [] then r == Fail(NoMoreFiles) && next == END
    else r == Entry(rest[0]) && FIRST_POSITION <= next <= END && Pending(cat, ids, Unpack(next), fnum, rest[1..])
  }

  /** One call at a position: the next record to come, the end, or the error of a position without a record. */
  method GoOn(cat: Catalog, start: Position, ghost ids: seq<nat>, ghost fnum: nat, ghost rest: seq<Rec>)
    returns (r: Answer, next: int)
    requires NoRecord(cat, start) || (IsChain(cat, ids) && Pending(cat, ids, start, fnum, rest))
    ensures NoRecord(cat, start) ==> r == Fail(GetRecord(cat, start.node, start.recno).error)
    ensures !NoRecord(cat, start) ==> Answers(cat, ids, fnum, rest, r, next)
    ensures !r.Dotted?
  {
    hide Start, Flat, Run, IsChain;
    var got, pos := NextEntry(cat, start, ids, fnum, rest);
    if got.Err? {
      return Fail(got.error), Pack(pos);
    }
    PackedPending(cat, ids, pos, fnum, rest[1..]);
    return Entry(got.value), Pack(pos);
  }

  /**
   One call with the long `start`. Below 65536 it opens that folder and delivers `.` if the
   folder's own record is seen, otherwise the first visible record. Every other value is taken
   for a position, whatever it was meant to be: a record on any chain of nodes is where the
   listing goes on, and a position that names no record is an error.
   */
  method GetDirEntry(cat: Catalog, start: nat, ghost levels: seq<seq<nat>>, ghost t: nat, ghost d: nat,
                     ghost ids: seq<nat>, ghost fnum: nat, ghost rest: seq<Rec>)
    returns (r: Answer, next: int)
    requires WellFormed(cat, levels) && NodesExist(cat, levels[0]) && cat.headerValid && start <= END
    requires FIRST_POSITION <= start ==>
      NoRecord(cat, Unpack(start)) || (IsChain(cat, ids) && Pending(cat, ids, Unpack(start), fnum, rest))
    ensures FIRST_POSITION <= start && NoRecord(cat, Unpack(start)) ==>
      r == Fail(GetRecord(cat, start / 0x1_0000, start % 0x1_0000).error)
    ensures FIRST_POSITION <= start && !NoRecord(cat, Unpack(start)) ==> Answers(cat, ids, fnum, rest, r, next)
    ensures start < FIRST_POSITION && NoneOf(Flat(cat, levels[0]), start) ==> r == Fail(PathNotFound)
    ensures r.Dotted? ==> start < FIRST_POSITION
    ensures start < FIRST_POSITION && r.Dotted? ==>
      FIRST_POSITION <= next < END && StartsAt(cat, levels[0], Unpack(next), start)
    ensures start < FIRST_POSITION && r.Entry? ==>
      Answers(cat, levels[0], start, Members(Flat(cat, levels[0]), start), r, next)
    ensures start < FIRST_POSITION && Described(Flat(cat, levels[0]), start, t, d) ==>
      var rs := Flat(cat, levels[0]);
      if ParentIsSeen(cat, levels, rs[t].threadParent) then r == Dotted(rs[d])
      else Answers(cat, levels[0], start, Members(rs, start), r, next)
  {
    hide Start, Flat, LandingLeaf, FirstAtLeast, ParentIsSeen, Described, NoneOf, Run, Members, Answers;
    if start >= FIRST_POSITION {
      r, next := GoOn(cat, Unpack(start), ids, fnum, rest);
      return;
    }
    ghost var leaves := levels[0];
    ghost var rs := Flat(cat, leaves);
    assert IsLevel(cat, leaves, Leaf);
    LevelIsChain(cat, leaves, Leaf);
    var opening, pos := OpenFolder(cat, start, levels, t, d);
    if opening.Failed? {
      return Fail(opening.error), Pack(pos);
    }
    PackedPosition(cat, leaves, pos, FirstAtLeast(rs, start));
    if opening.Dot? {
      return Dotted(opening.rec), Pack(pos);
    }
    RunIsFolder(rs, start);
    assert InRun(cat, leaves, pos, FirstAtLeast(rs, start), start, Members(rs, start));
    PackedPending(cat, leaves, pos, start, Members(rs, start));
    r, next := GoOn(cat, pos, leaves, start, Members(rs, start));
  }

  /**
   Listing by repeated calls that begin with a folder ID. A described folder whose ID fits a word
   is listed completely: all its visible records in order and once each, after `.` if its own
   record is seen. An ID of 65536 or more is never opened: the calls list whatever run of records
   its bits name as a position, or end in the error of looking that position up.
   */
  method ListById(cat: Catalog, id: nat, ghost levels: seq<seq<nat>>, ghost t: nat, ghost d: nat,
                  ghost ids: seq<nat>, ghost q: nat)
    returns (dot: Option<Rec>, out: seq<Rec>, error: Error)
    requires WellFormed(cat, levels) && NodesExist(cat, levels[0]) && cat.headerValid && id <= END
    requires FIRST_POSITION <= id < END ==>
      NoRecord(cat, Unpack(id)) || (IsChain(cat, ids) && PositionAt(cat, ids, Unpack(id), q))
    ensures id < FIRST_POSITION && Described(Flat(cat, levels[0]), id, t, d) ==>
      var rs := Flat(cat, levels[0]);
      && out == Members(rs, id) && error == NoMoreFiles
      && dot == (if ParentIsSeen(cat, levels, rs[t].threadParent) then Some(rs[d]) else None)
      && (forall rec :: rec in out <==>
            && rec in rs && rec.fnum == id
            && (rec.kind == Folder || rec.kind == File || (rec.kind == FolderThread && rec.threadParent != 1)))
      && (forall rec :: rec in out ==> multiset(out)[rec] == multiset(rs)[rec]) && IsSubsequence(out, rs)
    ensures id < FIRST_POSITION && NoneOf(Flat(cat, levels[0]), id) ==>
      dot == None && out == [] && error == PathNotFound
    ensures FIRST_POSITION <= id ==> dot == None
    ensures id == 0xffff_ffff ==> out == [] && error == NoMoreFiles
    ensures FIRST_POSITION <= id < END && NoRecord(cat, Unpack(id)) ==>
      && out == []
      && error == if id / 0x1_0000 !in cat.nodes then OutOfRange else if id % 0x1_0000 >= 0x8000 then Outside
                  else NotFound
    ensures FIRST_POSITION <= id < END && !NoRecord(cat, Unpack(id)) ==>
      error == NoMoreFiles && out == Run(Flat(cat, ids), q, Flat(cat, ids)[q].fnum)
  {
    hide Start, Flat, LandingLeaf, FirstAtLeast, ParentIsSeen, Described, NoneOf, Run, Members, Answers;
    ghost var leaves := levels[0];
    MembersExactly(Flat(cat, leaves), id);
    assert IsLevel(cat, leaves, Leaf);
    LevelIsChain(cat, leaves, Leaf);
    hide IsLevel, WellFormed, IsChain;
    ghost var chain, fnum, all := leaves, id, Members(Flat(cat, leaves), id);
    if id == END {
      return None, [], NoMoreFiles;
    }
    if FIRST_POSITION <= id && !NoRecord(cat, Unpack(id)) {
      chain, fnum := ids, Flat(cat, ids)[q].fnum;
      all := Run(Flat(cat, ids), q, fnum);
      assert InRun(cat, ids, Unpack(id), q, fnum, all);
    }
    dot, out := None, [];
    var r, start := GetDirEntry(cat, id, levels, t, d, chain, fnum, all);
    FailsAtTheEnd(cat, chain, fnum, all, r, start);
    if r.Fail? {
      return dot, out, r.error;
    }
    if r.Dotted? {
      dot := Some(r.rec);
      RunIsFolder(Flat(cat, leaves), id);
      assert InRun(cat, leaves, Unpack(start), FirstAtLeast(Flat(cat, leaves), id), id, all);
      PackedPending(cat, leaves, Unpack(start), id, all);
      r, start := GetDirEntry(cat, start, levels, t, d, chain, fnum, all);
    }
    out, error := ListRest(cat, r, start, levels, chain, fnum, all);
  }

  /** An error among the answers of a run is the end of the run. */
  lemma FailsAtTheEnd(cat: Catalog, ids: seq<nat>, fnum: nat, rest: seq<Rec>, r: Answer, next: int)
    requires NodesExist(cat, ids)
    ensures Answers(cat, ids, fnum, rest, r, next) ==> !r.Dotted? && (r.Fail? ==> rest == [] && r.error == NoMoreFiles)
  {
  }

  /** Calling on until an error ends the listing. */
  method ListRest(cat: Catalog, answer: Answer, next: int, ghost levels: seq<seq<nat>>, ghost ids: seq<nat>,
                  ghost fnum: nat, ghost all: seq<Rec>)
    returns (out: seq<Rec>, error: Error)
    requires WellFormed(cat, levels) && NodesExist(cat, levels[0]) && cat.headerValid && IsChain(cat, ids)
    requires Answers(cat, ids, fnum, all, answer, next)
    ensures out == all && error == NoMoreFiles
  {
    hide Start, Flat, LandingLeaf, FirstAtLeast, ParentIsSeen, Described, NoneOf, Run, Members;
    var r, start := answer, next;
    ghost var rest := all;
    out := [];
    while !r.Fail?
      invariant Answers(cat, ids, fnum, rest, r, start) && out + rest == all
      decreases |rest|
    {
      out := out + [r.rec];
      rest := rest[1..];
      PackedPending(cat, ids, Unpack(start), fnum, rest);
      r, start := GetDirEntry(cat, start, levels, 0, 0, ids, fnum, rest);
    }
    error := r.error;
  }

  // ---------- Two folders that are not listed as they should be ----------

  /** A catalog of one leaf with the given number and records. */
  function OneLeaf(number: nat, recs: seq<Rec>): (cat: Catalog)
  {
    Catalog(map[number := Node(Leaf, 0, recs)], true, number)
  }

  lemma OneLeafIsWellFormed(number: nat, recs: seq<Rec>)
    requires 0 < number < NODES && 0 < |recs| <= MAX_RECORDS && Ascending(recs)
    ensures var cat, levels := OneLeaf(number, recs), [[number]];
            && WellFormed(cat, levels) && NodesExist(cat, [number]) && Flat(cat, [number]) == recs
            && Start(cat, [number], 0) == 0 && cat.headerValid
  {
    var cat := OneLeaf(number, recs);
    assert [number][1..] == [];
    assert Flat(cat, [number]) == recs + Flat(cat, []) == recs;
    assert NodeFits(cat, [number], 0, Leaf);
  }

  /**
   Folder 4000 in folder 70000: the low word of 70000 is 4464, and a record of folder 5000 lies
   between, so `.` is missed.
   */
  lemma DotCanBeMissed() returns (cat: Catalog, levels: seq<seq<nat>>)
    ensures WellFormed(cat, levels) && NodesExist(cat, levels[0]) && cat.headerValid
    ensures 4000 < FIRST_POSITION && Described(Flat(cat, levels[0]), 4000, 0, 2)
    ensures !ParentIsSeen(cat, levels, Flat(cat, levels[0])[0].threadParent)
  {
    var recs := [Rec(4000, 0, FolderThread, 70000, 0), Rec(5000, 0, File, 0, 6000), Rec(70000, 0, Folder, 0, 4000)];
    cat, levels := OneLeaf(1, recs), [[1]];
    OneLeafIsWellFormed(1, recs);
    assert recs[1].fnum == 5000;
  }

  /**
   No ID of 65536 or more is safe: for each of them there is a catalog that describes the folder
   and in which listing by its ID finds nothing.
   */
  lemma LargeFolderIsMissed(id: nat) returns (cat: Catalog, levels: seq<seq<nat>>)
    requires FIRST_POSITION <= id <= END
    ensures WellFormed(cat, levels) && NodesExist(cat, levels[0]) && cat.headerValid
    ensures Described(Flat(cat, levels[0]), id, 1, 0)
    ensures Members(Flat(cat, levels[0]), id) != [] && (id == END || NoRecord(cat, Unpack(id)))
  {
    var number := if id / 0x1_0000 == 1 then 2 else 1;
    var recs := [Rec(2, 0, Folder, 0, id), Rec(id, 0, FolderThread, 2, 0)];
    cat, levels := OneLeaf(number, recs), [[number]];
    OneLeafIsWellFormed(number, recs);
    assert recs[1..][0] == recs[1];
  }

  /** Folder 65537 is taken for record 1 of node 1, which belongs to another folder. */
  lemma LargeFolderIsMistaken() returns (cat: Catalog, levels: seq<seq<nat>>)
    ensures WellFormed(cat, levels) && NodesExist(cat, levels[0]) && cat.headerValid
    ensures Described(Flat(cat, levels[0]), 65537, 2, 0)
    ensures PositionAt(cat, levels[0], Unpack(65537), 1)
    ensures var rs := Flat(cat, levels[0]);
            Run(rs, 1, rs[1].fnum) == [Rec(2, 0, File, 0, 300)] && Rec(2, 0, File, 0, 300) !in Members(rs, 65537)
  {
    var file := Rec(2, 0, File, 0, 300);
    var recs := [Rec(2, 0, Folder, 0, 65537), file, Rec(65537, 0, FolderThread, 2, 0)];
    cat, levels := OneLeaf(1, recs), [[1]];
    OneLeafIsWellFormed(1, recs);
    assert IsAt(cat, [1], 1, 1, 0, 1);
    assert Run(recs, 2, 2) == [];
    MembersAreOfFolder(recs, 65537);
  }

  lemma MembersAreOfFolder(rs: seq<Rec>, fnum: nat)
    ensures forall rec :: rec in Members(rs, fnum) ==> rec.fnum == fnum
  {
  }
}
