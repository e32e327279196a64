/**
 The HFS catalog: descending the B*-tree with its lagging child pointer, finding the
 records of a folder, and enumerating them along the leaf links.
 */
module HfsCatalog {

  datatype RecordType = Folder | File | FolderThread | FileThread

  /**
   A record: the parent ID of its key, the low word of the child pointer (of meaning in index
   nodes), its type, the parent that a thread names, and an identification.
   */
  datatype Rec = Rec(fnum: nat, child: nat, kind: RecordType, threadParent: nat, id: nat)

  datatype NodeType = Index | Leaf | Header | Map

  datatype Node = Node(kind: NodeType, next: nat, recs: seq<Rec>)

  /** The catalog file as nodes by number; node 0 holds the header, which names the root. */
  datatype Catalog = Catalog(nodes: map<nat, Node>, headerValid: bool, root: nat)

  /** `Outside` stands for reading an offset table beyond its node. */
  datatype Error = BadHeader | OutOfRange | NotFound | PathNotFound | NoMoreFiles | Outside

  datatype Result<T> = Ok(value: T) | Err(error: Error)

  /** Node numbers and links are cut to a word. */
  const NODES := 0x1_0000

  /** What fits the 512 bytes of a node besides its descriptor and the last offset. */
  const MAX_RECORDS := 248

  /** The descriptor of a node and one of its records; record numbers are signed words. */
  function GetRecord(cat: Catalog, node: nat, recno: nat): (r: Result<(Node, Rec)>)
  {
    if node !in cat.nodes then Err(OutOfRange)
    else if recno >= 0x8000 then Err(Outside)
    else if recno >= |cat.nodes[node].recs| then Err(NotFound)
    else Ok((cat.nodes[node], cat.nodes[node].recs[recno]))
  }

  /** The position behind a record: in the same node, or at the start of the next one. */
  function NextRec(current: Node, link: nat, recno: nat): (r: (nat, nat))
  {
    if recno + 1 >= |current.recs| then (current.next % NODES, 0) else (link, recno + 1)
  }

  // ---------- A level of the tree as one sequence of records ----------

  ghost predicate NodesExist(cat: Catalog, ids: seq<nat>)
  {
    forall k :: 0 <= k < |ids| ==> ids[k] in cat.nodes
  }

  /** All records of the given nodes in order. */
  ghost function Flat(cat: Catalog, ids: seq<nat>): (rs: seq<Rec>)
    requires NodesExist(cat, ids)
  {
    if ids == [] then [] else cat.nodes[ids[0]].recs + Flat(cat, ids[1..])
  }

  /** How many records lie in front of node `k`. */
  ghost function Start(cat: Catalog, ids: seq<nat>, k: nat): (n: nat)
    requires NodesExist(cat, ids) && k <= |ids|
    decreases k
  {
    if k == 0 then 0 else |cat.nodes[ids[0]].recs| + Start(cat, ids[1..], k - 1)
  }

  lemma {:induction false} FlatAt(cat: Catalog, ids: seq<nat>, k: nat)
    requires NodesExist(cat, ids) && k < |ids|
    ensures var recs := cat.nodes[ids[k]].recs;
            && Start(cat, ids, k + 1) == Start(cat, ids, k) + |recs| <= |Flat(cat, ids)|
            && Flat(cat, ids)[Start(cat, ids, k)..Start(cat, ids, k + 1)] == recs
    decreases k
  {
    var first := cat.nodes[ids[0]].recs;
    if k == 0 {
      assert Start(cat, ids[1..], 0) == 0;
    } else {
      FlatAt(cat, ids[1..], k - 1);
      var rest := Flat(cat, ids[1..]);
      var a, b := Start(cat, ids[1..], k - 1), Start(cat, ids[1..], k);
      assert Start(cat, ids, k) == |first| + a && Start(cat, ids, k + 1) == |first| + b;
      assert ids[1..][k - 1] == ids[k];
      ShiftedSlice(first, rest, a, b);
    }
  }

  lemma ShiftedSlice(first: seq<Rec>, rest: seq<Rec>, a: nat, b: nat)
    requires a <= b <= |rest|
    ensures (first + rest)[|first| + a..|first| + b] == rest[a..b]
  {
  }

  lemma {:induction false} StartOfEnd(cat: Catalog, ids: seq<nat>)
    requires NodesExist(cat, ids)
    ensures Start(cat, ids, |ids|) == |Flat(cat, ids)|
    decreases |ids|
  {
    if ids != [] {
      StartOfEnd(cat, ids[1..]);
    }
  }

  ghost predicate Ascending(rs: seq<Rec>)
  {
    forall i, j :: 0 <= i <= j < |rs| ==> rs[i].fnum <= rs[j].fnum
  }

  /** Node `k` of a chain has a number that fits a word, is not empty and links to its successor. */
  ghost predicate Linked(cat: Catalog, ids: seq<nat>, k: nat)
    requires k < |ids| && ids[k] in cat.nodes
  {
    var node := cat.nodes[ids[k]];
    && 0 < ids[k] < NODES && 0 < |node.recs| <= MAX_RECORDS
    && node.next == if k + 1 < |ids| then ids[k + 1] else 0
  }

  /** Nodes that link to each other, up to one that links to none. */
  ghost predicate IsChain(cat: Catalog, ids: seq<nat>)
  {
    ids != [] && NodesExist(cat, ids) && forall k :: 0 <= k < |ids| ==> Linked(cat, ids, k)
  }

  ghost predicate NodeFits(cat: Catalog, ids: seq<nat>, k: nat, kind: NodeType)
    requires k < |ids| && ids[k] in cat.nodes
  {
    cat.nodes[ids[k]].kind == kind && Linked(cat, ids, k)
  }

  lemma LevelIsChain(cat: Catalog, ids: seq<nat>, kind: NodeType)
    requires IsLevel(cat, ids, kind)
    ensures IsChain(cat, ids)
  {
    forall k | 0 <= k < |ids|
      ensures Linked(cat, ids, k)
    {
      assert NodeFits(cat, ids, k, kind);
    }
  }

  /** One level: nodes of one kind, none empty, linked in order, with ascending keys. */
  ghost predicate IsLevel(cat: Catalog, ids: seq<nat>, kind: NodeType)
  {
    && ids != [] && NodesExist(cat, ids)
    && (forall k :: 0 <= k < |ids| ==> NodeFits(cat, ids, k, kind))
    && Ascending(Flat(cat, ids))
  }

  /** The records of `upper` point to the nodes of `lower` in order, each under its first key. */
  ghost predicate PointsTo(cat: Catalog, upper: seq<nat>, lower: seq<nat>)
    requires NodesExist(cat, upper) && NodesExist(cat, lower)
  {
    var rs := Flat(cat, upper);
    && |rs| == |lower|
    && (forall i :: 0 <= i < |rs| ==> rs[i].child == lower[i])
    && (forall i :: 0 <= i < |rs| ==>
          cat.nodes[lower[i]].recs != [] && rs[i].fnum == cat.nodes[lower[i]].recs[0].fnum)
  }

  /** A well-formed catalog, given by its levels from the leaves to the root. */
  ghost predicate WellFormed(cat: Catalog, levels: seq<seq<nat>>)
  {
    && levels != [] && levels[|levels| - 1] == [cat.root]
    && (forall l :: 0 <= l < |levels| ==> IsLevel(cat, levels[l], if l == 0 then Leaf else Index))
    && (forall l :: 1 <= l < |levels| ==> PointsTo(cat, levels[l], levels[l - 1]))
  }

  // ---------- Where the descent lands ----------

  /** The first record with a parent ID of at least `cnid`, or the number of records. */
  ghost function FirstAtLeast(rs: seq<Rec>, cnid: nat): (f: nat)
    ensures f <= |rs| && (f < |rs| ==> rs[f].fnum >= cnid)
    ensures forall i :: 0 <= i < f ==> rs[i].fnum < cnid
  {
    if rs == [] || rs[0].fnum >= cnid then 0 else 1 + FirstAtLeast(rs[1..], cnid)
  }

  /** The record whose child the lagging pointer holds: one before the deciding record. */
  ghost function Landing(rs: seq<Rec>, cnid: nat): (j: nat)
    requires rs != []
    ensures j < |rs|
  {
    var f := FirstAtLeast(rs, cnid);
    var decided := if f < |rs| then f else |rs| - 1;
    if decided == 0 then 0 else decided - 1
  }

  /** The index among the leaves at which the whole descent ends. */
  ghost function LandingLeaf(cat: Catalog, levels: seq<seq<nat>>, cnid: nat): (j: nat)
    requires WellFormed(cat, levels)
    ensures j < |levels[0]|
  {
    if |levels| == 1 then 0
    else
      LevelHasRecords(cat, levels, 1);
      assert PointsTo(cat, levels[1], levels[0]);
      Landing(Flat(cat, levels[1]), cnid)
  }

  lemma LevelHasRecords(cat: Catalog, levels: seq<seq<nat>>, l: nat)
    requires WellFormed(cat, levels) && l < |levels|
    ensures NodesExist(cat, levels[l]) && Flat(cat, levels[l]) != []
  {
    assert IsLevel(cat, levels[l], if l == 0 then Leaf else Index);
    assert NodeFits(cat, levels[l], 0, if l == 0 then Leaf else Index);
    FlatAt(cat, levels[l], 0);
  }

  /** The place of record `r` of node `k` within its level. */
  lemma RecordAt(cat: Catalog, ids: seq<nat>, k: nat, r: nat)
    requires NodesExist(cat, ids) && k < |ids| && r < |cat.nodes[ids[k]].recs|
    ensures Start(cat, ids, k) + r < |Flat(cat, ids)|
    ensures Flat(cat, ids)[Start(cat, ids, k) + r] == cat.nodes[ids[k]].recs[r]
  {
    FlatAt(cat, ids, k);
    var a, b := Start(cat, ids, k), Start(cat, ids, k + 1);
    assert Flat(cat, ids)[a..b][r] == Flat(cat, ids)[a + r];
  }

  /** One step along a level: the next record of the flat sequence, or its end. */
  lemma NextRecAt(cat: Catalog, ids: seq<nat>, k: nat, r: nat) returns (k': nat)
    requires IsChain(cat, ids) && k < |ids| && r < |cat.nodes[ids[k]].recs|
    ensures var (link, r') := NextRec(cat.nodes[ids[k]], ids[k], r);
            var f := Start(cat, ids, k) + r;
            && (link == 0 <==> f + 1 == |Flat(cat, ids)|)
            && (link != 0 ==>
                  && k' < |ids| && link == ids[k'] && r' < |cat.nodes[link].recs|
                  && Start(cat, ids, k') + r' == f + 1)
  {
    assert Linked(cat, ids, k);
    FlatAt(cat, ids, k);
    if r + 1 < |cat.nodes[ids[k]].recs| {
      k' := k;
    } else if k + 1 < |ids| {
      k' := k + 1;
      assert Linked(cat, ids, k + 1);
      FlatAt(cat, ids, k + 1);
    } else {
      k' := k;
      StartOfEnd(cat, ids);
    }
  }

  // ---------- The descent ----------

  /**
   What the lagging pointer holds. After a step along the level: the child of the record
   just left. At the very first record: its own child. Right after a descent: still a node of
   this level, namely the one entered or its successor.
   */
  datatype Phase = Moved | Ready | Entered

  ghost predicate Lags(cat: Catalog, ids: seq<nat>, k: nat, recno: nat, lag: nat, cnid: nat, phase: Phase)
    requires NodesExist(cat, ids) && k < |ids| && Start(cat, ids, k) + recno < |Flat(cat, ids)|
  {
    var rs, f := Flat(cat, ids), Start(cat, ids, k) + recno;
    match phase
    case Moved => f > 0 && lag == rs[f - 1].child
    case Ready => f == 0 && lag == rs[0].child
    case Entered =>
      && recno == 0
      && ((k == 0 && lag == ids[0]) || (k + 1 < |ids| && lag == ids[k + 1] && rs[f].fnum < cnid))
  }

  /** The state of the descent: record `recno` of node `k` of level `l`, all before it below `cnid`. */
  ghost predicate Descending(cat: Catalog, levels: seq<seq<nat>>, cnid: nat, l: nat, k: nat, recno: nat, lag: nat,
                             phase: Phase)
    requires WellFormed(cat, levels)
  {
    && l < |levels| && k < |levels[l]| && NodesExist(cat, levels[l])
    && recno < |cat.nodes[levels[l][k]].recs|
    && var rs, f := Flat(cat, levels[l]), Start(cat, levels[l], k) + recno;
    && f < |rs| && rs[f] == cat.nodes[levels[l][k]].recs[recno]
    && (forall i :: 0 <= i < f ==> rs[i].fnum < cnid)
    && (l == 0 ==> recno == 0 && k == LandingLeaf(cat, levels, cnid))
    && (l > 0 ==> Lags(cat, levels[l], k, recno, lag, cnid, phase))
  }

  ghost function Todo(cat: Catalog, ids: seq<nat>, k: nat, recno: nat): (n: int)
    requires NodesExist(cat, ids) && k <= |ids|
  {
    |Flat(cat, ids)| - Start(cat, ids, k) - recno
  }

  lemma LandingAt(rs: seq<Rec>, f: nat, cnid: nat)
    requires f < |rs| && (forall i :: 0 <= i < f ==> rs[i].fnum < cnid)
    requires rs[f].fnum >= cnid || f + 1 == |rs|
    ensures Landing(rs, cnid) == if f == 0 then 0 else f - 1
  {
    var first := FirstAtLeast(rs, cnid);
    assert first >= f;
    assert rs[f].fnum >= cnid ==> first == f;
  }

  /** Following the pointer from a deciding record enters the right node one level down. */
  lemma EnterBelow(cat: Catalog, levels: seq<seq<nat>>, cnid: nat, l: nat, k: nat, recno: nat, lag: nat, phase: Phase)
    returns (j: nat)
    requires WellFormed(cat, levels) && Descending(cat, levels, cnid, l, k, recno, lag, phase)
    requires l > 0 && !phase.Entered?
    requires var rs, f := Flat(cat, levels[l]), Start(cat, levels[l], k) + recno;
             rs[f].fnum >= cnid || f + 1 == |rs|
    ensures j < |levels[l - 1]| && lag == levels[l - 1][j]
    ensures var rs, f := Flat(cat, levels[l]), Start(cat, levels[l], k) + recno;
            Descending(cat, levels, cnid, l - 1, j, 0, rs[f].child, Entered)
  {
    hide Landing, Start, Flat;
    var rs, f := Flat(cat, levels[l]), Start(cat, levels[l], k) + recno;
    var lower := levels[l - 1];
    var kind := if l - 1 == 0 then Leaf else Index;
    j := Landing(rs, cnid);
    assert PointsTo(cat, levels[l], lower) && IsLevel(cat, lower, kind);
    LandingAt(rs, f, cnid);
    assert NodeFits(cat, lower, j, kind);
    RecordAt(cat, lower, j, 0);
    FlatAt(cat, lower, j);
    var below, s := Flat(cat, lower), Start(cat, lower, j);
    if j > 0 {
      assert below[s].fnum == rs[j].fnum < cnid;
    } else {
      StartOfFirst(cat, lower);
    }
    if f > 0 { assert below[s].fnum == rs[f - 1].fnum < cnid; }
  }

  lemma EnterRoot(cat: Catalog, levels: seq<seq<nat>>, cnid: nat)
    requires WellFormed(cat, levels)
    ensures cat.root < NODES && cat.root in cat.nodes && 0 < |cat.nodes[cat.root].recs| <= MAX_RECORDS
    ensures Descending(cat, levels, cnid, |levels| - 1, 0, 0, cat.nodes[cat.root].recs[0].child, Ready)
    ensures cat.nodes[cat.root].kind == if |levels| == 1 then Leaf else Index
  {
    var l := |levels| - 1;
    var kind := if l == 0 then Leaf else Index;
    assert IsLevel(cat, levels[l], kind) && NodeFits(cat, levels[l], 0, kind);
    RecordAt(cat, levels[l], 0, 0);
  }

  /** The node and record that one pass of the loop goes to. */
  function Target(current: Node, node: nat, recno: nat, lag: nat, cnid: nat): (t: (nat, nat))
    requires recno < |current.recs|
  {
    var (link, next) := NextRec(current, node, recno);
    if current.recs[recno].fnum >= cnid || link == 0 then (lag, 0) else (link, next)
  }

  /** One pass of the loop: along the level, once more to the same node, or one level down. */
  lemma StepDescent(cat: Catalog, levels: seq<seq<nat>>, cnid: nat, l: nat, k: nat, recno: nat, lag: nat, phase: Phase)
    returns (l': nat, k': nat, phase': Phase)
    requires WellFormed(cat, levels) && Descending(cat, levels, cnid, l, k, recno, lag, phase) && l > 0
    ensures var current := cat.nodes[levels[l][k]];
            var t := Target(current, levels[l][k], recno, lag, cnid);
            && Descending(cat, levels, cnid, l', k', t.1, current.recs[recno].child, phase')
            && levels[l'][k'] == t.0
            && (l' < l || (l' == l &&
                 (Todo(cat, levels[l], k', t.1) < Todo(cat, levels[l], k, recno) ||
                  (Todo(cat, levels[l], k', t.1) == Todo(cat, levels[l], k, recno)
                   && phase.Entered? && !phase'.Entered?))))
  {
    hide LandingLeaf, Landing, Start, Flat, IsLevel, PointsTo;
    var ids := levels[l];
    var rs, f := Flat(cat, ids), Start(cat, ids, k) + recno;
    assert IsLevel(cat, ids, Index);
    LevelIsChain(cat, ids, Index);
    var next := NextRecAt(cat, ids, k, recno);
    if rs[f].fnum < cnid && f + 1 < |rs| {
      l', k', phase' := l, next, Moved;
      RecordAt(cat, ids, k', Target(cat.nodes[ids[k]], ids[k], recno, lag, cnid).1);
    } else if phase.Entered? {
      LastNodeEntered(cat, ids, k);
      StartOfFirst(cat, ids);
      l', k', phase' := l, 0, Ready;
    } else {
      k' := EnterBelow(cat, levels, cnid, l, k, recno, lag, phase);
      l', phase' := l - 1, Entered;
    }
  }

  lemma StartOfFirst(cat: Catalog, ids: seq<nat>)
    requires NodesExist(cat, ids)
    ensures Start(cat, ids, 0) == 0
  {
  }

  /** A node with a successor does not hold the last record of its level. */
  lemma LastNodeEntered(cat: Catalog, ids: seq<nat>, k: nat)
    requires IsLevel(cat, ids, Index) && k < |ids|
    ensures k + 1 < |ids| ==> Start(cat, ids, k) + 1 < |Flat(cat, ids)|
  {
    assert NodeFits(cat, ids, k, Index);
    FlatAt(cat, ids, k);
    if k + 1 < |ids| {
      assert NodeFits(cat, ids, k + 1, Index);
      FlatAt(cat, ids, k + 1);
    }
  }

  /**
   The descent ends at a leaf in closed form: one leaf before the first whose first key
   reaches `cnid`, or one before the last if there is none such, or the first leaf.
   */
  method FindLeafNode(cat: Catalog, cnid: nat, ghost levels: seq<seq<nat>>) returns (r: Result<nat>)
    requires WellFormed(cat, levels)
    ensures !cat.headerValid ==> r == Err(BadHeader)
    ensures cat.headerValid ==> r == Ok(levels[0][LandingLeaf(cat, levels, cnid)])
  {
    if !cat.headerValid {
      return Err(BadHeader);
    }
    var node, recno := cat.root % NODES, 0;
    var got := GetRecord(cat, node, recno);
    EnterRoot(cat, levels, cnid);
    var current, p := got.value.0, got.value.1;
    var lag := p.child;
    ghost var l: nat, k: nat, phase := |levels| - 1, 0, Ready;
    while current.kind == Index
      invariant Descending(cat, levels, cnid, l, k, recno, lag, phase)
      invariant node == levels[l][k] && current == cat.nodes[node] && p == current.recs[recno]
      invariant current.kind == if l == 0 then Leaf else Index
      decreases l, Todo(cat, levels[l], k, recno), phase.Entered?
    {
      ghost var l', k', phase' := StepDescent(cat, levels, cnid, l, k, recno, lag, phase);
      var (link, next) := NextRec(current, node, recno);
      if p.fnum >= cnid || link == 0 {
        node, recno := lag, 0;
      } else {
        node, recno := link, next;
      }
      lag := p.child;
      l, k, phase := l', k', phase';
      KindOf(cat, levels, l, k);
      got := GetRecord(cat, node, recno);
      current, p := got.value.0, got.value.1;
    }
    return Ok(node);
  }

  lemma KindOf(cat: Catalog, levels: seq<seq<nat>>, l: nat, k: nat)
    requires WellFormed(cat, levels) && l < |levels| && k < |levels[l]|
    ensures levels[l][k] in cat.nodes && cat.nodes[levels[l][k]].kind == if l == 0 then Leaf else Index
    ensures |cat.nodes[levels[l][k]].recs| <= MAX_RECORDS
  {
    assert IsLevel(cat, levels[l], if l == 0 then Leaf else Index);
    assert NodeFits(cat, levels[l], k, if l == 0 then Leaf else Index);
  }

  /** The descent is a sound lower bound: no leaf before the one it returns holds a record to look at. */
  lemma DescentIsLowerBound(cat: Catalog, levels: seq<seq<nat>>, cnid: nat, k: nat, r: nat)
    requires WellFormed(cat, levels) && k < LandingLeaf(cat, levels, cnid) && NodesExist(cat, levels[0])
    requires r < |cat.nodes[levels[0][k]].recs|
    ensures cat.nodes[levels[0][k]].recs[r].fnum < cnid
  {
    var ids, j := levels[0], LandingLeaf(cat, levels, cnid);
    var rs := Flat(cat, levels[1]);
    assert IsLevel(cat, ids, Leaf) && PointsTo(cat, levels[1], ids);
    assert rs[j].fnum < cnid;
    assert NodeFits(cat, ids, j, Leaf);
    RecordAt(cat, ids, j, 0);
    RecordAt(cat, ids, k, r);
    StartAscends(cat, ids, k, j);
    FlatAt(cat, ids, k);
  }

  lemma {:induction false} StartAscends(cat: Catalog, ids: seq<nat>, a: nat, b: nat)
    requires NodesExist(cat, ids) && a < b <= |ids|
    ensures Start(cat, ids, a + 1) <= Start(cat, ids, b)
    decreases b - a
  {
    if a + 1 < b {
      FlatAt(cat, ids, a + 1);
      StartAscends(cat, ids, a + 1, b);
    }
  }

  // ---------- Finding the first record of a folder ----------

  /** A position among the leaves: node number and record number, as they are packed into one long. */
  datatype Position = At(node: nat, recno: nat) | Finished

  /** `pos` names flat record `q` of the leaf level, which is record `recno` of leaf `k`. */
  ghost predicate IsAt(cat: Catalog, ids: seq<nat>, node: nat, recno: nat, k: nat, q: nat)
    requires NodesExist(cat, ids)
  {
    && k < |ids| && node == ids[k] && recno < |cat.nodes[node].recs| <= MAX_RECORDS
    && q == Start(cat, ids, k) + recno < |Flat(cat, ids)|
    && Flat(cat, ids)[q] == cat.nodes[node].recs[recno]
  }

  ghost predicate PositionAt(cat: Catalog, ids: seq<nat>, pos: Position, q: nat)
    requires NodesExist(cat, ids)
  {
    pos.At? && exists k :: IsAt(cat, ids, pos.node, pos.recno, k, q)
  }

  /** Stepping from flat record `q` leads to `q + 1`, or to link 0 at the end. */
  lemma StepAlong(cat: Catalog, ids: seq<nat>, node: nat, recno: nat, k: nat, q: nat) returns (k': nat)
    requires IsChain(cat, ids) && IsAt(cat, ids, node, recno, k, q)
    ensures var (link, r) := NextRec(cat.nodes[node], node, recno);
            && (link == 0 <==> q + 1 == |Flat(cat, ids)|)
            && (link != 0 ==> IsAt(cat, ids, link, r, k', q + 1))
  {
    hide Start, Flat;
    k' := NextRecAt(cat, ids, k, recno);
    var (link, r) := NextRec(cat.nodes[node], node, recno);
    if link != 0 {
      assert Linked(cat, ids, k');
      RecordAt(cat, ids, k', r);
    }
  }

  /** The landing leaf begins at or before the first record to find. */
  lemma LandsInFront(cat: Catalog, levels: seq<seq<nat>>, cnid: nat)
    requires WellFormed(cat, levels) && NodesExist(cat, levels[0])
    ensures var j := LandingLeaf(cat, levels, cnid);
            && IsAt(cat, levels[0], levels[0][j], 0, j, Start(cat, levels[0], j))
            && Start(cat, levels[0], j) <= FirstAtLeast(Flat(cat, levels[0]), cnid)
  {
    var ids, j := levels[0], LandingLeaf(cat, levels, cnid);
    assert IsLevel(cat, ids, Leaf) && NodeFits(cat, ids, j, Leaf);
    RecordAt(cat, ids, j, 0);
    var rs, first := Flat(cat, ids), FirstAtLeast(Flat(cat, ids), cnid);
    if first < Start(cat, ids, j) {
      var k, r := LeafOf(cat, ids, first, j);
      RecordAt(cat, ids, k, r);
      DescentIsLowerBound(cat, levels, cnid, k, r);
    }
  }

  /** The leaf and record number of a flat record in front of leaf `j`. */
  lemma {:induction false} LeafOf(cat: Catalog, ids: seq<nat>, q: nat, j: nat) returns (k: nat, r: nat)
    requires NodesExist(cat, ids) && j <= |ids| && q < Start(cat, ids, j)
    ensures k < j && r < |cat.nodes[ids[k]].recs| && q == Start(cat, ids, k) + r
    decreases j
  {
    FlatAt(cat, ids, j - 1);
    if Start(cat, ids, j - 1) <= q {
      k, r := j - 1, q - Start(cat, ids, j - 1);
    } else {
      k, r := LeafOf(cat, ids, q, j - 1);
    }
  }

  /** The forward search: from flat record `q0` to the first with a parent ID of at least `bound`. */
  method SkipBelow(cat: Catalog, node0: nat, recno0: nat, bound: nat, ghost ids: seq<nat>, ghost k0: nat, ghost q0: nat)
    returns (r: Result<Position>, ghost q: nat)
    requires IsLevel(cat, ids, Leaf) && IsAt(cat, ids, node0, recno0, k0, q0)
    ensures r.Err? ==>
      r.error == PathNotFound && forall i :: q0 <= i < |Flat(cat, ids)| ==> Flat(cat, ids)[i].fnum < bound
    ensures r.Ok? ==>
      && q0 <= q && PositionAt(cat, ids, r.value, q) && Flat(cat, ids)[q].fnum >= bound
      && forall i :: q0 <= i < q ==> Flat(cat, ids)[i].fnum < bound
  {
    hide Start, Flat;
    var node, recno := node0, recno0;
    LevelIsChain(cat, ids, Leaf);
    ghost var k := k0;
    q := q0;
    var got := GetRecord(cat, node, recno);
    var current, p := got.value.0, got.value.1;
    while p.fnum < bound
      invariant q0 <= q && IsAt(cat, ids, node, recno, k, q)
      invariant current == cat.nodes[node] && p == current.recs[recno]
      invariant forall i :: q0 <= i < q ==> Flat(cat, ids)[i].fnum < bound
      decreases |Flat(cat, ids)| - q
    {
      ghost var k' := StepAlong(cat, ids, node, recno, k, q);
      var (link, next) := NextRec(current, node, recno);
      if link == 0 {
        return Err(PathNotFound), q;
      }
      node, recno, k, q := link, next, k', q + 1;
      got := GetRecord(cat, node, recno);
      current, p := got.value.0, got.value.1;
    }
    return Ok(At(node, recno)), q;
  }

  /**
   Descent and forward search together: the position of the first record, in the whole
   catalog, whose parent ID is at least `cnid`; an error exactly when there is none.
   */
  method Locate(cat: Catalog, cnid: nat, ghost levels: seq<seq<nat>>) returns (r: Result<Position>)
    requires WellFormed(cat, levels) && NodesExist(cat, levels[0])
    ensures !cat.headerValid ==> r == Err(BadHeader)
    ensures cat.headerValid ==>
      var rs := Flat(cat, levels[0]);
      var first := FirstAtLeast(rs, cnid);
      && (first == |rs| ==> r == Err(PathNotFound))
      && (first < |rs| ==> r.Ok? && PositionAt(cat, levels[0], r.value, first))
  {
    hide LandingLeaf, Start, Flat;
    ghost var ids := levels[0];
    assert IsLevel(cat, ids, Leaf);
    var leaf := FindLeafNode(cat, cnid, levels);
    if leaf.Err? {
      return Err(leaf.error);
    }
    LandsInFront(cat, levels, cnid);
    ghost var j := LandingLeaf(cat, levels, cnid);
    ghost var q;
    r, q := SkipBelow(cat, leaf.value, 0, cnid, ids, j, Start(cat, ids, j));
    ghost var first := FirstAtLeast(Flat(cat, ids), cnid);
    if r.Ok? {
      assert q == first;
    } else if first < |Flat(cat, ids)| {
      assert false;
    }
  }

  // ---------- Enumerating a folder ----------

  /** Records that make a directory entry; the thread of the root folder is left out. */
  predicate Visible(rec: Rec)
  {
    match rec.kind
    case Folder => true
    case File => true
    case FolderThread => rec.threadParent != 1
    case FileThread => false
  }

  /** The visible records from `q` on that share the parent ID of record `q`. */
  function Run(rs: seq<Rec>, q: nat, fnum: nat): (out: seq<Rec>)
    requires q <= |rs|
    decreases |rs| - q
  {
    if q == |rs| || rs[q].fnum != fnum then []
    else (if Visible(rs[q]) then [rs[q]] else []) + Run(rs, q + 1, fnum)
  }

  /** What is still to come at a position. */
  ghost predicate Pending(cat: Catalog, ids: seq<nat>, pos: Position, fnum: nat, out: seq<Rec>)
    requires NodesExist(cat, ids)
  {
    match pos
    case Finished => out == []
    case At(_, _) => exists q :: InRun(cat, ids, pos, q, fnum, out)
  }

  ghost predicate InRun(cat: Catalog, ids: seq<nat>, pos: Position, q: nat, fnum: nat, out: seq<Rec>)
    requires NodesExist(cat, ids)
  {
    && PositionAt(cat, ids, pos, q)
    && Flat(cat, ids)[q].fnum == fnum && out == Run(Flat(cat, ids), q, fnum)
  }

  predicate NoRecord(cat: Catalog, pos: Position)
  {
    pos.At? && GetRecord(cat, pos.node, pos.recno).Err?
  }

  /**
   One call: the next visible record of the run and the position behind it, or the end. The
   record after the delivered one is read ahead, so that the end is known in time. A position
   that names no record yields the error of looking it up.
   */
  method NextEntry(cat: Catalog, start: Position, ghost ids: seq<nat>, ghost fnum: nat, ghost rest: seq<Rec>)
    returns (r: Result<Rec>, pos: Position)
    requires NoRecord(cat, start) || (IsChain(cat, ids) && Pending(cat, ids, start, fnum, rest))
    ensures NoRecord(cat, start) ==> r == Err(GetRecord(cat, start.node, start.recno).error) && pos == start
    ensures !NoRecord(cat, start) && rest == [] ==> r == Err(NoMoreFiles) && pos == Finished
    ensures !NoRecord(cat, start) && rest != [] ==>
      r == Ok(rest[0]) && IsChain(cat, ids) && Pending(cat, ids, pos, fnum, rest[1..])
  {
    hide Start, Flat;
    pos := start;
    if NoRecord(cat, start) {
      return Err(GetRecord(cat, start.node, start.recno).error), pos;
    }
    ghost var rs, q: nat, k: nat := Flat(cat, ids), 0, 0;
    if pos.At? {
      q :| InRun(cat, ids, pos, q, fnum, rest);
      k :| IsAt(cat, ids, pos.node, pos.recno, k, q);
    }
    while true
      invariant pos.Finished? ==> rest == []
      invariant pos.At? ==> IsAt(cat, ids, pos.node, pos.recno, k, q)
      invariant pos.At? ==> rs[q].fnum == fnum && rest == Run(rs, q, fnum)
      decreases pos.At?, |rs| - q
    {
      if pos.Finished? {
        return Err(NoMoreFiles), pos;
      }
      var got := GetRecord(cat, pos.node, pos.recno);
      var current, rec := got.value.0, got.value.1;
      ghost var k' := StepAlong(cat, ids, pos.node, pos.recno, k, q);
      var (link, next) := NextRec(current, pos.node, pos.recno);
      pos := At(link, next);
      if link == 0 {
        pos := Finished;
      } else {
        var ahead := GetRecord(cat, link, next);
        if ahead.value.1.fnum != rec.fnum {
          pos := Finished;
        }
      }
      assert Run(rs, q, fnum)
          == (if Visible(rec) then [rec] else []) + if pos.Finished? then [] else Run(rs, q + 1, fnum);
      k, q := k', q + 1;
      var done := false;
      match rec.kind {
        case FolderThread => done := rec.threadParent != 1;
        case Folder => done := true;
        case File => done := true;
        case FileThread =>
      }
      if done {
        assert rest[1..] == if pos.Finished? then [] else Run(rs, q, fnum);
        assert pos.At? ==> InRun(cat, ids, pos, q, fnum, rest[1..]);
        return Ok(rec), pos;
      }
    }
  }

  /** Calling until the end returns the whole run, in leaf order and once each. */
  method ListFolder(cat: Catalog, start: Position, ghost ids: seq<nat>, ghost fnum: nat, ghost q: nat)
    returns (out: seq<Rec>)
    requires IsChain(cat, ids) && PositionAt(cat, ids, start, q) && Flat(cat, ids)[q].fnum == fnum
    ensures out == Run(Flat(cat, ids), q, fnum)
  {
    hide Start, Flat;
    ghost var all := Run(Flat(cat, ids), q, fnum);
    ghost var rest := all;
    var pos := start;
    assert InRun(cat, ids, pos, q, fnum, rest);
    out := [];
    while true
      invariant Pending(cat, ids, pos, fnum, rest) && out + rest == all
      decreases |rest|
    {
      var r;
      r, pos := NextEntry(cat, pos, ids, fnum, rest);
      if r.Err? {
        return;
      }
      out := out + [r.value];
      rest := rest[1..];
    }
  }

  /** All records of a catalog that belong to one folder and are visible. */
  function Members(rs: seq<Rec>, fnum: nat): (out: seq<Rec>)
  {
    if rs == [] then []
    else (if rs[0].fnum == fnum && Visible(rs[0]) then [rs[0]] else []) + Members(rs[1..], fnum)
  }

  /** `a` is what is left of `b` when some of its elements are struck out. */
  ghost predicate IsSubsequence(a: seq<Rec>, b: seq<Rec>)
  {
    || a == []
    || (b != [] && (IsSubsequence(a, b[1..]) || (a[0] == b[0] && IsSubsequence(a[1..], b[1..]))))
  }

  /**
   What belongs to a folder: the records with its ID as parent ID that are folders, files, or its
   thread unless that names folder 1 as the parent; each as often as the leaves hold it, and in their order.
   */
  lemma MembersExactly(rs: seq<Rec>, fnum: nat)
    ensures forall rec :: rec in Members(rs, fnum) <==>
      && rec in rs && rec.fnum == fnum
      && (rec.kind == Folder || rec.kind == File || (rec.kind == FolderThread && rec.threadParent != 1))
    ensures forall rec :: rec in Members(rs, fnum) ==> multiset(Members(rs, fnum))[rec] == multiset(rs)[rec]
    ensures IsSubsequence(Members(rs, fnum), rs)
  {
    hide Members, IsSubsequence;
    forall rec
      ensures multiset(Members(rs, fnum))[rec] ==
              if rec.fnum == fnum
                 && (rec.kind == Folder || rec.kind == File || (rec.kind == FolderThread && rec.threadParent != 1))
              then multiset(rs)[rec] else 0
    {
      MemberCount(rs, fnum, rec);
    }
    var all, mine := multiset(rs), multiset(Members(rs, fnum));
    assert forall rec :: (rec in rs <==> all[rec] > 0) && (rec in Members(rs, fnum) <==> mine[rec] > 0);
    MembersInOrder(rs, fnum);
  }

  lemma {:induction false} MemberCount(rs: seq<Rec>, fnum: nat, rec: Rec)
    ensures multiset(Members(rs, fnum))[rec] ==
            if rec.fnum == fnum
               && (rec.kind == Folder || rec.kind == File || (rec.kind == FolderThread && rec.threadParent != 1))
            then multiset(rs)[rec] else 0
  {
    if rs != [] {
      MemberCount(rs[1..], fnum, rec);
      assert rs == [rs[0]] + rs[1..];
    }
  }

  lemma {:induction false} MembersInOrder(rs: seq<Rec>, fnum: nat)
    ensures IsSubsequence(Members(rs, fnum), rs)
  {
    hide Visible;
    if rs != [] {
      MembersInOrder(rs[1..], fnum);
      if rs[0].fnum == fnum && Visible(rs[0]) {
        assert Members(rs, fnum)[1..] == Members(rs[1..], fnum);
      } else {
        assert Members(rs, fnum) == Members(rs[1..], fnum);
      }
    }
  }

  /** Because keys ascend, the run at the first record of a folder is the whole folder. */
  lemma RunIsFolder(rs: seq<Rec>, fnum: nat)
    requires Ascending(rs) && FirstAtLeast(rs, fnum) < |rs| && rs[FirstAtLeast(rs, fnum)].fnum == fnum
    ensures Run(rs, FirstAtLeast(rs, fnum), fnum) == Members(rs, fnum)
  {
    hide FirstAtLeast, Visible, Run, Members;
    MembersFrom(rs, fnum, 0);
    assert rs[0..] == rs;
  }

  /** From `i` on: nothing of the folder before its run, nothing behind it. */
  lemma {:induction false} MembersFrom(rs: seq<Rec>, fnum: nat, i: nat)
    requires Ascending(rs) && i <= |rs|
    ensures var first := FirstAtLeast(rs, fnum);
            Members(rs[i..], fnum) == Run(rs, if i <= first then first else i, fnum)
    decreases |rs| - i
  {
    hide FirstAtLeast, Visible;
    var first := FirstAtLeast(rs, fnum);
    if i < |rs| {
      MembersFrom(rs, fnum, i + 1);
      assert rs[i..][0] == rs[i] && rs[i..][1..] == rs[i + 1..];
      if first <= i && rs[i].fnum != fnum {
        assert rs[i].fnum > fnum by { assert rs[first].fnum <= rs[i].fnum; }
        assert i + 1 < |rs| ==> rs[i + 1].fnum > fnum;
      }
    }
  }
}
