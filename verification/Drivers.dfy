/**
 The off-screen drivers and workstations of the VDI: reference-counted drivers that are
 loaded on demand, and the table of handles.
 */
module Drivers {

  const MAX_HANDLES := 128

  /** The bitmap organisation that a driver serves or a caller asks for. */
  datatype Organisation = Organisation(colors: int, planes: int, format: int, flags: bv16)

  predicate Matches(has: Organisation, wants: Organisation)
  {
    && has.colors == wants.colors && has.planes == wants.planes && has.format == wants.format
    && has.flags & wants.flags == wants.flags
  }

  /** `loaded` stands for a non-null code pointer, `used` is the sixteen-bit counter. */
  datatype Driver = Driver(info: Organisation, loaded: bool, used: int)

  /** An open workstation: its handle, the driver behind it, and whether its bitmap was allocated. */
  datatype Workstation = Workstation(handle: int, driver: nat, owned: bool)

  /** A table slot: closed, or holding a workstation. */
  datatype Slot = Closed | Open(wk: Workstation)

  /** How many slots hold a workstation of driver `d`. */
  function Live(table: seq<Slot>, d: nat): (n: nat)
    ensures n <= |table|
  {
    if table == [] then 0
    else (if table[0].Open? && table[0].wk.driver == d then 1 else 0) + Live(table[1..], d)
  }

  lemma {:induction false} LiveUpdate(table: seq<Slot>, i: nat, s: Slot, d: nat)
    requires i < |table|
    ensures Live(table[i := s], d) ==
            Live(table, d) - (if table[i].Open? && table[i].wk.driver == d then 1 else 0)
                           + (if s.Open? && s.wk.driver == d then 1 else 0)
    decreases |table|
  {
    var changed := table[i := s];
    if i == 0 {
      assert changed[1..] == table[1..];
    } else {
      assert changed[1..] == table[1..][i - 1 := s];
      LiveUpdate(table[1..], i - 1, s, d);
    }
  }

  /** Answers of the outside world to one call. */
  datatype World = World(loads: nat -> bool, wkMemory: bool, bitmapMemory: bool)

  // ---------- What the calls do, on values ----------

  /** Drivers in search order and the table of workstations. */
  datatype State = State(drivers: seq<Driver>, table: seq<Slot>)

  predicate Usable(d: Driver, i: nat, info: Organisation, loads: nat -> bool)
  {
    Matches(d.info, info) && (d.loaded || loads(i))
  }

  /** The first driver from `i` on that matches and is or can be loaded, or the number of drivers. */
  function FirstUsable(ds: seq<Driver>, info: Organisation, loads: nat -> bool, i: nat): (d: nat)
    requires i <= |ds|
    ensures i <= d <= |ds| && (d < |ds| ==> Usable(ds[d], d, info, loads))
    ensures forall j :: i <= j < d ==> !Usable(ds[j], j, info, loads)
    decreases |ds| - i
  {
    if i == |ds| || Usable(ds[i], i, info, loads) then i else FirstUsable(ds, info, loads, i + 1)
  }

  /** The first closed slot from `i` on, or the size of the table. */
  function FirstClosed(table: seq<Slot>, i: nat): (k: nat)
    requires i <= |table|
    ensures i <= k <= |table| && (k < |table| ==> table[k].Closed?) && forall j :: i <= j < k ==> table[j].Open?
    decreases |table| - i
  {
    if i == |table| || table[i].Closed? then i else FirstClosed(table, i + 1)
  }

  function Referenced(d: Driver): (r: Driver) { Driver(d.info, true, d.used + 1) }

  function Dropped(d: Driver): (r: Driver)
  {
    Driver(d.info, d.loaded && d.used != 1, d.used - 1)
  }

  datatype Op = Create(info: Organisation, ownMemory: bool, world: World) | Delete(handle: int)

  /** No slot is closed or no memory is left for a workstation. */
  predicate NoWorkstation(s: State, world: World)
    requires 1 <= |s.table|
  {
    !world.wkMemory || FirstClosed(s.table, 1) == |s.table|
  }

  /** The driver whose reference the operation loses: the workstation for it could not be made. */
  function Loses(s: State, op: Op): (d: int)
    requires 1 <= |s.table|
    ensures -1 <= d < |s.drivers|
  {
    if op.Delete? then -1
    else
      var d := FirstUsable(s.drivers, op.info, op.world.loads, 0);
      if d < |s.drivers| && NoWorkstation(s, op.world) then d else -1
  }

  /** The handle that the operation returns: 0 for a failure and for closing. */
  function HandleOf(s: State, op: Op): (h: nat)
    requires 1 <= |s.table|
  {
    if op.Delete? || FirstUsable(s.drivers, op.info, op.world.loads, 0) == |s.drivers| ||
       NoWorkstation(s, op.world) || (op.ownMemory && !op.world.bitmapMemory) then 0
    else FirstClosed(s.table, 1) + 1
  }

  /** The state that the operation leaves. */
  function After(s: State, op: Op): (r: State)
    requires 1 <= |s.table|
    ensures |r.table| == |s.table| && |r.drivers| == |s.drivers|
  {
    match op
    case Delete(h) =>
      if 2 <= h <= |s.table| && s.table[h - 1].Open? && s.table[h - 1].wk.driver < |s.drivers| then
        var d := s.table[h - 1].wk.driver;
        State(s.drivers[d := Dropped(s.drivers[d])], s.table[h - 1 := Closed])
      else s
    case Create(info, ownMemory, world) =>
      var d, h := FirstUsable(s.drivers, info, world.loads, 0), HandleOf(s, op);
      if Loses(s, op) >= 0 then s.(drivers := s.drivers[d := Referenced(s.drivers[d])])
      else if h == 0 then s
      else State(s.drivers[d := Referenced(s.drivers[d])], s.table[h - 1 := Open(Workstation(h, d, ownMemory))])
  }

  /** Driver `i` has the colours, planes and format asked for, every flag asked for, and its code. */
  ghost predicate Serves(d: Driver, i: nat, info: Organisation, loads: nat -> bool)
  {
    && d.info.colors == info.colors && d.info.planes == info.planes && d.info.format == info.format
    && d.info.flags & info.flags == info.flags && (d.loaded || loads(i))
  }

  /**
   What an opening means. A handle stands for a workstation whose driver serves the request, as no
   driver in front of it does, and without such a driver there is no handle.
   */
  ghost predicate OpenedRight(s: State, info: Organisation, loads: nat -> bool, handle: int, r: State)
  {
    && (handle != 0 ==>
          && 2 <= handle <= |r.table| && r.table[handle - 1].Open? && r.table[handle - 1].wk.handle == handle
          && var d := r.table[handle - 1].wk.driver;
             && d < |s.drivers| && Serves(s.drivers[d], d, info, loads)
             && forall j :: 0 <= j < d ==> !Serves(s.drivers[j], j, info, loads))
    && ((forall j :: 0 <= j < |s.drivers| ==> !Serves(s.drivers[j], j, info, loads)) ==> handle == 0)
  }

  /** Every opening is served by the first driver that agrees in all that was asked for. */
  lemma OpensRight(s: State, op: Op)
    requires 1 <= |s.table| && op.Create?
    ensures OpenedRight(s, op.info, op.world.loads, HandleOf(s, op), After(s, op))
  {
    hide FirstUsable, FirstClosed, Usable, Serves;
    UsableServes(s.drivers, op.info, op.world.loads);
  }

  /** When an opening fails. */
  ghost predicate CannotOpen(s: State, info: Organisation, ownMemory: bool, world: World)
  {
    || (forall i :: 0 <= i < |s.drivers| ==> !Serves(s.drivers[i], i, info, world.loads))
    || !world.wkMemory || (forall i :: 1 <= i < |s.table| ==> s.table[i].Open?)
    || (ownMemory && !world.bitmapMemory)
  }

  lemma FailsExactly(s: State, op: Op)
    requires 1 <= |s.table| && op.Create?
    ensures HandleOf(s, op) == 0 <==> CannotOpen(s, op.info, op.ownMemory, op.world)
  {
    hide FirstUsable, FirstClosed, Usable, Serves;
    UsableServes(s.drivers, op.info, op.world.loads);
  }

  lemma UsableServes(ds: seq<Driver>, info: Organisation, loads: nat -> bool)
    ensures forall j :: 0 <= j < |ds| ==> (Serves(ds[j], j, info, loads) <==> Usable(ds[j], j, info, loads))
  {
    hide Serves, Usable;
    forall j | 0 <= j < |ds| && Usable(ds[j], j, info, loads) ensures Serves(ds[j], j, info, loads) {
      UsableIsServing(ds[j], j, info, loads);
    }
    forall j | 0 <= j < |ds| && Serves(ds[j], j, info, loads) ensures Usable(ds[j], j, info, loads) {
      ServingIsUsable(ds[j], j, info, loads);
    }
  }

  lemma UsableIsServing(d: Driver, i: nat, info: Organisation, loads: nat -> bool)
    requires Usable(d, i, info, loads)
    ensures Serves(d, i, info, loads)
  {
  }

  lemma ServingIsUsable(d: Driver, i: nat, info: Organisation, loads: nat -> bool)
    requires Serves(d, i, info, loads)
    ensures Usable(d, i, info, loads)
  {
  }

  function AfterAll(s: State, ops: seq<Op>): (r: State)
    requires 1 <= |s.table|
    ensures |r.table| == |s.table| && |r.drivers| == |s.drivers|
  {
    if ops == [] then s else After(AfterAll(s, ops[..|ops| - 1]), ops[|ops| - 1])
  }

  /** How many references of driver `d` a run loses. */
  function Lost(s: State, ops: seq<Op>, d: nat): (n: nat)
    requires 1 <= |s.table|
  {
    if ops == [] then 0
    else
      var front := ops[..|ops| - 1];
      Lost(s, front, d) + if Loses(AfterAll(s, front), ops[|ops| - 1]) == d then 1 else 0
  }

  /**
   A run from state `s0` with the extra references `ex0`: it leaves the state that the operations
   call for, returns their handles, and accounts for every reference that it loses.
   */
  ghost predicate Performed(s0: State, ex0: seq<nat>, ops: seq<Op>, handles: seq<int>, s: State, ex: seq<nat>)
  {
    && 1 <= |s0.table| && |handles| == |ops| && |ex| == |ex0| && s == AfterAll(s0, ops)
    && (forall i :: 0 <= i < |ops| ==> handles[i] == HandleOf(AfterAll(s0, ops[..i]), ops[i]))
    && (forall d :: 0 <= d < |ex| ==> ex[d] == ex0[d] + Lost(s0, ops, d))
  }

  lemma NothingPerformed(s: State, ex: seq<nat>)
    requires 1 <= |s.table|
    ensures Performed(s, ex, [], [], s, ex)
  {
  }

  lemma PerformedOne(s0: State, ex0: seq<nat>, ops: seq<Op>, handles: seq<int>, s: State, ex: seq<nat>,
                     op: Op, s': State, ex': seq<nat>)
    requires Performed(s0, ex0, ops, handles, s, ex) && 1 <= |s.table| && s' == After(s, op)
    requires Loses(s, op) < |ex|
    requires ex' == if Loses(s, op) < 0 then ex else ex[Loses(s, op) := ex[Loses(s, op)] + 1]
    ensures Performed(s0, ex0, ops + [op], handles + [HandleOf(s, op)], s', ex')
  {
    hide After, HandleOf, Loses;
    var all := ops + [op];
    assert all[..|ops|] == ops;
    assert forall i :: 0 <= i < |ops| ==> all[..i] == ops[..i];
  }

  /** In every run, each opening is served as it should be. */
  lemma RunOpensRight(s0: State, ex0: seq<nat>, ops: seq<Op>, handles: seq<int>, s: State, ex: seq<nat>)
    requires |handles| <= |ops| && Performed(s0, ex0, ops[..|handles|], handles, s, ex)
    ensures forall i :: 0 <= i < |handles| && ops[i].Create? ==>
      OpenedRight(AfterAll(s0, ops[..i]), ops[i].info, ops[i].world.loads, handles[i], AfterAll(s0, ops[..i + 1]))
  {
    hide After, HandleOf, OpenedRight;
    var done := ops[..|handles|];
    forall i | 0 <= i < |handles| && ops[i].Create?
      ensures OpenedRight(AfterAll(s0, ops[..i]), ops[i].info, ops[i].world.loads, handles[i],
                          AfterAll(s0, ops[..i + 1]))
    {
      assert done[i] == ops[i] && done[..i] == ops[..i] && ops[..i + 1][..i] == ops[..i];
      OpensRight(AfterAll(s0, ops[..i]), ops[i]);
    }
  }

  // ---------- The manager ----------

  class Manager {
    /** The driver list in search order. */
    var drivers: seq<Driver>
    /** Slot `h - 1` belongs to handle `h`; handle 1 is the screen's. */
    var table: seq<Slot>
    /** References that no workstation accounts for: the one taken at start-up, and those lost. */
    ghost var extra: seq<nat>

    /**
     Every counter is the number of live bitmaps plus the extra references, code is present
     exactly when the counter is positive, and each workstation sits in the slot of its handle.
     */
    ghost predicate Valid()
      reads this
    {
      && |table| == 128 && |extra| == |drivers| && table[0].Closed?
      && (forall d :: 0 <= d < |drivers| ==> drivers[d].used == Live(table, d) + extra[d])
      && (forall d :: 0 <= d < |drivers| ==> (drivers[d].loaded <==> drivers[d].used > 0))
      && (forall i :: 0 <= i < MAX_HANDLES && table[i].Open? ==>
            table[i].wk.handle == i + 1 && table[i].wk.driver < |drivers|)
    }

    constructor (infos: seq<Organisation>)
      ensures Valid() && |drivers| == |infos|
      ensures forall d :: 0 <= d < |drivers| ==> drivers[d] == Driver(infos[d], false, 0) && extra[d] == 0
      ensures table == AllClosed(MAX_HANDLES)
    {
      drivers := Unloaded(infos);
      table := AllClosed(MAX_HANDLES);
      extra := seq(|infos|, _ => 0);
      forall d | 0 <= d < |infos| ensures Live(AllClosed(MAX_HANDLES), d) == 0 { ClosedLive(MAX_HANDLES, d); }
    }

    /** The counter of every driver has room for one more reference. */
    ghost predicate Room()
      reads this
    {
      forall d :: 0 <= d < |drivers| ==> drivers[d].used < 0x7fff
    }

    /** The first matching driver that is or can be loaded gains a reference. */
    method LoadDriver(info: Organisation, loads: nat -> bool) returns (d: int)
      requires Valid() && Room()
      modifies this`drivers, this`extra
      ensures Valid() && -1 <= d < |drivers| == |old(drivers)|
      ensures d < 0 ==> drivers == old(drivers) && extra == old(extra)
      ensures var f := FirstUsable(old(drivers), info, loads, 0); d == if f < |drivers| then f else -1
      ensures d >= 0 ==> Serves(old(drivers)[d], d, info, loads)
      ensures forall j :: 0 <= j < (if d < 0 then |drivers| else d) ==> !Serves(old(drivers)[j], j, info, loads)
      ensures d >= 0 ==>
        && drivers == old(drivers)[d := Referenced(old(drivers)[d])]
        && extra == old(extra)[d := old(extra)[d] + 1]
    {
      hide Live, Matches, Serves;
      UsableServes(drivers, info, loads);
      for i := 0 to |drivers|
        invariant drivers == old(drivers) && extra == old(extra)
        invariant FirstUsable(drivers, info, loads, 0) == FirstUsable(drivers, info, loads, i)
      {
        if Matches(drivers[i].info, info) {
          var code := drivers[i].loaded || loads(i);
          if code {
            drivers := drivers[i := Driver(drivers[i].info, true, drivers[i].used + 1)];
            extra := extra[i := extra[i] + 1];
            return i;
          }
        }
      }
      d := -1;
    }

    /** Drops one reference; the last one takes the code with it. */
    method UnloadDriver(d: nat)
      requires d < |drivers|
      modifies this`drivers
      ensures drivers == old(drivers)[d := Dropped(old(drivers)[d])]
    {
      var used := drivers[d].used - 1;
      drivers := drivers[d := drivers[d].(used := used)];
      if drivers[d].used == 0 {
        drivers := drivers[d := drivers[d].(loaded := false)];
      }
    }

    /** The first closed slot from handle 2 on receives a new workstation. */
    method CreateWk(d: nat, memory: bool) returns (handle: int)
      requires |table| == MAX_HANDLES
      modifies this`table
      ensures handle == 0 || 2 <= handle <= MAX_HANDLES
      ensures handle == 0 ==> table == old(table)
      ensures handle == 0 <==> !memory || forall i :: 1 <= i < MAX_HANDLES ==> old(table)[i].Open?
      ensures handle != 0 ==>
        && old(table)[handle - 1].Closed? && (forall i :: 1 <= i < handle - 1 ==> old(table)[i].Open?)
        && table == old(table)[handle - 1 := Open(Workstation(handle, d, false))]
    {
      for h := 2 to MAX_HANDLES + 1
        invariant forall i :: 1 <= i < h - 1 ==> table[i].Open?
        invariant table == old(table)
      {
        if table[h - 1].Closed? {
          if !memory {
            return 0;
          }
          table := table[h - 1 := Open(Workstation(h, d, false))];
          return h;
        }
      }
      return 0;
    }

    /** Closes the slot of a workstation if it really sits there. */
    method DeleteWk(wk: Workstation) returns (ok: bool)
      requires |table| == MAX_HANDLES && 1 <= wk.handle <= MAX_HANDLES
      modifies this`table
      ensures ok <==> old(table)[wk.handle - 1] == Open(wk)
      ensures table == if ok then old(table)[wk.handle - 1 := Closed] else old(table)
    {
      ok := table[wk.handle - 1] == Open(wk);
      if ok {
        table := table[wk.handle - 1 := Closed];
      }
    }

    /** A workstation for a reference that has just been taken accounts for it; without one it is lost. */
    method Attach(d: nat, memory: bool) returns (handle: int)
      requires Valid() && d < |drivers| && extra[d] > 0
      modifies this`table, this`extra
      ensures Valid() && (handle == 0 || 2 <= handle <= MAX_HANDLES)
      ensures handle == 0 ==> table == old(table) && extra == old(extra)
      ensures handle == 0 <==> !memory || FirstClosed(old(table), 1) == MAX_HANDLES
      ensures handle != 0 ==>
        && handle - 1 == FirstClosed(old(table), 1) && extra == old(extra)[d := old(extra)[d] - 1]
        && table == old(table)[handle - 1 := Open(Workstation(handle, d, false))]
    {
      handle := CreateWk(d, memory);
      if handle != 0 {
        forall k | 0 <= k < |drivers|
          ensures Live(table, k) == Live(old(table), k) + if k == d then 1 else 0
        {
          LiveUpdate(old(table), handle - 1, table[handle - 1], k);
        }
        extra := extra[d := extra[d] - 1];
      }
    }

    /** Drops a workstation's driver reference, then the workstation. */
    method Release(handle: int)
      requires Valid() && 2 <= handle <= MAX_HANDLES && table[handle - 1].Open?
      modifies this`drivers, this`table
      ensures Valid() && table == old(table)[handle - 1 := Closed]
      ensures old(table)[handle - 1].wk.driver < |old(drivers)|
      ensures var d := old(table)[handle - 1].wk.driver;
              drivers == old(drivers)[d := Dropped(old(drivers)[d])]
    {
      var wk := table[handle - 1].wk;
      UnloadDriver(wk.driver);
      forall k | 0 <= k < |drivers|
        ensures Live(table[handle - 1 := Closed], k) == Live(table, k) - if k == wk.driver then 1 else 0
      {
        LiveUpdate(table, handle - 1, Closed, k);
      }
      var ok := DeleteWk(wk);
    }

    ghost function Now(): (s: State)
      reads this
    {
      State(drivers, table)
    }

    /**
     Opens a bitmap. It fails exactly when no driver matches and can be loaded, no workstation
     can be made, or the bitmap's own memory is refused. A failure to make the workstation loses
     the reference that was taken for it, so the counter can only be too high; a failure to
     allocate the bitmap undoes everything.
     */
    method CreateBitmap(info: Organisation, ownMemory: bool, world: World) returns (handle: int)
      requires Valid() && Room()
      modifies this
      ensures Valid() && Now() == After(old(Now()), Create(info, ownMemory, world))
      ensures handle == HandleOf(old(Now()), Create(info, ownMemory, world))
      ensures OpenedRight(old(Now()), info, world.loads, handle, Now())
      ensures handle == 0 <==> CannotOpen(old(Now()), info, ownMemory, world)
      ensures var d := Loses(old(Now()), Create(info, ownMemory, world));
              extra == if d < 0 then old(extra) else old(extra)[d := old(extra)[d] + 1]
    {
      hide Live, Serves, Usable, FirstUsable, FirstClosed, OpenedRight, CannotOpen;
      ghost var s := Now();
      OpensRight(s, Create(info, ownMemory, world));
      FailsExactly(s, Create(info, ownMemory, world));
      var d := LoadDriver(info, world.loads);
      if d < 0 {
        return 0;
      }
      handle := Attach(d, world.wkMemory);
      if handle == 0 || !ownMemory {
        return;
      }
      if world.bitmapMemory {
        Own(handle);
      } else {
        assert Dropped(Referenced(s.drivers[d])) == s.drivers[d];
        Release(handle);
        assert drivers == s.drivers && table == s.table;
        handle := 0;
      }
    }

    /** Marks the bitmap of a workstation as allocated. */
    method Own(handle: int)
      requires Valid() && 2 <= handle <= MAX_HANDLES && table[handle - 1].Open?
      modifies this`table
      ensures Valid() && table == old(table)[handle - 1 := Open(old(table)[handle - 1].wk.(owned := true))]
    {
      var wk := table[handle - 1].wk.(owned := true);
      forall k | 0 <= k < |drivers|
        ensures Live(table[handle - 1 := Open(wk)], k) == Live(table, k)
      {
        LiveUpdate(table, handle - 1, Open(wk), k);
      }
      table := table[handle - 1 := Open(wk)];
    }

    /** Closes a bitmap: its driver loses one reference and its handle becomes free. */
    method DeleteBitmap(handle: int)
      requires Valid() && 2 <= handle <= MAX_HANDLES && table[handle - 1].Open?
      modifies this`drivers, this`table
      ensures Valid() && Now() == After(old(Now()), Delete(handle))
      ensures table[handle - 1].Closed?
    {
      Release(handle);
    }

    /** Closing undoes opening: a bitmap that is opened and closed again leaves no trace. */
    method OpenAndClose(info: Organisation, ownMemory: bool, world: World) returns (success: bool)
      requires Valid() && Room()
      modifies this
      ensures success <==> HandleOf(old(Now()), Create(info, ownMemory, world)) != 0
      ensures Valid() && (success ==> Now() == old(Now()) && extra == old(extra))
      ensures !success ==> Now() == After(old(Now()), Create(info, ownMemory, world))
    {
      hide Live, Matches, FirstUsable, FirstClosed;
      ghost var s := Now();
      var handle := CreateBitmap(info, ownMemory, world);
      success := handle != 0;
      if success {
        ghost var d := FirstUsable(s.drivers, info, world.loads, 0);
        assert Dropped(Referenced(s.drivers[d])) == s.drivers[d];
        assert s.table[handle - 1].Closed?;
        DeleteBitmap(handle);
        assert drivers == s.drivers && table == s.table;
      }
    }

    /**
     Any run of openings and closings while the counters have room: the state and every handle
     are those that the operations call for, the invariant holds, and the references that no
     workstation accounts for are exactly those that the run has lost. A run ends early only
     after tens of thousands of them.
     */
    method Run(ops: seq<Op>) returns (handles: seq<int>)
      requires Valid()
      modifies this
      ensures Valid() && |handles| <= |ops|
      ensures Performed(old(Now()), old(extra), ops[..|handles|], handles, Now(), extra)
      ensures forall i :: 0 <= i < |handles| && ops[i].Create? ==>
        OpenedRight(AfterAll(old(Now()), ops[..i]), ops[i].info, ops[i].world.loads, handles[i],
                    AfterAll(old(Now()), ops[..i + 1]))
      ensures |handles| < |ops| ==> exists d :: 0 <= d < |drivers| && extra[d] >= 0x7fff - MAX_HANDLES
    {
      hide Live, Performed, OpenedRight, After, AfterAll, HandleOf, Loses;
      handles := [];
      NothingPerformed(Now(), extra);
      assert ops[..0] == [];
      while |handles| < |ops|
        invariant Valid() && |handles| <= |ops|
        invariant Performed(old(Now()), old(extra), ops[..|handles|], handles, Now(), extra)
        decreases |ops| - |handles|
      {
        if d :| 0 <= d < |drivers| && drivers[d].used >= 0x7fff {
          assert extra[d] >= 0x7fff - MAX_HANDLES;
          break;
        }
        var op := ops[|handles|];
        ghost var s, ex := Now(), extra;
        var handle := Perform(op);
        PerformedOne(old(Now()), old(extra), ops[..|handles|], handles, s, ex, op, Now(), extra);
        assert ops[..|handles| + 1] == ops[..|handles|] + [op];
        handles := handles + [handle];
      }
      RunOpensRight(old(Now()), old(extra), ops, handles, Now(), extra);
    }

    /** One operation; closing a handle that is not open does nothing. */
    method Perform(op: Op) returns (handle: int)
      requires Valid() && Room()
      modifies this
      ensures Valid() && Now() == After(old(Now()), op) && handle == HandleOf(old(Now()), op)
      ensures var d := Loses(old(Now()), op);
              extra == if d < 0 then old(extra) else old(extra)[d := old(extra)[d] + 1]
    {
      hide Live, Matches, FirstUsable, FirstClosed;
      handle := 0;
      match op {
        case Create(info, ownMemory, world) =>
          handle := CreateBitmap(info, ownMemory, world);
        case Delete(h) =>
          if 2 <= h <= MAX_HANDLES && table[h - 1].Open? {
            DeleteBitmap(h);
          }
      }
    }
  }

  function Unloaded(infos: seq<Organisation>): (ds: seq<Driver>)
    ensures |ds| == |infos| && forall i :: 0 <= i < |ds| ==> ds[i] == Driver(infos[i], false, 0)
  {
    if infos == [] then [] else [Driver(infos[0], false, 0)] + Unloaded(infos[1..])
  }

  function AllClosed(n: nat): (t: seq<Slot>)
    ensures |t| == n && forall i :: 0 <= i < n ==> t[i].Closed?
  {
    if n == 0 then [] else [Closed] + AllClosed(n - 1)
  }

  lemma {:induction false} ClosedLive(n: nat, d: nat)
    ensures Live(AllClosed(n), d) == 0
  {
    if n > 0 {
      ClosedLive(n - 1, d);
    }
  }
}
