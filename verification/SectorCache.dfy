/**
 The sector cache of the CD file systems: a fixed array of tagged blocks with the
 least recently touched one replaced, in front of devices whose media can change.
 */
module SectorCache {
  import opened Basics
  const BLOCK := 2048
  const INVALID := 0xffff_ffff

  /** What every device holds, block by block. */
  type Media = (int, nat) -> seq<byte>

  ghost predicate WholeBlocks(media: Media)
  {
    forall d, b :: |media(d, b)| == BLOCK
  }

  datatype Entry = Entry(data: seq<byte>, stamp: nat, blkno: nat, device: int)

  /** Byte `a` of a device. */
  ghost function ByteAt(media: Media, device: int, a: nat): (b: byte)
    requires WholeBlocks(media)
  {
    media(device, a / BLOCK)[a % BLOCK]
  }

  /** `buf` holds the bytes of a device from address `adr` on. */
  ghost predicate Delivers(media: Media, device: int, adr: nat, buf: seq<byte>)
    requires WholeBlocks(media)
  {
    forall k :: 0 <= k < |buf| ==> buf[k] == ByteAt(media, device, adr + k)
  }

  /** Answers of the outside world: the n-th transfer's result and the n-th reading of the tick counter. */
  datatype World = World(transfer: nat -> int, ticks: nat -> nat)

  /** A transfer never reports a positive result, and the unbounded tick count never falls. */
  ghost predicate Sane(w: World)
  {
    && (forall n :: w.transfer(n) <= 0)
    && (forall m, n :: m <= n ==> w.ticks(m) <= w.ticks(n))
  }

  /**
   Entry `r` is the one to replace: the first invalidated one if there is one, otherwise one
   touched no later than any other, provided that no entry is 2^32 ticks old.
   */
  ghost predicate IsVictim(entries: seq<Entry>, touched: seq<nat>, now: nat, r: nat)
    requires |touched| == |entries|
  {
    && r < |entries|
    && ((exists i :: 0 <= i < |entries| && entries[i].blkno == INVALID) ==>
          entries[r].blkno == INVALID && forall j :: 0 <= j < r ==> entries[j].blkno != INVALID)
    && (entries[r].blkno != INVALID && (forall i :: 0 <= i < |entries| ==> now - touched[i] < WORD32) ==>
          forall i :: 0 <= i < |entries| ==> touched[r] <= touched[i])
  }

  ghost predicate Holds(entries: seq<Entry>, device: int, blkno: nat)
  {
    exists i :: 0 <= i < |entries| && entries[i].device == device && entries[i].blkno == blkno
  }

  /** All blocks that a request touches are cached. */
  ghost predicate HoldsAll(entries: seq<Entry>, device: int, adr: int, cnt: int)
  {
    forall b: nat :: adr - BLOCK < b * BLOCK < adr + cnt ==> Holds(entries, device, b)
  }

  lemma HoldsRest(before: seq<Entry>, after: seq<Entry>, device: int, at: int, rest: int, n: nat)
    requires SameTags(after, before) && HoldsAll(before, device, at, rest)
    ensures HoldsAll(after, device, at + n, rest - n)
  {
    forall b: nat | at + n - BLOCK < b * BLOCK < at + rest
      ensures Holds(after, device, b)
    {
      assert Holds(before, device, b);
    }
  }

  /** The same blocks are cached in the same entries. */
  ghost predicate SameTags(a: seq<Entry>, b: seq<Entry>)
  {
    |a| == |b| && forall i :: 0 <= i < |a| ==> a[i].device == b[i].device && a[i].blkno == b[i].blkno
  }

  lemma SameTagsTwice(a: seq<Entry>, b: seq<Entry>, c: seq<Entry>, device: int, blkno: nat)
    ensures SameTags(a, a)
    ensures SameTags(b, a) ==> (Holds(b, device, blkno) <==> Holds(a, device, blkno))
    ensures SameTags(b, a) && SameTags(c, b) ==> SameTags(c, a)
  {
  }

  /** Of the transfers `[from, to)` only the last one can have failed, and `err` is its result. */
  ghost predicate TransfersEnd(world: World, from: nat, to: nat, err: int)
  {
    && from <= to && (err != 0 ==> from < to && err == world.transfer(to - 1))
    && forall n :: from <= n < to && (err == 0 || n < to - 1) ==> world.transfer(n) == 0
  }

  lemma LastHasFailed(world: World, from: nat, to: nat, err: int)
    requires TransfersEnd(world, from, to, err)
    ensures from <= to && (err != 0 ==> from <= to - 1 && world.transfer(to - 1) == err)
  {
  }

  class Cache {
    const world: World
    var media: Media
    var transfers: nat
    var polls: nat
    var entries: array<Entry>
    /** The unbounded tick count at which each entry was last touched. */
    ghost var touched: seq<nat>

    /** An entry is a true copy of its block unless it is marked invalid or was never used. */
    ghost predicate Faithful(e: Entry)
      reads this
    {
      e.device != 0 && e.blkno != INVALID ==> e.data == media(e.device, e.blkno)
    }

    /** Everything but the truth of the copies of one device. */
    ghost predicate ValidExcept(device: int)
      reads this, entries
    {
      && entries.Length > 0 && WholeBlocks(media) && Sane(world)
      && |touched| == entries.Length
      && (forall i :: 0 <= i < entries.Length ==> |entries[i].data| == BLOCK)
      && (forall i :: 0 <= i < entries.Length ==>
            entries[i].stamp == touched[i] % WORD32 && touched[i] <= world.ticks(polls))
      && (forall i :: 0 <= i < entries.Length && entries[i].device != device ==> Faithful(entries[i]))
      && (forall i, j :: 0 <= i < j < entries.Length && entries[i].device != 0 && entries[i].blkno != INVALID ==>
            entries[i].device != entries[j].device || entries[i].blkno != entries[j].blkno)
    }

    ghost predicate Valid()
      reads this, entries
    {
      ValidExcept(0)
    }

    /** All entries start zeroed; device 0 is no device. */
    constructor (size: nat, world: World, media: Media, zero: seq<byte>)
      requires size > 0 && WholeBlocks(media) && Sane(world) && |zero| == BLOCK
      ensures Valid() && this.media == media && fresh(entries)
    {
      this.world, this.media, transfers, polls := world, media, 0, 0;
      entries := new Entry[size](_ => Entry(zero, 0, 0, 0));
      touched := seq(size, _ => 0);
    }

    method GetHz() returns (t: nat)
      requires Sane(world)
      modifies this`polls
      ensures polls == old(polls) + 1 && t == world.ticks(polls) % WORD32
    {
      polls := polls + 1;
      t := world.ticks(polls) % WORD32;
    }

    /** Reads `n` blocks; nothing is delivered on an error. */
    method Metaread(device: int, blkno: nat, n: nat) returns (err: int, data: seq<byte>)
      requires WholeBlocks(media) && Sane(world)
      modifies this`transfers
      ensures err <= 0 && err == world.transfer(old(transfers)) && transfers == old(transfers) + 1
      ensures err == 0 ==> |data| == n * BLOCK && Delivers(media, device, blkno * BLOCK, data)
    {
      err := world.transfer(transfers);
      transfers := transfers + 1;
      data := [];
      if err == 0 {
        for i := 0 to n
          invariant |data| == i * BLOCK && Delivers(media, device, blkno * BLOCK, data)
          invariant transfers == old(transfers) + 1
        {
          BlockBytes(media, device, blkno + i);
          data := data + media(device, blkno + i);
        }
      }
    }

    /** Forgets what is cached of a device. */
    method DCClear(device: int)
      requires ValidExcept(device) && device != 0
      modifies entries
      ensures Valid()
      ensures forall i :: 0 <= i < entries.Length ==>
        entries[i] == if old(entries[i]).device == device then old(entries[i]).(blkno := INVALID) else old(entries[i])
    {
      for i := 0 to entries.Length
        invariant forall j :: 0 <= j < entries.Length ==>
          entries[j] == if j < i && old(entries[j]).device == device
                        then old(entries[j]).(blkno := INVALID) else old(entries[j])
      {
        if entries[i].device == device {
          entries[i] := entries[i].(blkno := INVALID);
        }
      }
    }

    /**
     The entry to replace: the first invalidated one if there is one, otherwise one touched
     no later than any other, even across a wrap of the tick counter, as long as no age has
     reached 2^32 ticks.
     */
    method GetFreeBuffer() returns (r: nat)
      requires Valid()
      modifies this`polls
      ensures Valid() && polls == old(polls) + 1
      ensures r < entries.Length && IsVictim(entries[..], touched, world.ticks(polls), r)
    {
      hide IsVictim;
      var current := GetHz();
      var last, oldest, i := -1, 0, 0;
      while i < entries.Length
        invariant 0 <= i <= entries.Length && -1 <= last < i && (i > 0 ==> last >= 0)
        invariant forall j :: 0 <= j < i ==> entries[j].blkno != INVALID
        invariant last >= 0 ==> oldest == (current - entries[last].stamp) % WORD32
        invariant forall j :: 0 <= j < i ==> (current - entries[j].stamp) % WORD32 <= oldest
      {
        var age := (current - entries[i].stamp) % WORD32;
        if entries[i].blkno == INVALID {
          InvalidIsVictim(entries[..], touched, world.ticks(polls), i);
          return i;
        }
        if last < 0 || age > oldest {
          last, oldest := i, age;
        }
        i := i + 1;
      }
      r := last;
      OldestIsFirstTouched(entries[..], touched, world.ticks(polls), r);
    }
  
    /** Looks a block up and, if it is cached, marks it as touched now. */
    method LocateBlock(device: int, blkno: nat) returns (r: int)
      requires Valid() && device != 0 && blkno < INVALID
      modifies this`polls, this`touched, entries
      ensures Valid() && -1 <= r < entries.Length
      ensures r >= 0 <==> old(Cached(device, blkno))
      ensures r < 0 ==> polls == old(polls) && !Cached(device, blkno)
      ensures r >= 0 ==> entries[r].device == device && entries[r].blkno == blkno && touched[r] == world.ticks(polls)
      ensures forall i :: 0 <= i < entries.Length ==>
        && entries[i] == old(entries[i]).(stamp := entries[i].stamp)
        && (i != r ==> entries[i] == old(entries[i]) && touched[i] == old(touched)[i])
      ensures SameTags(entries[..], old(entries[..]))
    {
      for i := 0 to entries.Length
        invariant entries[..] == old(entries[..]) && touched == old(touched) && polls == old(polls)
        invariant forall j :: 0 <= j < i ==> entries[j].device != device || entries[j].blkno != blkno
      {
        if entries[i].device == device && entries[i].blkno == blkno {
          var now := GetHz();
          entries[i] := entries[i].(stamp := now);
          touched := touched[i := world.ticks(polls)];
          return i;
        }
      }
      r := -1;
    }

    ghost predicate Cached(device: int, blkno: nat)
      reads this, entries
    {
      Holds(entries[..], device, blkno)
    }

    /**
     The entry that holds a block. A block that is not cached takes one transfer and is read in
     over the victim; no other entry changes, and none at all if that transfer fails, whose
     error is then the result.
     */
    method GetBlock(device: int, blkno: nat) returns (r: int)
      requires Valid() && device != 0 && blkno < INVALID
      modifies this`polls, this`touched, this`transfers, entries
      ensures Valid() && r < entries.Length
      ensures transfers == old(transfers) + if old(Cached(device, blkno)) then 0 else 1
      ensures r >= 0 <==> old(Cached(device, blkno)) || world.transfer(old(transfers)) == 0
      ensures r < 0 ==> r == world.transfer(old(transfers))
      ensures r >= 0 ==> entries[r].device == device && entries[r].blkno == blkno
      ensures r >= 0 ==> touched[r] == world.ticks(polls)
      ensures forall i :: 0 <= i < entries.Length && i != r ==>
        entries[i] == old(entries[i]) && touched[i] == old(touched)[i]
      ensures old(Cached(device, blkno)) ==> SameTags(entries[..], old(entries[..]))
      ensures r >= 0 && !old(Cached(device, blkno)) ==>
        IsVictim(old(entries[..]), old(touched), world.ticks(old(polls) + 1), r)
    {
      hide IsVictim;
      r := LocateBlock(device, blkno);
      if r >= 0 {
        return;
      }
      assert entries[..] == old(entries[..]) && touched == old(touched);
      var slot := GetFreeBuffer();
      var err, data := Metaread(device, blkno, 1);
      if err != 0 {
        return err;
      }
      BlockBytes(media, device, blkno);
      assert data == media(device, blkno);
      Keep(slot, data, device, blkno);
      return slot;
    }

    /** Stores a block that was not cached over an entry, which is thereby touched. */
    method Keep(slot: nat, data: seq<byte>, device: int, blkno: nat)
      requires Valid() && slot < entries.Length && data == media(device, blkno) && !Cached(device, blkno)
      modifies this`polls, this`touched, entries
      ensures Valid() && entries[slot].device == device && entries[slot].blkno == blkno
      ensures touched == old(touched)[slot := world.ticks(polls)]
      ensures forall i :: 0 <= i < entries.Length && i != slot ==> entries[i] == old(entries[i])
    {
      var now := GetHz();
      entries[slot] := Entry(data, now, blkno, device);
      touched := touched[slot := world.ticks(polls)];
    }

    /** Whole blocks straight into the caller's buffer. */
    method ReadDirect(device: int, blkno: nat, n: nat) returns (err: int, chunk: seq<byte>)
      requires Valid()
      modifies this`transfers
      ensures Valid() && transfers == old(transfers) + 1 && err == world.transfer(old(transfers)) <= 0
      ensures err == 0 ==> |chunk| == n * BLOCK && Delivers(media, device, blkno * BLOCK, chunk)
    {
      hide Delivers;
      err, chunk := Metaread(device, blkno, n);
    }

    /** Part of one block, through the cache. */
    method ReadCached(device: int, at: nat, n: nat) returns (err: int, chunk: seq<byte>)
      requires Valid() && device != 0 && at < WORD32 && at % BLOCK + n <= BLOCK
      modifies this`polls, this`touched, this`transfers, entries
      ensures Valid()
      ensures transfers == old(transfers) + if old(Cached(device, at / BLOCK)) then 0 else 1
      ensures err >= 0 <==> old(Cached(device, at / BLOCK)) || world.transfer(old(transfers)) == 0
      ensures err < 0 ==> err == world.transfer(old(transfers))
      ensures err >= 0 ==> |chunk| == n && Delivers(media, device, at, chunk)
      ensures old(Cached(device, at / BLOCK)) ==> SameTags(entries[..], old(entries[..]))
    {
      hide IsVictim, Sane, SameTags, Holds;
      var blkno, offset := at / BLOCK, at % BLOCK;
      chunk := [];
      err := GetBlock(device, blkno);
      if err >= 0 {
        BlockBytes(media, device, blkno);
        chunk := entries[err].data[offset..offset + n];
      }
    }

    /**
     One pass of the read loop: whole blocks straight from the device, or part of a cached block.
     It takes at most one transfer and fails exactly when that fails; a cached block takes none.
     */
    method ReadChunk(device: int, at: nat, rest: nat) returns (err: int, chunk: seq<byte>)
      requires Valid() && device != 0 && 0 < rest
      requires at + rest <= WORD32 && rest / BLOCK < 0x8000
      modifies this`polls, this`touched, this`transfers, entries
      ensures Valid()
      ensures err >= 0 ==> 0 < |chunk| <= rest && Delivers(media, device, at, chunk)
      ensures old(transfers) <= transfers <= old(transfers) + 1
      ensures err < 0 ==> transfers == old(transfers) + 1 && err == world.transfer(old(transfers))
      ensures err >= 0 && transfers > old(transfers) ==> world.transfer(old(transfers)) == 0
      ensures old(Cached(device, at / BLOCK)) ==>
        transfers == old(transfers) && SameTags(entries[..], old(entries[..]))
    {
      hide ValidExcept, Sane, Delivers, Holds, SameTags, WholeBlocks;
      var blkno, offset := at / BLOCK, at % BLOCK;
      var toread := if BLOCK - offset > rest then rest else BLOCK - offset;
      var bulk := offset == 0 && rest >= 2 * BLOCK;
      ghost var before := entries[..];
      SameTagsTwice(before, before, before, device, blkno);
      if bulk {
        var cached := LocateBlock(device, blkno);
        bulk := cached < 0;
      }
      ghost var between := entries[..];
      if bulk {
        var blks := rest / BLOCK % 0x10000;
        err, chunk := ReadDirect(device, blkno, blks);
      } else {
        err, chunk := ReadCached(device, at, toread);
        SameTagsTwice(before, between, entries[..], device, blkno);
      }
    }

    /**
     Reading through the cache: a successful call delivers exactly the bytes that the device
     holds at the time, and every tagged entry stays a true copy of its block. The call fails
     exactly when one of its transfers does, with the error of the first one that fails, and a
     request whose blocks are all cached takes no transfer.
     */
    method DCRead(device: int, adr: nat, cnt: nat) returns (err: int, buf: seq<byte>)
      requires Valid() && device != 0
      requires adr + cnt <= WORD32 && cnt / BLOCK < 0x8000
      modifies this`polls, this`touched, this`transfers, entries
      ensures Valid()
      ensures err <= 0
      ensures err == 0 ==> |buf| == cnt && Delivers(media, device, adr, buf)
      ensures TransfersEnd(world, old(transfers), transfers, err)
      ensures HoldsAll(old(entries[..]), device, adr, cnt) ==> transfers == old(transfers)
    {
      buf := [];
      var at, rest := adr, cnt;
      ghost var known := HoldsAll(entries[..], device, adr, cnt);
      while rest != 0
        invariant old(transfers) <= transfers
        invariant forall n :: old(transfers) <= n < transfers ==> world.transfer(n) == 0
        invariant known ==> transfers == old(transfers) && HoldsAll(entries[..], device, at, rest)
        invariant Valid() && 0 <= rest <= cnt && at + rest == adr + cnt
        invariant |buf| == cnt - rest && Delivers(media, device, adr, buf)
      {
        assert known ==> Holds(entries[..], device, at / BLOCK);
        ghost var tags := entries[..];
        var chunk;
        err, chunk := ReadChunk(device, at, rest);
        if err < 0 {
          return;
        }
        if known {
          HoldsRest(tags, entries[..], device, at, rest, |chunk|);
        }
        Append(media, device, adr, buf, chunk);
        buf := buf + chunk;
        at, rest := at + |chunk|, rest - |chunk|;
      }
      err := 0;
    }

    /** A media change: the device holds something else, and what was cached of it is dropped. */
    method ChangeMedium(device: int, now: Media)
      requires Valid() && device != 0 && WholeBlocks(now)
      requires forall d, b :: d != device ==> now(d, b) == media(d, b)
      modifies this`media, entries
      ensures Valid() && media == now
      ensures forall i :: 0 <= i < entries.Length ==> entries[i].device != device || entries[i].blkno == INVALID
    {
      media := now;
      DCClear(device);
    }

    /**
     Any run of reads and media changes: each successful read delivers what its medium held then,
     each failed one reports a transfer that failed, and the media at the end are those that the
     changes leave.
     */
    method Run(ops: seq<Op>) returns (results: seq<(int, seq<byte>)>)
      requires Valid() && Legal(media, ops)
      modifies this, entries
      ensures Valid() && entries == old(entries) && |results| == |ops|
      ensures media == MediaAfter(old(media), ops)
      ensures forall i :: 0 <= i < |ops| && results[i].0 != 0 ==>
        ops[i].Read? && exists n :: old(transfers) <= n < transfers && world.transfer(n) == results[i].0
      ensures forall i :: 0 <= i < |ops| && ops[i].Read? && results[i].0 == 0 ==>
        && WholeBlocks(MediaAfter(old(media), ops[..i])) && |results[i].1| == ops[i].cnt
        && Delivers(MediaAfter(old(media), ops[..i]), ops[i].device, ops[i].adr, results[i].1)
    {
      hide Delivers, Faithful, Sane, TransfersEnd;
      results := [];
      for i := 0 to |ops|
        invariant Valid() && entries == old(entries) && |results| == i && old(transfers) <= transfers
        invariant forall j :: 0 <= j < i && results[j].0 != 0 ==>
          ops[j].Read? && exists n :: old(transfers) <= n < transfers && world.transfer(n) == results[j].0
        invariant media == MediaAfter(old(media), ops[..i])
        invariant forall j :: 0 <= j < i && ops[j].Read? && results[j].0 == 0 ==>
          && WholeBlocks(MediaAfter(old(media), ops[..j])) && |results[j].1| == ops[j].cnt
          && Delivers(MediaAfter(old(media), ops[..j]), ops[j].device, ops[j].adr, results[j].1)
      {
        assert LegalAt(old(media), ops, i);
        assert ops[..i + 1][..i] == ops[..i];
        match ops[i] {
          case Read(device, adr, cnt) =>
            ghost var first := transfers;
            var err, buf := DCRead(device, adr, cnt);
            LastHasFailed(world, first, transfers, err);
            results := results + [(err, buf)];
          case Change(device, now) =>
            ChangeMedium(device, now);
            results := results + [(0, [])];
        }
      }
      assert ops[..|ops|] == ops;
    }
  }

  datatype Op = Read(device: int, adr: nat, cnt: nat) | Change(device: int, now: Media)

  /** What the devices hold after a run. */
  ghost function MediaAfter(media: Media, ops: seq<Op>): (m: Media)
  {
    if ops == [] then media
    else
      var last := ops[|ops| - 1];
      if last.Change? then last.now else MediaAfter(media, ops[..|ops| - 1])
  }

  /** Operation `i` is one that the drivers issue. */
  ghost predicate LegalAt(media: Media, ops: seq<Op>, i: nat)
    requires i < |ops|
  {
    && ops[i].device != 0
    && match ops[i]
       case Read(_, adr, cnt) => adr + cnt <= WORD32 && cnt / BLOCK < 0x8000
       case Change(device, now) =>
         WholeBlocks(now) && forall d, b :: d != device ==> now(d, b) == MediaAfter(media, ops[..i])(d, b)
  }

  ghost predicate Legal(media: Media, ops: seq<Op>)
  {
    forall i :: 0 <= i < |ops| ==> LegalAt(media, ops, i)
  }

  lemma Append(media: Media, device: int, adr: nat, a: seq<byte>, b: seq<byte>)
    requires WholeBlocks(media) && Delivers(media, device, adr, a) && Delivers(media, device, adr + |a|, b)
    ensures Delivers(media, device, adr, a + b)
  {
    forall k | |a| <= k < |a + b|
      ensures (a + b)[k] == ByteAt(media, device, adr + k)
    {
      assert b[k - |a|] == ByteAt(media, device, adr + |a| + (k - |a|));
    }
  }

  /** The first invalid entry is the one to replace. */
  lemma InvalidIsVictim(entries: seq<Entry>, touched: seq<nat>, now: nat, r: nat)
    requires |touched| == |entries| && r < |entries| && entries[r].blkno == INVALID
    requires forall j :: 0 <= j < r ==> entries[j].blkno != INVALID
    ensures IsVictim(entries, touched, now, r)
  {
  }

  /** The greatest wrapped age belongs to the entry touched first, while no true age reaches 2^32. */
  lemma OldestIsFirstTouched(entries: seq<Entry>, touched: seq<nat>, now: nat, r: nat)
    requires |touched| == |entries| && r < |entries|
    requires forall j :: 0 <= j < |entries| ==> entries[j].stamp == touched[j] % WORD32 && touched[j] <= now
    requires forall j :: 0 <= j < |entries| ==>
      (now % WORD32 - entries[j].stamp) % WORD32 <= (now % WORD32 - entries[r].stamp) % WORD32
    requires forall j :: 0 <= j < |entries| ==> entries[j].blkno != INVALID
    ensures IsVictim(entries, touched, now, r)
  {
    if forall j :: 0 <= j < |entries| ==> now - touched[j] < WORD32 {
      forall j | 0 <= j < |entries|
        ensures touched[r] <= touched[j]
      {
        AgeSurvivesWrap(now, touched[r]);
        AgeSurvivesWrap(now, touched[j]);
      }
    }
  }

  /** Ages below 2^32 are computed right from wrapped tick counts. */
  lemma AgeSurvivesWrap(now: nat, earlier: nat)
    requires earlier <= now < earlier + WORD32
    ensures (now % WORD32 - earlier % WORD32) % WORD32 == now - earlier
  {
  }

  lemma BlockBytes(media: Media, device: int, b: nat)
    requires WholeBlocks(media)
    ensures forall k :: b * BLOCK <= k < (b + 1) * BLOCK ==> ByteAt(media, device, k) == media(device, b)[k - b * BLOCK]
  {
    forall k | b * BLOCK <= k < (b + 1) * BLOCK
      ensures ByteAt(media, device, k) == media(device, b)[k - b * BLOCK]
    {
      assert k / BLOCK == b && k % BLOCK == k - b * BLOCK;
    }
  }
}
