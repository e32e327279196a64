/**
 Loading a driver: text and data, cleared BSS, and the fix-up stream that turns offsets
 into addresses in place.
 */
module Relocation {
  import opened Basics
  const PH_SIZE := 28
  const PH_MAGIC := 0x601a

  // ---------- The fix-up stream ----------

  /** The offsets named by the steps from index `i` on, when the last one was `at`. */
  function DecodeSteps(stream: seq<byte>, i: nat, at: nat): (r: Option<seq<nat>>)
    decreases |stream| - i
  {
    if i >= |stream| then None
    else if stream[i] == 0 then Some([])
    else if stream[i] == 1 then DecodeSteps(stream, i + 1, at + 254)
    else
      var next := at + stream[i];
      match DecodeSteps(stream, i + 1, next)
      case None => None
      case Some(rest) => Some([next] + rest)
  }

  /** The offsets of the longwords to relocate; a first offset of zero means that there are none. */
  function Decode(stream: seq<byte>): (r: Option<seq<nat>>)
  {
    if |stream| < 4 then None
    else if Long(stream, 0) == 0 then Some([])
    else
      match DecodeSteps(stream, 4, Long(stream, 0))
      case None => None
      case Some(rest) => Some([Long(stream, 0)] + rest)
  }

  /** One distance: as many steps of 254 as fit, then the rest. */
  function EncodeGap(g: nat): (s: seq<byte>)
    requires g >= 1
  {
    if g > 254 then [1] + EncodeGap(g - 254) else [g]
  }

  function EncodeSteps(offsets: seq<nat>, at: nat): (s: seq<byte>)
    requires Spaced(offsets, at)
  {
    if offsets == [] then [0] else EncodeGap(offsets[0] - at) + EncodeSteps(offsets[1..], offsets[0])
  }

  function Encode(offsets: seq<nat>): (s: seq<byte>)
    requires Encodable(offsets)
  {
    if offsets == [] then [0, 0, 0, 0] else Stored32(offsets[0]) + EncodeSteps(offsets[1..], offsets[0])
  }

  /** Each distance leaves at least one longword free and does not end in the byte that means 254. */
  ghost predicate Spaced(offsets: seq<nat>, at: nat)
  {
    offsets == [] ||
    (offsets[0] >= at + 4 && (offsets[0] - at) % 254 != 1 && Spaced(offsets[1..], offsets[0]))
  }

  ghost predicate Encodable(offsets: seq<nat>)
  {
    offsets == [] || (0 < offsets[0] < WORD32 && Spaced(offsets[1..], offsets[0]))
  }

  /** Even offsets at least four apart, as a 68000 program has them, can be encoded. */
  lemma {:induction false} EvenIsSpaced(offsets: seq<nat>, at: nat)
    requires at % 2 == 0 && forall i :: 0 <= i < |offsets| ==> offsets[i] % 2 == 0
    requires offsets != [] ==> offsets[0] >= at + 4
    requires forall i, j :: 0 <= i < j < |offsets| ==> offsets[j] >= offsets[i] + 4
    ensures Spaced(offsets, at)
    decreases |offsets|
  {
    if offsets != [] {
      var rest := offsets[1..];
      assert forall i :: 0 <= i < |rest| ==> rest[i] == offsets[i + 1];
      EvenIsSpaced(rest, offsets[0]);
      assert offsets[0] >= at + 4;
      EvenRest(offsets[0] - at);
    }
  }

  /** Fix-ups of a 68000 program: even offsets in text or data, behind its first word, at least four apart. */
  ghost predicate IsProgram(offsets: seq<nat>)
  {
    && (forall i :: 0 <= i < |offsets| ==> offsets[i] % 2 == 0 && 0 < offsets[i] < WORD32)
    && Apart(offsets)
  }

  /** Every such list can be encoded, and so is relocated exactly. */
  lemma ProgramIsEncodable(offsets: seq<nat>)
    requires IsProgram(offsets)
    ensures Encodable(offsets) && Decode(Encode(offsets)) == Some(offsets)
  {
    if offsets != [] {
      var rest := offsets[1..];
      assert forall i :: 0 <= i < |rest| ==> rest[i] == offsets[i + 1];
      EvenIsSpaced(rest, offsets[0]);
    }
    DecodeInverts(offsets);
  }

  lemma EvenRest(g: nat)
    requires g % 2 == 0
    ensures g % 254 != 1
  {
    assert g % 254 == g - 2 * (127 * (g / 254));
  }

  lemma {:induction false} DecodeGap(before: seq<byte>, g: nat, after: seq<byte>, at: nat)
    requires g >= 2 && g % 254 != 1
    ensures var s := before + EncodeGap(g) + after;
            var i := |before| + |EncodeGap(g)|;
            DecodeSteps(s, |before|, at) ==
            match DecodeSteps(s, i, at + g)
            case None => None
            case Some(rest) => Some([at + g] + rest)
    decreases g
  {
    var s := before + EncodeGap(g) + after;
    if g > 254 {
      assert s == (before + [1]) + EncodeGap(g - 254) + after;
      DecodeGap(before + [1], g - 254, after, at + 254);
      assert s[|before|] == 1;
    } else {
      assert s[|before|] == g;
    }
  }

  lemma {:induction false} DecodeStepsInverts(before: seq<byte>, offsets: seq<nat>, at: nat)
    requires Spaced(offsets, at)
    ensures DecodeSteps(before + EncodeSteps(offsets, at), |before|, at) == Some(offsets)
    decreases |offsets|
  {
    var s := before + EncodeSteps(offsets, at);
    if offsets == [] {
      assert s[|before|] == 0;
    } else {
      var gap, rest := EncodeGap(offsets[0] - at), EncodeSteps(offsets[1..], offsets[0]);
      assert s == before + gap + rest == (before + gap) + rest;
      DecodeGap(before, offsets[0] - at, rest, at);
      DecodeStepsInverts(before + gap, offsets[1..], offsets[0]);
      assert [offsets[0]] + offsets[1..] == offsets;
    }
  }

  /** Decoding inverts the 254-step encoding. */
  lemma DecodeInverts(offsets: seq<nat>)
    requires Encodable(offsets)
    ensures Decode(Encode(offsets)) == Some(offsets)
  {
    hide DecodeSteps, EncodeSteps;
    var s := Encode(offsets);
    if offsets != [] {
      var head := Stored32(offsets[0]);
      LoadedStored(offsets[0]);
      assert s[0] == head[0] && s[1] == head[1] && s[2] == head[2] && s[3] == head[3];
      DecodeStepsInverts(head, offsets[1..], offsets[0]);
      assert [offsets[0]] + offsets[1..] == offsets;
    }
  }

  // ---------- Patching ----------

  /** The image with `base` added to the longword at `o`. */
  function Patch(m: seq<byte>, o: nat, base: nat): (r: seq<byte>)
    requires o + 4 <= |m|
    ensures |r| == |m|
  {
    m[..o] + Stored32((Long(m, o) + base) % WORD32) + m[o + 4..]
  }

  ghost predicate Inside(offsets: seq<nat>, limit: nat)
  {
    forall i :: 0 <= i < |offsets| ==> offsets[i] + 4 <= limit
  }

  function PatchAll(m: seq<byte>, offsets: seq<nat>, base: nat): (r: seq<byte>)
    requires Inside(offsets, |m|)
    ensures |r| == |m|
    decreases |offsets|
  {
    if offsets == [] then m else PatchAll(Patch(m, offsets[0], base), offsets[1..], base)
  }

  /** Byte `k` is not part of any longword named by the offsets. */
  ghost predicate Untouched(offsets: seq<nat>, k: nat)
  {
    forall i :: 0 <= i < |offsets| ==> k < offsets[i] || offsets[i] + 4 <= k
  }

  lemma {:induction false} UntouchedStays(m: seq<byte>, offsets: seq<nat>, base: nat, k: nat)
    requires Inside(offsets, |m|) && k < |m| && Untouched(offsets, k)
    ensures PatchAll(m, offsets, base)[k] == m[k]
    decreases |offsets|
  {
    hide Long, Stored32;
    if offsets != [] {
      assert forall i :: 0 <= i < |offsets[1..]| ==> offsets[1..][i] == offsets[i + 1];
      UntouchedStays(Patch(m, offsets[0], base), offsets[1..], base, k);
    }
  }

  lemma PatchedLong(m: seq<byte>, o: nat, base: nat)
    requires o + 4 <= |m|
    ensures Long(Patch(m, o, base), o) == (Long(m, o) + base) % WORD32
  {
    var v := (Long(m, o) + base) % WORD32;
    var r := Patch(m, o, base);
    assert r[o..o + 4] == Stored32(v);
    assert forall j :: o <= j < o + 4 ==> r[j] == r[o..o + 4][j - o];
    LoadedStored(v);
  }

  /** No two of the longwords overlap. */
  ghost predicate Apart(offsets: seq<nat>)
  {
    forall i, j :: 0 <= i < j < |offsets| ==> offsets[j] >= offsets[i] + 4
  }

  lemma {:induction false} SpacedIsApart(offsets: seq<nat>, at: nat)
    requires Spaced(offsets, at)
    ensures Apart(offsets) && forall i :: 0 <= i < |offsets| ==> offsets[i] >= at + 4
    decreases |offsets|
  {
    if offsets != [] {
      var rest := offsets[1..];
      assert forall i :: 1 <= i < |offsets| ==> offsets[i] == rest[i - 1];
      SpacedIsApart(rest, offsets[0]);
    }
  }

  lemma EncodableIsApart(offsets: seq<nat>)
    requires Encodable(offsets)
    ensures Apart(offsets)
  {
    if offsets != [] {
      var rest := offsets[1..];
      assert forall i :: 1 <= i < |offsets| ==> offsets[i] == rest[i - 1];
      SpacedIsApart(rest, offsets[0]);
    }
  }

  lemma {:induction false} NamedGrowOnce(m: seq<byte>, offsets: seq<nat>, base: nat, i: nat)
    requires Inside(offsets, |m|) && Apart(offsets) && i < |offsets|
    ensures Long(PatchAll(m, offsets, base), offsets[i]) == (Long(m, offsets[i]) + base) % WORD32
    decreases |offsets|
  {
    hide Stored32;
    var rest, first := offsets[1..], offsets[0];
    var once := Patch(m, first, base);
    assert forall j :: 0 <= j < |rest| ==> rest[j] == offsets[j + 1];
    if i == 0 {
      PatchedLong(m, first, base);
      forall k | first <= k < first + 4
        ensures PatchAll(once, rest, base)[k] == once[k]
      {
        UntouchedStays(once, rest, base, k);
      }
    } else {
      NamedGrowOnce(once, rest, base, i - 1);
    }
  }

  /**
   Relocation is exact: for every fix-up stream that encodes a list of offsets, every named
   longword has grown by the base exactly once, modulo 2^32, and every other byte is what it was.
   */
  lemma RelocationIsExact(m: seq<byte>, offsets: seq<nat>, base: nat)
    requires Encodable(offsets) && Inside(offsets, |m|)
    ensures Decode(Encode(offsets)) == Some(offsets)
    ensures var r := PatchAll(m, offsets, base);
            && (forall i :: 0 <= i < |offsets| ==> Long(r, offsets[i]) == (Long(m, offsets[i]) + base) % WORD32)
            && (forall k :: 0 <= k < |m| && Untouched(offsets, k) ==> r[k] == m[k])
  {
    DecodeInverts(offsets);
    EncodableIsApart(offsets);
    forall i | 0 <= i < |offsets|
      ensures Long(PatchAll(m, offsets, base), offsets[i]) == (Long(m, offsets[i]) + base) % WORD32
    {
      NamedGrowOnce(m, offsets, base, i);
    }
    forall k | 0 <= k < |m| && Untouched(offsets, k)
      ensures PatchAll(m, offsets, base)[k] == m[k]
    {
      UntouchedStays(m, offsets, base, k);
    }
  }

  // ---------- Loading ----------

  /** The segment lengths in the program header. */
  datatype Header = Header(magic: nat, tlen: nat, dlen: nat, blen: nat, slen: nat)

  function HeaderOf(file: seq<byte>): (h: Header)
    requires PH_SIZE <= |file|
  {
    var a: int, b: int := file[0], file[1];
    Header(a * 0x100 + b, Long(file, 2), Long(file, 6), Long(file, 10), Long(file, 14))
  }

  /** A program file that holds its text and data in full. */
  predicate HasSegments(file: seq<byte>)
  {
    && PH_SIZE <= |file| && HeaderOf(file).magic == PH_MAGIC
    && PH_SIZE + HeaderOf(file).tlen + HeaderOf(file).dlen <= |file|
  }

  /** The stream has an end, and all the longwords that it names lie below `limit`. */
  ghost predicate StaysInside(fixups: Option<seq<nat>>, limit: nat)
  {
    fixups.Some? && Inside(fixups.value, limit)
  }

  /** The symbol table fits the file, and the fix-ups behind it end and stay in text, data and BSS. */
  ghost predicate Loadable(file: seq<byte>)
    requires PH_SIZE <= |file|
  {
    var h := HeaderOf(file);
    var td := h.tlen + h.dlen;
    && PH_SIZE + td + h.slen <= |file|
    && StaysInside(Decode(file[PH_SIZE + td + h.slen..]), td + h.blen)
  }

  /** Text and data as the file holds them, and zeros for the BSS. */
  function RawImage(file: seq<byte>): (m: seq<byte>)
    requires PH_SIZE <= |file| && PH_SIZE + HeaderOf(file).tlen + HeaderOf(file).dlen <= |file|
    ensures |m| == HeaderOf(file).tlen + HeaderOf(file).dlen + HeaderOf(file).blen
  {
    var h := HeaderOf(file);
    file[PH_SIZE..PH_SIZE + h.tlen + h.dlen] + Repeat(0, h.blen)
  }

  /**
   The relocating loop over an image that is followed by `n` bytes of fix-ups. It goes astray, by
   reading behind the fix-ups or patching behind the image, exactly when the stream has no end or
   names a longword that is not inside the image; otherwise it patches what the stream names.
   */
  method Relocate(m: array<byte>, tdb: nat, n: nat, base: nat) returns (ok: bool)
    requires tdb + n <= m.Length
    modifies m
    ensures ok <==> StaysInside(Decode(old(m[tdb..tdb + n])), tdb)
    ensures ok ==> m[..tdb] == PatchAll(old(m[..tdb]), Decode(old(m[tdb..tdb + n])).value, base)
  {
    hide Long, Patch;
    ghost var stream := m[tdb..tdb + n];
    ghost var all := Decode(stream);
    if n < 4 {
      return false;
    }
    var relo: nat, at: nat := tdb + 4, Long(m[..], tdb);
    LongInside(m[..], tdb, n);
    if at == 0 {
      return true;
    }
    assert all.Some? ==> all.value[0] == at && all.value[1..] == DecodeSteps(stream, 4, at).value;
    if at + 4 > tdb {
      return false;
    }
    AddBase(m, at, base, tdb, n);
    assert StaysInside(all, tdb) <==> StaysInside(DecodeSteps(stream, 4, at), tdb) by { InsideRest(all, at, tdb); }
    while true
      invariant tdb + 4 <= relo <= tdb + n && m[tdb..tdb + n] == stream
      invariant StaysInside(all, tdb) <==> StaysInside(DecodeSteps(stream, relo - tdb, at), tdb)
      invariant StaysInside(all, tdb) ==>
        PatchAll(m[..tdb], DecodeSteps(stream, relo - tdb, at).value, base) == PatchAll(old(m[..tdb]), all.value, base)
      decreases tdb + n - relo
    {
      if relo == tdb + n {
        return false;
      }
      var val := m[relo];
      assert val == stream[relo - tdb];
      ghost var steps := DecodeSteps(stream, relo - tdb, at);
      relo := relo + 1;
      if val == 0 {
        return true;
      }
      if val == 1 {
        at := at + 254;
      } else {
        at := at + val;
        InsideRest(steps, at, tdb);
        assert steps.Some? ==> steps.value[0] == at && steps.value[1..] == DecodeSteps(stream, relo - tdb, at).value;
        if at + 4 > tdb {
          return false;
        }
        AddBase(m, at, base, tdb, n);
      }
    }
  }

  /** A stream stays inside if its first longword and the rest do. */
  lemma InsideRest(all: Option<seq<nat>>, at: nat, limit: nat)
    requires all.Some? ==> all.value != [] && all.value[0] == at
    ensures all.Some? ==> (StaysInside(all, limit) <==> at + 4 <= limit && StaysInside(Some(all.value[1..]), limit))
  {
    if all.Some? {
      var offsets := all.value;
      assert offsets == [at] + offsets[1..];
    }
  }

  lemma LongInside(m: seq<byte>, at: nat, n: nat)
    requires 4 <= n && at + n <= |m|
    ensures Long(m, at) == Long(m[at..at + n], 0)
  {
  }

  /** Adds the base to one longword below `limit`. */
  method AddBase(m: array<byte>, o: nat, base: nat, ghost limit: nat, ghost n: nat)
    requires o + 4 <= limit && limit + n <= m.Length
    modifies m
    ensures m[limit..limit + n] == old(m[limit..limit + n])
    ensures m[..limit] == Patch(old(m[..limit]), o, base)
  {
    var v := (Long(m[..], o) + base) % WORD32;
    var bytes := Stored32(v);
    assert Long(m[..], o) == Long(m[..limit], o);
    m[o], m[o + 1], m[o + 2], m[o + 3] := bytes[0], bytes[1], bytes[2], bytes[3];
  }

  datatype Loaded = NotLoaded | Image(m: array<byte>) | Astray

  /**
   Loading, for every file: nothing when the file is no program, is shorter than its text and
   data, or memory is refused; astray exactly when the symbol table or the fix-ups are not what
   they should be. Otherwise the memory below the end of the BSS holds the relocated image, and
   text, data, BSS and fix-ups together fit the allocation with exactly the bytes of the header
   to spare.
   */
  method LoadPrg(file: seq<byte>, base: nat, granted: bool) returns (r: Loaded)
    ensures r.NotLoaded? <==> !HasSegments(file) || !granted
    ensures r.Astray? <==> granted && HasSegments(file) && !Loadable(file)
    ensures r.Image? ==>
      var h := HeaderOf(file);
      var td := h.tlen + h.dlen;
      && r.m.Length == |file| + h.blen - h.slen
      && td + h.blen + (|file| - PH_SIZE - td - h.slen) + PH_SIZE == r.m.Length
      && r.m[..td + h.blen] == PatchAll(RawImage(file), Decode(file[PH_SIZE + td + h.slen..]).value, base)
  {
    hide Decode, PatchAll, Long;
    if |file| < PH_SIZE {
      return NotLoaded;
    }
    var h := HeaderOf(file);
    var td := h.tlen + h.dlen;
    if h.magic != PH_MAGIC || !granted || |file| - PH_SIZE < td {
      return NotLoaded;
    }
    if PH_SIZE + td + h.slen > |file| {
      return Astray;
    }
    var tdb := td + h.blen;
    var fixups := file[PH_SIZE + td + h.slen..];
    var raw := RawImage(file);
    var m := new byte[|file| + h.blen - h.slen](_ => 0);
    Store(m, 0, raw);
    Store(m, tdb, fixups);
    assert m[tdb..tdb + |fixups|] == fixups;
    assert m[..tdb] == raw;
    var ok := Relocate(m, tdb, |fixups|, base);
    return if ok then Image(m) else Astray;
  }

  /** A program file: header, text and data, symbols, and the encoded fix-ups. */
  function ProgramFile(h: Header, td: seq<byte>, symbols: seq<byte>, rest: seq<byte>, offsets: seq<nat>)
    : (file: seq<byte>)
    requires h.magic == PH_MAGIC && h.tlen < WORD32 && h.dlen < WORD32 && h.blen < WORD32 && h.slen < WORD32
    requires |td| == h.tlen + h.dlen && |symbols| == h.slen && |rest| == 10 && Encodable(offsets)
  {
    [0x60, 0x1a] + Stored32(h.tlen) + Stored32(h.dlen) + Stored32(h.blen) + Stored32(h.slen) + rest
    + td + symbols + Encode(offsets)
  }

  /** Every such file whose fix-ups lie in the image can be loaded, and what is patched is what was encoded. */
  lemma ProgramLoads(h: Header, td: seq<byte>, symbols: seq<byte>, rest: seq<byte>, offsets: seq<nat>)
    requires h.magic == PH_MAGIC && h.tlen < WORD32 && h.dlen < WORD32 && h.blen < WORD32 && h.slen < WORD32
    requires |td| == h.tlen + h.dlen && |symbols| == h.slen && |rest| == 10
    requires Encodable(offsets) && Inside(offsets, |td| + h.blen)
    ensures var file := ProgramFile(h, td, symbols, rest, offsets);
            && HasSegments(file) && HeaderOf(file) == h && Loadable(file)
            && RawImage(file) == td + Repeat(0, h.blen)
            && Decode(file[PH_SIZE + |td| + h.slen..]) == Some(offsets)
  {
    hide Stored32, Encode, Decode, Repeat, Encodable;
    var file := ProgramFile(h, td, symbols, rest, offsets);
    DecodeInverts(offsets);
    LoadedAt(file, 2, h.tlen);
    LoadedAt(file, 6, h.dlen);
    LoadedAt(file, 10, h.blen);
    LoadedAt(file, 14, h.slen);
    assert file[PH_SIZE + |td| + h.slen..] == Encode(offsets);
    assert file[PH_SIZE..PH_SIZE + |td|] == td;
  }

  lemma LoadedAt(s: seq<byte>, at: nat, v: nat)
    requires v < WORD32 && at + 4 <= |s| && s[at..at + 4] == Stored32(v)
    ensures Long(s, at) == v
  {
    hide Stored32;
    var w := s[at..at + 4];
    assert w[0] == s[at] && w[1] == s[at + 1] && w[2] == s[at + 2] && w[3] == s[at + 3];
    LoadedStored(v);
  }

  method Store(m: array<byte>, at: nat, s: seq<byte>)
    requires at + |s| <= m.Length
    modifies m
    ensures m[..] == old(m[..at]) + s + old(m[at + |s|..])
  {
    for i := 0 to |s|
      invariant forall k :: 0 <= k < m.Length ==> m[k] == if at <= k < at + i then s[k - at] else old(m[k])
    {
      m[at + i] := s[i];
    }
  }
}
