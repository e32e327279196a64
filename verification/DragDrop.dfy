/**
 The drag and drop protocol: offers of data go one way through a pipe, replies go the
 other way, and both ends have to agree on where a message ends.
 */
module DragDrop {
  import opened Basics
  const DD_OK: byte := 0
  const DD_NAK: byte := 1
  const DD_NAMEMAX := 128
  const DD_HDRMIN := 9
  const DD_EXTSIZE := 32

  /** What the sender offers; the name is a C string. */
  datatype Offer = Offer(format: nat, size: nat, name: seq<byte>)

  /** What the receiver is told: the name is cut to the size of its buffer, terminator included. */
  datatype Received = Received(format: nat, size: nat, name: seq<byte>)

  ghost predicate IsOffer(o: Offer)
  {
    o.format < WORD32 && o.size < WORD32 && forall i :: 0 <= i < |o.name| ==> o.name[i] != 0
  }

  /** The name with its terminator, cut to the receiver's buffer. */
  function Cut(name: seq<byte>): (s: seq<byte>)
    ensures |s| == (if |name| < 128 then |name| + 1 else 128) && s == (name + [0])[..|s|]
  {
    if |name| + 1 <= DD_NAMEMAX then name + [0] else name[..DD_NAMEMAX]
  }

  function Signed16(s: seq<byte>): (v: int)
    requires |s| == 2
  {
    var a: int, b: int := s[0], s[1];
    if a < 128 then a * 256 + b else a * 256 + b - 0x1_0000
  }

  lemma Signed16Inverts(v: int)
    requires -0x8000 <= v < 0x8000
    ensures Signed16(Stored16(v)) == v
  {
  }

  /** The header length field, computed in sixteen-bit arithmetic. */
  function HeaderLength(o: Offer): (n: int) { Wrap16(4 + 4 + Wrap16(|o.name| + 1)) }

  /** All bytes of an offer as they enter the pipe. */
  function Message(o: Offer): (s: seq<byte>)
    requires o.format < WORD32 && o.size < WORD32
  {
    Stored16(HeaderLength(o)) + Stored32(o.format) + Stored32(o.size) + o.name + [0]
  }

  // ---------- The receiver's view of a byte stream ----------

  function Take(s: seq<byte>, n: nat): (r: seq<byte>) { if n <= |s| then s[..n] else s }
  function Drop(s: seq<byte>, n: nat): (r: seq<byte>) { if n <= |s| then s[n..] else [] }

  /** What the receiver makes of the bytes that come in. */
  function Parse(s: seq<byte>): (r: Option<Received>)
  {
    if |s| < 2 || Signed16(s[..2]) < DD_HDRMIN || |s| < 10 then None
    else
      var n := Signed16(s[..2]) - 8;
      var m := if n > DD_NAMEMAX then DD_NAMEMAX else n;
      if |s| < 10 + m then None
      else Some(Received(Loaded32(s[2..6]), Loaded32(s[6..10]), s[10..10 + m]))
  }

  /** The two directions of the pipe. */
  class Link {
    var forward: seq<byte>
    var back: seq<byte>

    constructor ()
      ensures forward == [] && back == []
    {
      forward, back := [], [];
    }

    /** The first half of an offer: writes it and tells whether a reply may be awaited. */
    method SendOffer(o: Offer) returns (ok: bool)
      requires IsOffer(o)
      modifies this`forward
      ensures forward == old(forward) + Message(o)
      ensures ok <==> |o.name| + DD_HDRMIN <= 0x7fff
    {
      var strLen := |o.name| + 1;
      var hdrLen := HeaderLength(o);
      forward := forward + Stored16(hdrLen);
      forward := forward + Stored32(o.format);
      forward := forward + Stored32(o.size);
      forward := forward + (o.name + [0]);
      var written := 4 + 4 + strLen;
      ok := written == hdrLen;
      assert forward == old(forward) + Message(o);
    }

    /** Reads up to `n` bytes of the forward direction. */
    method Fread(n: nat) returns (s: seq<byte>)
      modifies this`forward
      ensures s == Take(old(forward), n) && forward == Drop(old(forward), n)
    {
      s := Take(forward, n);
      forward := Drop(forward, n);
    }

    /**
     Receives an offer. A complete one is taken off the pipe to its last byte, however
     much of the name fits the receiver's buffer.
     */
    method ReceiveOffer() returns (r: Option<Received>)
      modifies this`forward
      ensures r == Parse(old(forward))
      ensures r.Some? ==> forward == Drop(old(forward), 2 + Signed16(old(forward)[..2]))
    {
      hide Signed16, Loaded32;
      ghost var s := forward;
      var len := Fread(2);
      if |len| != 2 {
        return None;
      }
      var hdrLen := Signed16(len);
      if hdrLen < DD_HDRMIN {
        return None;
      }
      var format := Fread(4);
      if |format| != 4 {
        return None;
      }
      var size := Fread(4);
      if |size| != 4 {
        return None;
      }
      hdrLen := hdrLen - 8;
      var nameLen := if hdrLen > DD_NAMEMAX then DD_NAMEMAX else hdrLen;
      var name := Fread(nameLen);
      if |name| != nameLen {
        return None;
      }
      hdrLen := hdrLen - nameLen;
      assert format == s[2..6] && size == s[6..10] && name == s[10..10 + nameLen];
      Drain(hdrLen);
      return Some(Received(Loaded32(format), Loaded32(size), name));
    }

    /** Throws the rest of a header away, 64 bytes at a time. */
    method Drain(n: nat)
      modifies this`forward
      ensures forward == Drop(old(forward), n)
    {
      var rest := n;
      while rest > 64
        invariant 0 <= rest <= n && forward == Drop(old(forward), n - rest)
      {
        var buf := Fread(64);
        rest := rest - 64;
      }
      if rest > 0 {
        var buf := Fread(rest);
      }
    }

    /** The receiver answers with the low byte of its message number. */
    method Reply(msg: int)
      modifies this`back
      ensures back == old(back) + [msg % 256]
    {
      back := back + [msg % 256];
    }

    method AwaitReply() returns (reply: byte)
      modifies this`back
      ensures old(back) != [] ==> reply == old(back)[0] && back == old(back)[1..]
      ensures old(back) == [] ==> reply == 1 && back == []
    {
      if back == [] {
        return DD_NAK;
      }
      reply := back[0];
      back := back[1..];
    }

    /** The opening handshake after the pipe has been created: one byte of consent and the formats. */
    method Handshake(formats: seq<byte>) returns (seen: Option<seq<byte>>)
      requires forward == [] && back == [] && |formats| == 32
      modifies this`back
      ensures seen == Some(formats) && back == []
    {
      back := back + [DD_OK];
      back := back + formats;
      assert back == [DD_OK] + formats;
      var reply := AwaitReply();
      if reply != DD_OK {
        return None;
      }
      assert back == formats && formats[..DD_EXTSIZE] == formats;
      var ext := Take(back, DD_EXTSIZE);
      back := Drop(back, DD_EXTSIZE);
      if |ext| != DD_EXTSIZE {
        return None;
      }
      return Some(ext);
    }

    /**
     Any sequence of offers stays in step: the receiver gets each offer as it was made, the
     sender gets the receiver's answer to that offer, and both directions are empty in between.
     */
    method Exchange(offers: seq<Offer>, answers: seq<int>) returns (got: seq<Received>, replies: seq<byte>)
      requires forward == [] && back == [] && |answers| == |offers|
      requires forall i :: 0 <= i < |offers| ==> IsOffer(offers[i]) && |offers[i].name| + DD_HDRMIN <= 0x7fff
      modifies this
      ensures forward == [] && back == [] && |got| == |replies| == |offers|
      ensures forall i :: 0 <= i < |offers| ==>
        got[i] == Received(offers[i].format, offers[i].size, Cut(offers[i].name)) && replies[i] == answers[i] % 256
    {
      hide Message, Parse, Drop, Take, Signed16, Cut;
      got, replies := [], [];
      for i := 0 to |offers|
        invariant forward == [] && back == [] && |got| == |replies| == i
        invariant forall j :: 0 <= j < i ==>
          got[j] == Received(offers[j].format, offers[j].size, Cut(offers[j].name)) && replies[j] == answers[j] % 256
      {
        ParsesMessage(offers[i], []);
        var ok := SendOffer(offers[i]);
        assert forward == Message(offers[i]) + [];
        var r := ReceiveOffer();
        Reply(answers[i]);
        var reply := AwaitReply();
        got, replies := got + [r.value], replies + [reply];
      }
    }
  }

  /** An offer that fits is announced with its true length. */
  lemma LengthFits(o: Offer)
    requires |o.name| + DD_HDRMIN <= 0x7fff
    ensures HeaderLength(o) == |o.name| + DD_HDRMIN
  {
  }

  /** Where the parts of a message stand. */
  lemma MessageParts(o: Offer, rest: seq<byte>)
    requires o.format < WORD32 && o.size < WORD32
    ensures var s := Message(o) + rest;
            && |s| == 11 + |o.name| + |rest| && s[..2] == Stored16(HeaderLength(o))
            && s[2..6] == Stored32(o.format) && s[6..10] == Stored32(o.size)
            && s[10..11 + |o.name|] == o.name + [0] && s[11 + |o.name|..] == rest
  {
    hide Stored16, Stored32, HeaderLength;
  }

  /** As much of the name as the receiver asks for. */
  lemma NameIsCut(o: Offer, rest: seq<byte>, m: nat)
    requires o.format < WORD32 && o.size < WORD32
    requires m == if |o.name| + 1 > DD_NAMEMAX then DD_NAMEMAX else |o.name| + 1
    ensures 10 + m <= |Message(o) + rest| && (Message(o) + rest)[10..10 + m] == Cut(o.name)
  {
    hide Message;
    MessageParts(o, rest);
    var s := Message(o) + rest;
    var name := s[10..11 + |o.name|];
    assert s[10..10 + m] == name[..m];
    assert name == o.name + [0];
  }

  /** A message is understood and measured right, whatever follows it in the pipe. */
  lemma ParsesMessage(o: Offer, rest: seq<byte>)
    requires IsOffer(o) && |o.name| + DD_HDRMIN <= 0x7fff
    ensures var s := Message(o) + rest;
            && Parse(s) == Some(Received(o.format, o.size, Cut(o.name)))
            && Drop(s, 2 + Signed16(s[..2])) == rest
  {
    hide Message, Stored16, Stored32, Loaded32, Signed16, HeaderLength, Cut;
    LengthFits(o);
    Signed16Inverts(HeaderLength(o));
    MessageParts(o, rest);
    LoadedStored(o.format);
    LoadedStored(o.size);
    NameIsCut(o, rest, if |o.name| + 1 > DD_NAMEMAX then DD_NAMEMAX else |o.name| + 1);
  }

  // ---------- The names that the sender tries ----------

  const LETTER_A := 0x41
  const LETTER_Z := 0x5a

  /** The two-letter ending of the pipe name at attempt `i`. */
  function Ending(i: nat): (e: (int, int))
  {
    if i < 26 then (LETTER_A, LETTER_A + i) else (LETTER_A + i - 25, LETTER_A + i)
  }

  /**
   The retry loop over pipe names. `busy(i)` tells that attempt `i` is refused because the
   name exists. The second letter is never set back, so only 51 attempts are made.
   */
  method ChooseEnding(busy: nat -> bool) returns (r: Option<(int, int)>)
    ensures r.None? <==> forall i :: 0 <= i < 51 ==> busy(i)
    ensures r.Some? ==>
      exists i :: 0 <= i < 51 && r.value == Ending(i) && !busy(i) && forall j :: 0 <= j < i ==> busy(j)
  {
    var first, second, i := LETTER_A, LETTER_A - 1, 0;
    while true
      invariant 0 <= i <= 51 && second == LETTER_A - 1 + i
      invariant first == if i <= 26 then LETTER_A else LETTER_A + i - 26
      invariant forall j :: 0 <= j < i ==> busy(j)
      decreases 51 - i
    {
      second := second + 1;
      if second > LETTER_Z {
        first := first + 1;
        if first > LETTER_Z {
          return None;
        }
      }
      if !busy(i) {
        assert (first, second) == Ending(i);
        return Some((first, second));
      }
      i := i + 1;
    }
  }

  /** Of all endings made of two capital letters exactly those that begin with A are ever tried. */
  lemma EndingsTried(a: int, b: int)
    requires LETTER_A <= a <= LETTER_Z && LETTER_A <= b <= LETTER_Z
    ensures (exists i :: 0 <= i < 51 && Ending(i) == (a, b)) <==> a == LETTER_A
  {
    if a == LETTER_A {
      assert Ending(b - LETTER_A) == (a, b);
    }
  }
}
