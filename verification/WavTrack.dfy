/**
 An audio track served as a WAV file: a 44-byte header followed by raw frames, read
 by a head part, whole frames and a tail.
 */
module WavTrack {
  import opened Basics
  const HEADER := 44
  const FRAME := 2352
  const MAX_FRAMES := 10000
  const PROGFILE_OFFSET := 200
  const CD_BLOCK := 2048

  // ---------- The header ----------

  /** Both conversions go through a union: the bytes of the value in reverse order. */
  function SwapLong(v: nat): (r: nat)
    requires v < WORD32
    ensures r < WORD32
  {
    var c := Stored32(v);
    Loaded32([c[3], c[2], c[1], c[0]])
  }

  function SwapWord(v: nat): (r: nat)
    requires v < 0x1_0000
    ensures r < 0x1_0000
  {
    var c := Stored16(v);
    Loaded16([c[1], c[0]])
  }

  /** The value that a little-endian reader finds. */
  function Little(s: seq<byte>): (v: nat)
    requires |s| == 4 || |s| == 2
  {
    var a: int, b: int := s[0], s[1];
    if |s| == 2 then a + 0x100 * b
    else
      var c: int, d: int := s[2], s[3];
      a + 0x100 * b + 0x1_0000 * c + 0x100_0000 * d
  }

  /** Storing a swapped long leaves its little-endian form in memory, and swapping undoes itself. */
  lemma SwapStoresLittle(v: nat)
    requires v < WORD32
    ensures Little(Stored32(SwapLong(v))) == v
    ensures SwapLong(SwapLong(v)) == v
  {
    var c := Stored32(v);
    LoadedStored(v);
    hide Stored32;
    StoredLoaded([c[3], c[2], c[1], c[0]]);
    assert [c[0], c[1], c[2], c[3]] == c;
  }

  lemma SwapWordStoresLittle(v: nat)
    requires v < 0x1_0000
    ensures Little(Stored16(SwapWord(v))) == v
  {
    var c := Stored16(v);
    LoadedStored16(v);
    hide Stored16;
    StoredLoaded16([c[1], c[0]]);
  }

  /** The header as `setupheader` leaves it in memory, for `size` bytes of sound. */
  function HeaderBytes(size: nat): (h: seq<byte>)
    requires size < WORD32
    ensures |h| == HEADER
  {
    [0x52, 0x49, 0x46, 0x46] + Stored32(SwapLong((size + (HEADER - 8)) % WORD32))
    + [0x57, 0x41, 0x56, 0x45] + [0x66, 0x6d, 0x74, 0x20] + Stored32(SwapLong(16))
    + Stored16(SwapWord(1)) + Stored16(SwapWord(2))
    + Stored32(SwapLong(44100)) + Stored32(SwapLong(44100 * 2 * 2))
    + Stored16(SwapWord(4)) + Stored16(SwapWord(16))
    + [0x64, 0x61, 0x74, 0x61] + Stored32(SwapLong(size))
  }

  /** What a WAV reader finds: sizes that account for the whole file, two channels of 16 bits at 44.1 kHz. */
  lemma HeaderIsCanonical(size: nat)
    requires size + HEADER <= WORD32
    ensures var h := HeaderBytes(size);
            && Little(h[4..8]) == size + HEADER - 8 && Little(h[16..20]) == 16
            && Little(h[20..22]) == 1 && Little(h[22..24]) == 2
            && Little(h[24..28]) == 44100 && Little(h[28..32]) == 44100 * Little(h[32..34])
            && Little(h[32..34]) == 4 && Little(h[34..36]) == 16 && Little(h[40..44]) == size
            && h[0..4] == [0x52, 0x49, 0x46, 0x46] && h[8..12] == [0x57, 0x41, 0x56, 0x45]
            && h[12..16] == [0x66, 0x6d, 0x74, 0x20] && h[36..40] == [0x64, 0x61, 0x74, 0x61]
  {
    hide SwapLong, SwapWord, Stored32, Stored16, Little;
    var h := HeaderBytes(size);
    SwapStoresLittle(size + HEADER - 8);
    SwapStoresLittle(16);
    SwapWordStoresLittle(1);
    SwapWordStoresLittle(2);
    SwapStoresLittle(44100);
    SwapStoresLittle(44100 * 2 * 2);
    SwapWordStoresLittle(4);
    SwapWordStoresLittle(16);
    SwapStoresLittle(size);
    assert h[4..8] == Stored32(SwapLong(size + HEADER - 8)) && h[16..20] == Stored32(SwapLong(16));
    assert h[20..22] == Stored16(SwapWord(1)) && h[22..24] == Stored16(SwapWord(2));
    assert h[24..28] == Stored32(SwapLong(44100)) && h[28..32] == Stored32(SwapLong(44100 * 2 * 2));
    assert h[32..34] == Stored16(SwapWord(4)) && h[34..36] == Stored16(SwapWord(16));
    assert h[40..44] == Stored32(SwapLong(size));
  }

  // ---------- Which kind a size belongs to ----------

  /** The test on the file size, in unsigned 32-bit arithmetic. */
  predicate TakesAudioBranch(size: nat)
  {
    (size - HEADER) % WORD32 % FRAME == 0
  }

  /** The length that the directory reports for a track of `n` sectors. */
  function ReportedLength(audio: bool, n: nat): (size: nat)
  {
    if audio then (n * FRAME + HEADER) % WORD32 else n * CD_BLOCK % WORD32
  }

  /**
   The size alone tells the kind of a track: every data length, wrapped or not and including
   the empty one, takes the data branch, and every audio length that fits takes the audio branch.
   */
  lemma SizeTellsKind(audio: bool, n: nat)
    requires audio ==> n * FRAME + HEADER < WORD32
    ensures TakesAudioBranch(ReportedLength(audio, n)) <==> audio
  {
    if audio {
      assert (n * FRAME) % WORD32 == n * FRAME;
    } else {
      var size := n * CD_BLOCK % WORD32;
      var q := n * CD_BLOCK / WORD32;
      assert size == 16 * (n * 128 - q * 0x1000_0000);
      var x := (size - HEADER) % WORD32;
      assert x % 16 == 4;
    }
  }

  /** No size below that of the header wraps to a whole number of frames. */
  lemma SoundHasHeader(size: nat)
    requires size < WORD32
    ensures TakesAudioBranch(size) ==> HEADER <= size
  {
  }

  // ---------- Reading ----------

  /** The raw frames of a disc by logical block address. */
  type Frames = int -> seq<byte>

  ghost predicate WholeFrames(audio: Frames)
  {
    forall lba :: |audio(lba)| == FRAME
  }

  /** Byte `p` of the sound that begins at frame `lba`. */
  ghost function SoundByte(audio: Frames, lba: int, p: nat): (b: byte)
    requires WholeFrames(audio)
  {
    audio(lba + p / FRAME)[p % FRAME]
  }

  /** Byte `a` of the virtual file: the header, then the frames. */
  ghost function FileByte(audio: Frames, lba: int, size: nat, a: nat): (b: byte)
    requires WholeFrames(audio) && HEADER <= size < WORD32
  {
    if a < HEADER then HeaderBytes(size - HEADER)[a] else SoundByte(audio, lba, a - HEADER)
  }

  /** `buf` is the slice of the virtual file that begins at `offset`. */
  ghost predicate IsSlice(audio: Frames, lba: int, size: nat, offset: nat, buf: seq<byte>)
    requires WholeFrames(audio) && HEADER <= size < WORD32
  {
    forall k :: 0 <= k < |buf| ==> buf[k] == FileByte(audio, lba, size, offset + k)
  }

  /** Slices join, so any way of cutting a request into chunks delivers the same bytes. */
  lemma SlicesJoin(audio: Frames, lba: int, size: nat, offset: nat, a: seq<byte>, b: seq<byte>)
    requires WholeFrames(audio) && HEADER <= size < WORD32
    requires IsSlice(audio, lba, size, offset, a)
    ensures IsSlice(audio, lba, size, offset + |a|, b) <==> IsSlice(audio, lba, size, offset, a + b)
  {
    hide HeaderBytes, SoundByte;
    if IsSlice(audio, lba, size, offset, a + b) {
      forall k | 0 <= k < |b|
        ensures b[k] == FileByte(audio, lba, size, offset + |a| + k)
      {
        assert (a + b)[|a| + k] == b[k];
      }
    }
    if IsSlice(audio, lba, size, offset + |a|, b) {
      forall k | |a| <= k < |a + b|
        ensures (a + b)[k] == FileByte(audio, lba, size, offset + k)
      {
        assert b[k - |a|] == FileByte(audio, lba, size, offset + |a| + (k - |a|));
      }
    }
  }

  /** The answer of the n-th audio transfer. */
  type Answers = nat -> int

  /** Reads `n` frames from `lba` on. */
  method ReadFrames(audio: Frames, answer: int, lba: int, n: nat) returns (data: seq<byte>)
    requires WholeFrames(audio)
    ensures answer == 0 ==> |data| == n * FRAME
    ensures answer == 0 ==> forall k :: 0 <= k < |data| ==> data[k] == SoundByte(audio, lba, k)
  {
    data := [];
    if answer == 0 {
      for i := 0 to n
        invariant |data| == i * FRAME
        invariant forall k :: 0 <= k < |data| ==> data[k] == SoundByte(audio, lba, k)
      {
        var frame := audio(lba + i);
        forall k | i * FRAME <= k < (i + 1) * FRAME
          ensures SoundByte(audio, lba, k) == frame[k - i * FRAME]
        {
          assert k / FRAME == i && k % FRAME == k - i * FRAME;
        }
        data := data + frame;
      }
    }
  }

  /** Sound that begins a whole number of frames further on. */
  lemma ShiftSound(audio: Frames, lba: int, recno: nat, p: nat)
    requires WholeFrames(audio)
    ensures SoundByte(audio, lba + recno, p) == SoundByte(audio, lba, recno * FRAME + p)
  {
    assert (recno * FRAME + p) / FRAME == recno + p / FRAME && (recno * FRAME + p) % FRAME == p % FRAME;
  }

  /** How many transfers the frames and the tail of `cnt` bytes take. */
  function BulkCalls(cnt: nat): (n: nat)
  {
    if cnt == 0 then 0 else if cnt <= FRAME then 1 else 1 + BulkCalls(cnt - FramesAtOnce(cnt) * FRAME)
  }

  /** Whole frames, at most 10000 of them. */
  function FramesAtOnce(cnt: nat): (n: nat)
    ensures n * FRAME <= cnt && (cnt >= FRAME ==> n > 0)
  {
    if cnt / FRAME > MAX_FRAMES then MAX_FRAMES else cnt / FRAME
  }

  /** How many transfers a stretch of sound takes: one more if it begins inside a frame or is shorter than one. */
  function Calls(begin: nat, count: nat): (n: nat)
  {
    var inRec := begin % FRAME;
    if inRec == 0 && count >= FRAME then BulkCalls(count)
    else 1 + BulkCalls(if inRec + count > FRAME then inRec + count - FRAME else 0)
  }

  /** Which of `n` transfers decides: the first that fails, if any does. */
  ghost predicate Decides(answers: Answers, n: nat, r: Outcome)
  {
    && (r.Done? <==> forall i :: 0 <= i < n ==> answers(i) == 0)
    && (r.Refused? ==> exists i :: 0 <= i < n && FirstFails(answers, i, r.error))
  }

  ghost predicate FirstFails(answers: Answers, i: nat, error: int)
  {
    answers(i) == error != 0 && forall j :: 0 <= j < i ==> answers(j) == 0
  }

  datatype Outcome = Done(buf: seq<byte>) | Refused(error: int) | Overrun | ViaCache(adr: int) | FromProgram

  /**
   The three branches of the read call. A request for sound yields its slice of the virtual
   file if all the transfers that it takes succeed, and otherwise the error of the first one
   that fails; the header part copies more than was asked for exactly when the request ends
   inside the header.
   */
  method ReadFile(audio: Frames, answers: Answers, start: nat, offset: nat, size: nat, cnt: nat) returns (r: Outcome)
    requires WholeFrames(audio) && size < WORD32
    ensures TakesAudioBranch(size) ==> HEADER <= size
    ensures r.FromProgram? <==> start < PROGFILE_OFFSET
    ensures start >= PROGFILE_OFFSET ==> (r.ViaCache? <==> !TakesAudioBranch(size))
    ensures r.ViaCache? ==> r.adr == (start - PROGFILE_OFFSET) * CD_BLOCK + offset
    ensures start >= PROGFILE_OFFSET && TakesAudioBranch(size) ==>
      && (r.Overrun? <==> offset < HEADER && offset + cnt < HEADER)
      && (r.Done? ==> |r.buf| == cnt && IsSlice(audio, start - PROGFILE_OFFSET, size, offset, r.buf))
      && (r.Done? || r.Refused? ==> Decides(answers, CallsAt(offset, cnt), r))
  {
    hide Calls, HeaderBytes, IsSlice, IsSound;
    SoundHasHeader(size);
    if start < PROGFILE_OFFSET {
      return FromProgram;
    }
    if (size - HEADER) % WORD32 % FRAME != 0 {
      return ViaCache((start - PROGFILE_OFFSET) * CD_BLOCK + offset);
    }
    var lba := start - PROGFILE_OFFSET;
    if offset >= HEADER {
      r := ReadSound(audio, answers, lba, offset - HEADER, cnt);
      if r.Done? {
        AsSlice(audio, lba, size, offset, r.buf);
      }
    } else {
      var toread := HEADER - offset;
      if cnt < toread {
        return Overrun;
      }
      var head := HeaderBytes(size - HEADER)[offset..];
      HeadIsSlice(audio, lba, size, offset);
      if cnt == toread {
        return Done(head);
      }
      r := ReadSound(audio, answers, lba, 0, cnt - toread);
      if r.Done? {
        AsSlice(audio, lba, size, HEADER, r.buf);
        SlicesJoin(audio, lba, size, offset, head, r.buf);
        r := Done(head + r.buf);
      }
    }
  }

  /** How many transfers a request to the virtual file takes; the header takes none. */
  function CallsAt(offset: nat, cnt: nat): (n: nat)
  {
    if offset >= HEADER then Calls(offset - HEADER, cnt)
    else if offset + cnt <= HEADER then 0
    else Calls(0, offset + cnt - HEADER)
  }

  /** `buf` is the sound from byte `p` on. */
  ghost predicate IsSound(audio: Frames, lba: int, p: nat, buf: seq<byte>)
    requires WholeFrames(audio)
  {
    forall k :: 0 <= k < |buf| ==> buf[k] == SoundByte(audio, lba, p + k)
  }

  lemma HeadIsSlice(audio: Frames, lba: int, size: nat, offset: nat)
    requires WholeFrames(audio) && HEADER <= size < WORD32 && offset < HEADER
    ensures IsSlice(audio, lba, size, offset, HeaderBytes(size - HEADER)[offset..])
  {
    hide HeaderBytes, SoundByte;
  }

  lemma AsSlice(audio: Frames, lba: int, size: nat, offset: nat, buf: seq<byte>)
    requires WholeFrames(audio) && HEADER <= size < WORD32 && HEADER <= offset
    requires IsSound(audio, lba, offset - HEADER, buf)
    ensures IsSlice(audio, lba, size, offset, buf)
  {
    hide SoundByte;
    forall k | 0 <= k < |buf|
      ensures buf[k] == FileByte(audio, lba, size, offset + k)
    {
      assert buf[k] == SoundByte(audio, lba, offset - HEADER + k);
    }
  }

  /** Part of one frame, through the scratch buffer. */
  method ReadPart(audio: Frames, answer: int, lba: int, recno: nat, from: nat, n: nat) returns (part: seq<byte>)
    requires WholeFrames(audio) && from + n <= FRAME
    ensures answer == 0 ==> |part| == n && IsSound(audio, lba, recno * FRAME + from, part)
  {
    var scratch := ReadFrames(audio, answer, lba + recno, 1);
    part := [];
    if answer == 0 {
      part := scratch[from..from + n];
      forall k | 0 <= k < n
        ensures part[k] == SoundByte(audio, lba, recno * FRAME + from + k)
      {
        ShiftSound(audio, lba, recno, from + k);
      }
    }
  }

  lemma SoundJoins(audio: Frames, lba: int, p: nat, a: seq<byte>, b: seq<byte>)
    requires WholeFrames(audio) && IsSound(audio, lba, p, a) && IsSound(audio, lba, p + |a|, b)
    ensures IsSound(audio, lba, p, a + b)
  {
    hide SoundByte;
    forall k | |a| <= k < |a + b|
      ensures (a + b)[k] == SoundByte(audio, lba, p + k)
    {
      assert b[k - |a|] == SoundByte(audio, lba, p + |a| + (k - |a|));
    }
  }

  /** Whole frames from frame `recno` on are the sound from there on. */
  lemma FramesAreSound(audio: Frames, lba: int, recno: nat, p: nat, data: seq<byte>)
    requires WholeFrames(audio) && p == recno * FRAME
    requires forall k :: 0 <= k < |data| ==> data[k] == SoundByte(audio, lba + recno, k)
    ensures IsSound(audio, lba, p, data)
  {
    hide SoundByte;
    forall k | 0 <= k < |data|
      ensures data[k] == SoundByte(audio, lba, p + k)
    {
      ShiftSound(audio, lba, recno, k);
    }
  }

  /** Frames, at most 10000 at a time, and the tail, from a frame boundary on and from transfer `first` on. */
  method ReadRest(audio: Frames, answers: Answers, first: nat, lba: int, begin: nat, count: nat) returns (r: Outcome)
    requires WholeFrames(audio) && (count > 0 ==> begin % FRAME == 0)
    requires forall i :: 0 <= i < first ==> answers(i) == 0
    ensures (r.Done? || r.Refused?) && Decides(answers, first + BulkCalls(count), r)
    ensures r.Done? ==> |r.buf| == count && IsSound(audio, lba, begin, r.buf)
  {
    hide SoundByte, IsSound;
    var p: nat, cnt: nat, buf, call: nat := begin, count, [], first;
    var recno := p / FRAME;
    assert IsSound(audio, lba, begin, buf) by { NoSound(audio, lba, begin); }
    while cnt > FRAME
      invariant p == begin + |buf| && |buf| + cnt == count
      invariant IsSound(audio, lba, begin, buf)
      invariant recno == p / FRAME && (cnt > 0 ==> p % FRAME == 0)
      invariant call + BulkCalls(cnt) == first + BulkCalls(count)
      invariant forall i :: 0 <= i < call ==> answers(i) == 0
    {
      var sectors := if cnt / FRAME > MAX_FRAMES then MAX_FRAMES else cnt / FRAME;
      var data := ReadFrames(audio, answers(call), lba + recno, sectors);
      if answers(call) != 0 {
        assert FirstFails(answers, call, answers(call));
        return Refused(answers(call));
      }
      FramesAreSound(audio, lba, recno, p, data);
      SoundJoins(audio, lba, begin, buf, data);
      Aligned(p, sectors * FRAME);
      buf, p, cnt, call := buf + data, p + sectors * FRAME, cnt - sectors * FRAME, call + 1;
      recno := p / FRAME;
    }
    if cnt != 0 {
      var part := ReadPart(audio, answers(call), lba, recno, 0, cnt);
      if answers(call) != 0 {
        assert FirstFails(answers, call, answers(call));
        return Refused(answers(call));
      }
      SoundJoins(audio, lba, begin, buf, part);
      buf := buf + part;
    }
    return Done(buf);
  }

  /** A stretch of sound: the head part if it begins inside a frame or is shorter than one, then the rest. */
  method ReadSound(audio: Frames, answers: Answers, lba: int, begin: nat, count: nat) returns (r: Outcome)
    requires WholeFrames(audio)
    ensures (r.Done? || r.Refused?) && Decides(answers, Calls(begin, count), r)
    ensures r.Done? ==> |r.buf| == count && IsSound(audio, lba, begin, r.buf)
  {
    hide SoundByte, IsSound, BulkCalls;
    var recno, inRec := begin / FRAME, begin % FRAME;
    if inRec == 0 && count >= FRAME {
      r := ReadRest(audio, answers, 0, lba, begin, count);
    } else {
      var toread := if inRec + count > FRAME then FRAME - inRec else count;
      var part := ReadPart(audio, answers(0), lba, recno, inRec, toread);
      if answers(0) != 0 {
        assert FirstFails(answers, 0, answers(0));
        return Refused(answers(0));
      }
      Aligned(begin, toread);
      r := ReadRest(audio, answers, 1, lba, begin + toread, count - toread);
      if r.Done? {
        SoundJoins(audio, lba, begin, part, r.buf);
        r := Done(part + r.buf);
      }
    }
  }

  lemma NoSound(audio: Frames, lba: int, p: nat)
    requires WholeFrames(audio)
    ensures IsSound(audio, lba, p, [])
  {
  }

  /** Consecutive chunks add up to a whole request. */
  function Sum(cuts: seq<nat>): (n: nat)
  {
    if cuts == [] then 0 else Sum(cuts[..|cuts| - 1]) + cuts[|cuts| - 1]
  }

  /**
   Reading a stretch of the file in chunks, one call after the other. The chunks make up the
   slice; a cut inside the header overruns, and nothing else but a failed transfer ends the
   reading early.
   */
  method ReadInChunks(audio: Frames, answers: nat -> Answers, start: nat, offset: nat, size: nat, cuts: seq<nat>)
    returns (r: Outcome)
    requires WholeFrames(audio) && size < WORD32 && start >= PROGFILE_OFFSET && TakesAudioBranch(size)
    ensures HEADER <= size && (r.Done? || r.Refused? || r.Overrun?)
    ensures r.Done? ==> |r.buf| == Sum(cuts) && IsSlice(audio, start - PROGFILE_OFFSET, size, offset, r.buf)
    ensures r.Overrun? <==> cuts != [] && offset + cuts[0] < HEADER
    ensures r.Refused? ==> exists i, n :: 0 <= i < |cuts| && 0 <= n && answers(i)(n) == r.error != 0
  {
    hide BulkCalls, HeaderBytes, SoundByte, FileByte, Calls, TakesAudioBranch;
    SoundHasHeader(size);
    var buf := [];
    for i := 0 to |cuts|
      invariant |buf| == Sum(cuts[..i]) && IsSlice(audio, start - PROGFILE_OFFSET, size, offset, buf)
      invariant i > 0 ==> HEADER <= offset + cuts[0] <= offset + |buf|
    {
      assert cuts[..i + 1][..i] == cuts[..i];
      assert i == 0 ==> cuts[..i] == [];
      r := ReadFile(audio, answers(i), start, offset + |buf|, size, cuts[i]);
      if !r.Done? {
        return;
      }
      SlicesJoin(audio, start - PROGFILE_OFFSET, size, offset, buf, r.buf);
      buf := buf + r.buf;
    }
    assert cuts[..|cuts|] == cuts;
    return Done(buf);
  }

  /**
   The same stretch in chunks and in one call: when both succeed they deliver the same bytes, and
   as long as no transfer fails the chunks succeed exactly when no cut falls inside the header.
   */
  method ReadBothWays(audio: Frames, answers: nat -> Answers, once: Answers, start: nat, offset: nat, size: nat,
                      cuts: seq<nat>)
    returns (chunks: Outcome, whole: Outcome)
    requires WholeFrames(audio) && size < WORD32 && start >= PROGFILE_OFFSET && TakesAudioBranch(size)
    ensures chunks.Done? && whole.Done? ==> chunks == whole
    ensures !chunks.Refused? ==> (chunks.Done? <==> cuts == [] || HEADER <= offset + cuts[0])
    ensures !whole.Refused? ==> (whole.Done? <==> HEADER <= offset + Sum(cuts))
  {
    hide FileByte, Calls, TakesAudioBranch, IsSlice;
    chunks := ReadInChunks(audio, answers, start, offset, size, cuts);
    whole := ReadFile(audio, once, start, offset, size, Sum(cuts));
    if chunks.Done? && whole.Done? {
      SlicesAgree(audio, start - PROGFILE_OFFSET, size, offset, chunks.buf, whole.buf);
    }
  }

  /** A stretch of the file determines its bytes. */
  lemma SlicesAgree(audio: Frames, lba: int, size: nat, offset: nat, a: seq<byte>, b: seq<byte>)
    requires WholeFrames(audio) && HEADER <= size < WORD32 && |a| == |b|
    requires IsSlice(audio, lba, size, offset, a) && IsSlice(audio, lba, size, offset, b)
    ensures a == b
  {
    hide FileByte;
  }

  /** Adding up to a frame boundary, or whole frames, keeps positions aligned. */
  lemma Aligned(p: nat, n: nat)
    ensures (p % FRAME + n == FRAME || (p % FRAME == 0 && n % FRAME == 0)) ==> (p + n) % FRAME == 0
  {
  }
}
