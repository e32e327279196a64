/** Bytes, machine words and the option type that several components share. */
module Basics {

  type byte = c: int | 0 <= c < 256

  datatype Option<T> = None | Some(value: T)

  const WORD32 := 0x1_0000_0000

  /** The value of an expression in signed sixteen-bit arithmetic. */
  function Wrap16(x: int): (w: int) { (x + 0x8000) % 0x1_0000 - 0x8000 }

  /** `n` times the same byte. */
  function Repeat(c: byte, n: nat): (s: seq<byte>)
    ensures |s| == n && forall i :: 0 <= i < n ==> s[i] == c
  {
    if n == 0 then [] else [c] + Repeat(c, n - 1)
  }

  // Words and longs as the big-endian processor stores them

  function Stored16(v: int): (s: seq<byte>)
    ensures |s| == 2
  {
    [v % 0x1_0000 / 256, v % 256]
  }

  /** The word at offset `at`. */
  function Half(s: seq<byte>, at: nat): (v: nat)
    requires at + 2 <= |s|
    ensures v < 0x1_0000
  {
    var a: int, b: int := s[at], s[at + 1];
    a * 256 + b
  }

  function Loaded16(s: seq<byte>): (v: nat)
    requires |s| == 2
    ensures v < 0x1_0000
  {
    Half(s, 0)
  }

  lemma LoadedStored16(v: nat)
    requires v < 0x1_0000
    ensures Loaded16(Stored16(v)) == v && Stored16(v)[0] == v / 256 && Stored16(v)[1] == v % 256
  {
    assert v % 0x1_0000 == v;
  }

  lemma StoredLoaded16(s: seq<byte>)
    requires |s| == 2
    ensures Stored16(Loaded16(s)) == s
  {
    var a: int, b: int := s[0], s[1];
    LoadedStored16(Loaded16(s));
    assert (a * 256 + b) / 256 == a && (a * 256 + b) % 256 == b;
  }

  function Stored32(v: nat): (s: seq<byte>)
    requires v < WORD32
    ensures |s| == 4
  {
    [v / 0x100_0000, v / 0x1_0000 % 256, v / 0x100 % 256, v % 256]
  }

  /** The long at offset `at`. */
  function Long(s: seq<byte>, at: nat): (v: nat)
    requires at + 4 <= |s|
    ensures v < WORD32
  {
    var a: int, b: int, c: int, d: int := s[at], s[at + 1], s[at + 2], s[at + 3];
    a * 0x100_0000 + b * 0x1_0000 + c * 0x100 + d
  }

  function Loaded32(s: seq<byte>): (v: nat)
    requires |s| == 4
    ensures v < WORD32
  {
    Long(s, 0)
  }

  lemma StoredLoaded(s: seq<byte>)
    requires |s| == 4
    ensures Stored32(Loaded32(s)) == s
  {
    var v := Loaded32(s);
    var a: int, b: int, c: int, d: int := s[0], s[1], s[2], s[3];
    LongDigits(a, b, c, d);
    assert v == a * 0x100_0000 + b * 0x1_0000 + c * 0x100 + d;
  }

  lemma LongDigits(a: nat, b: nat, c: nat, d: nat)
    requires a < 256 && b < 256 && c < 256 && d < 256
    ensures var v := a * 0x100_0000 + b * 0x1_0000 + c * 0x100 + d;
            v / 0x100_0000 == a && v / 0x1_0000 % 256 == b && v / 0x100 % 256 == c && v % 256 == d
  {
    var v := a * 0x100_0000 + b * 0x1_0000 + c * 0x100 + d;
    assert v / 0x100 == a * 0x1_0000 + b * 0x100 + c;
    assert v / 0x1_0000 == a * 0x100 + b;
    assert v / 0x100_0000 == a;
  }

  lemma LoadedStored(v: nat)
    requires v < WORD32
    ensures Loaded32(Stored32(v)) == v
  {
    assert v / 0x1_0000 == v / 0x100 / 256 && v / 0x100_0000 == v / 0x1_0000 / 256;
  }
}
