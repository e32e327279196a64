/**
 The 8+3 alias of a long name: which numbers the existing entries occupy, how the
 first free one is chosen and patched in, and when the result is unique.
 */
module Alias {
  import opened Basics

  const BLANK: byte := 0x20
  const TILDE: byte := 0x7e
  const DIGIT_ZERO: byte := 0x30

  /** Alias numbers run from 0, the unnumbered name, to 1599. */
  const NUMBERS := 1600

  /** An 8+3 name in its stored form. */
  type Name = n: seq<byte> | |n| == 11
    witness [0x20, 0x20, 0x20, 0x20, 0x20, 0x20, 0x20, 0x20, 0x20, 0x20, 0x20]

  predicate IsDigit(c: byte) { DIGIT_ZERO <= c <= DIGIT_ZERO + 9 }

  datatype Tail = NotANumber | Value(v: int)

  /** The number that the characters from `u` up to a blank or the end of the base spell. */
  function TailNumber(d: Name, u: nat, acc: int): (r: Tail)
    decreases 8 - u
  {
    if u >= 8 || d[u] == BLANK then Value(acc)
    else if IsDigit(d[u]) then TailNumber(d, u + 1, Wrap16(acc * 10 + (d[u] - DIGIT_ZERO)))
    else NotANumber
  }

  /** What an existing entry occupies; `Wild` is a store outside the table of numbers. */
  datatype Mark = Nothing | Number(n: nat) | Wild

  function MarkFrom(base: Name, d: Name, j: nat): (m: Mark)
    requires 1 <= j
    ensures m.Number? ==> m.n < NUMBERS
    decreases 8 - j
  {
    if j >= 8 then Number(0)
    else
      var tail := if d[j] == TILDE then TailNumber(d, j + 1, 0) else NotANumber;
      if tail.Value? && tail.v < NUMBERS then
        if tail.v < 0 then Wild else Number(tail.v)
      else if base[j] != d[j] then Nothing
      else MarkFrom(base, d, j + 1)
  }

  function MarkOf(base: Name, d: Name): (m: Mark)
    ensures m.Number? ==> m.n < NUMBERS
  {
    if base[8..] != d[8..] || base[0] != d[0] then Nothing else MarkFrom(base, d, 1)
  }

  /** The number loop of the collision test. */
  method ParseTail(d: Name, start: nat) returns (r: Tail)
    requires start <= 8
    ensures r == TailNumber(d, start, 0)
  {
    var u, number := start, 0;
    while u < 8 && d[u] != BLANK
      invariant start <= u <= 8
      invariant TailNumber(d, start, 0) == TailNumber(d, u, number)
    {
      if !IsDigit(d[u]) {
        return NotANumber;
      }
      number := Wrap16(number * 10 + (d[u] - DIGIT_ZERO));
      u := u + 1;
    }
    return Value(number);
  }

  /** The collision test for one main entry. */
  method NoteEntry(base: Name, d: Name, used: array<bool>) returns (wild: bool)
    requires used.Length == NUMBERS
    modifies used
    ensures wild == MarkOf(base, d).Wild?
    ensures forall k :: 0 <= k < NUMBERS ==> used[k] == (old(used[k]) || MarkOf(base, d) == Number(k))
  {
    wild := false;
    if base[8] != d[8] || base[9] != d[9] || base[10] != d[10] || base[0] != d[0] {
      assert base[8..] != d[8..] || base[0] != d[0] by {
        if base[8..] == d[8..] {
          assert forall i :: 8 <= i < 11 ==> base[i] == base[8..][i - 8] == d[8..][i - 8] == d[i];
        }
      }
      return;
    }
    assert base[8..] == d[8..];
    var t := 1;
    while t < 8
      invariant 1 <= t <= 8
      invariant MarkOf(base, d) == MarkFrom(base, d, t)
      invariant forall k :: 0 <= k < NUMBERS ==> used[k] == old(used[k])
    {
      if d[t] == TILDE {
        var tail := ParseTail(d, t + 1);
        if tail.Value? && tail.v < NUMBERS {
          if tail.v < 0 {
            return true;
          }
          used[tail.v] := true;
          return;
        }
      }
      if base[t] != d[t] {
        return;
      }
      t := t + 1;
    }
    used[0] := true;
  }

  // ---------- Choosing and writing the number ----------

  /** The search over 200 bytes of eight flags each. */
  method PickNumber(used: array<bool>) returns (found: bool, number: nat)
    requires used.Length == NUMBERS
    ensures found ==> number < NUMBERS && !used[number]
    ensures found ==> forall k :: 0 <= k < number ==> used[k]
    ensures !found ==> forall k :: 0 <= k < NUMBERS ==> used[k]
  {
    for len := 0 to 200
      invariant forall k :: 0 <= k < 8 * len ==> used[k]
    {
      for bit := 0 to 8
        invariant forall k :: 0 <= k < 8 * len + bit ==> used[k]
      {
        if !used[8 * len + bit] {
          return true, 8 * len + bit;
        }
      }
    }
    return false, 0;
  }

  function Decimal(k: nat): (ds: seq<byte>)
    ensures ds != [] && forall i :: 0 <= i < |ds| ==> IsDigit(ds[i])
  {
    (if k < 10 then [] else Decimal(k / 10)) + [DIGIT_ZERO + k % 10]
  }

  function DigitCount(k: nat): (n: nat)
  {
    if k > 999 then 4 else if k > 99 then 3 else if k > 9 then 2 else 1
  }

  lemma DecimalLength(k: nat)
    requires k < 10000
    ensures |Decimal(k)| == DigitCount(k)
  {
    if k >= 10 {
      DecimalLength(k / 10);
    }
  }

  /** The last character at or before `p` that is not a blank, or -1: the place in front of the name. */
  function LastNonBlank(base: Name, p: nat): (r: int)
    requires p < 8
    ensures -1 <= r <= p && (r >= 0 ==> base[r] != BLANK) && forall i :: r < i <= p ==> base[i] == BLANK
  {
    if base[p] != BLANK then p else if p == 0 then -1 else LastNonBlank(base, p - 1)
  }

  /**
   The alias with number `k`: as much of the base as leaves room, a tilde, the number. Where
   only blanks would stand in front of the number, the tilde comes first.
   */
  function AliasName(base: Name, k: nat): (r: Name)
    requires k < NUMBERS
  {
    if k == 0 then base
    else
      DecimalLength(k);
      var ds := Decimal(k);
      var p := LastNonBlank(base, 6 - |ds|);
      base[..p + 1] + [TILDE] + ds + base[p + 2 + |ds|..]
  }

  ghost predicate BlankUpTo(base: Name, p: nat)
    requires p < 8
  {
    forall i :: 0 <= i <= p ==> base[i] == BLANK
  }

  /**
   Number `k` can be stored inside the name: it finds a character of the base to stand behind, or
   the walk over the blanks stops at the byte in front of the name, which is `front`.
   */
  ghost predicate Patchable(base: Name, k: nat, front: byte)
    requires k < NUMBERS
  {
    k == 0 || front != BLANK || !BlankUpTo(base, 6 - DigitCount(k))
  }

  /**
   The patching code: the walk to the left over blanks, then the digits from the back and the
   tilde last. It stores outside the name exactly when the walk has passed the byte in front of
   the name, because that and everything behind it are blanks.
   */
  method PatchAlias(base: Name, k: nat, front: byte) returns (r: Option<Name>)
    requires 0 < k < NUMBERS
    ensures r == if Patchable(base, k, front) then Some(AliasName(base, k)) else None
  {
    var len := 2;
    if k > 9 {
      len := len + 1;
      if k > 99 {
        len := len + 1;
        if k > 999 {
          len := len + 1;
        }
      }
    }
    DecimalLength(k);
    var s := 7 - len;
    while s >= 0 && base[s] == BLANK
      invariant -1 <= s <= 7 - len
      invariant forall i :: s < i <= 7 - len ==> base[i] == BLANK
      invariant LastNonBlank(base, 7 - len) == if s < 0 then -1 else LastNonBlank(base, s)
      decreases s
    {
      s := s - 1;
    }
    if s < 0 && front == BLANK {
      return None;
    }
    var patched := StoreNumber(base, s, len, k);
    return Some(patched);
  }

  /** Stores the digits of `k` up to index `p + len`, backwards, and the tilde before them. */
  method StoreNumber(base: Name, p: int, len: nat, k: nat) returns (r: Name)
    requires -1 <= p && 0 < k && len == |Decimal(k)| + 1 && p + len < 8
    ensures r == base[..p + 1] + [TILDE] + Decimal(k) + base[p + len + 1..]
  {
    ghost var ds := Decimal(k);
    var s, number := p + len, k;
    r := base;
    assert ds[..|ds|] == ds;
    while number != 0
      invariant p + 1 <= s <= p + len
      invariant number == 0 <==> s == p + 1
      invariant number != 0 ==> Decimal(number) == ds[..s - p - 1]
      invariant forall i :: 0 <= i < 11 ==> r[i] == if s < i <= p + len then ds[i - p - 2] else base[i]
    {
      ghost var rest := Decimal(number);
      assert rest[|rest| - 1] == ds[s - p - 2];
      assert number >= 10 ==> Decimal(number / 10) == rest[..|rest| - 1] == ds[..s - p - 2];
      r := r[s := DIGIT_ZERO + number % 10];
      s := s - 1;
      number := number / 10;
    }
    r := r[s := TILDE];
  }

  // ---------- Uniqueness ----------

  /** Blanks only pad the base at its end. */
  ghost predicate PaddedAtEnd(base: Name)
  {
    base[0] != BLANK && forall i, j :: 0 <= i < j < 8 && base[i] == BLANK ==> base[j] == BLANK
  }

  function ValueOf(ds: seq<byte>, acc: nat): (v: nat)
    requires forall i :: 0 <= i < |ds| ==> IsDigit(ds[i])
    ensures v >= acc
  {
    if ds == [] then acc else assert IsDigit(ds[0]); ValueOf(ds[1..], acc * 10 + (ds[0] - DIGIT_ZERO))
  }

  lemma {:induction false} ValueOfSnoc(ds: seq<byte>, c: byte, acc: nat)
    requires IsDigit(c) && forall i :: 0 <= i < |ds| ==> IsDigit(ds[i])
    ensures ValueOf(ds + [c], acc) == ValueOf(ds, acc) * 10 + (c - DIGIT_ZERO)
    decreases |ds|
  {
    if ds == [] {
      assert ds + [c] == [c];
      assert [c][1..] == [];
    } else {
      assert (ds + [c])[1..] == ds[1..] + [c];
      ValueOfSnoc(ds[1..], c, acc * 10 + (ds[0] - DIGIT_ZERO));
    }
  }

  lemma {:induction false} DecimalSpells(k: nat)
    ensures ValueOf(Decimal(k), 0) == k
    decreases k
  {
    var c: byte := DIGIT_ZERO + k % 10;
    if k < 10 {
      assert Decimal(k) == [c];
      assert [c][1..] == [];
    } else {
      DecimalSpells(k / 10);
      ValueOfSnoc(Decimal(k / 10), c, 0);
    }
  }

  lemma SmallStays(x: nat)
    requires x < 0x8000
    ensures Wrap16(x) == x
  {
  }

  /** Digits followed by a blank or the end are read as their value when it fits 16 bits. */
  lemma {:induction false} TailReadsDigits(d: Name, u: nat, ds: seq<byte>, acc: nat)
    requires u + |ds| <= 8 && d[u..u + |ds|] == ds
    requires u + |ds| == 8 || d[u + |ds|] == BLANK
    requires forall i :: 0 <= i < |ds| ==> IsDigit(ds[i])
    requires ValueOf(ds, acc) < 0x8000
    ensures TailNumber(d, u, acc) == Value(ValueOf(ds, acc))
    decreases |ds|
  {
    hide Wrap16;
    if ds != [] {
      assert d[u] == d[u..u + |ds|][0] && IsDigit(ds[0]);
      assert d[u + 1..u + |ds|] == ds[1..];
      var next := acc * 10 + (ds[0] - DIGIT_ZERO);
      assert next <= ValueOf(ds[1..], next) == ValueOf(ds, acc);
      SmallStays(next);
      TailReadsDigits(d, u + 1, ds[1..], next);
    }
  }

  /** A tilde further on, with no blank before it, spoils the number. */
  lemma {:induction false} TailHitsTilde(d: Name, u: nat, q: nat, acc: int)
    requires u <= q < 8 && d[q] == TILDE && forall i :: u <= i < q ==> d[i] != BLANK
    ensures TailNumber(d, u, acc) == NotANumber
    decreases q - u
  {
    if u < q && IsDigit(d[u]) {
      TailHitsTilde(d, u + 1, q, Wrap16(acc * 10 + (d[u] - DIGIT_ZERO)));
    }
  }

  /** Up to the last tilde the comparison finds nothing but equal characters. */
  lemma {:induction false} PrefixIsPassed(base: Name, d: Name, j: nat, q: nat)
    requires 1 <= j <= q < 8 && d[q] == TILDE
    requires forall i :: j <= i < q ==> d[i] == base[i] && d[i] != BLANK
    ensures MarkFrom(base, d, j) == MarkFrom(base, d, q)
    decreases q - j
  {
    if j < q {
      TailHitsTilde(d, j + 1, q, 0);
      PrefixIsPassed(base, d, j + 1, q);
    }
  }

  /** Where the tilde and the number of an alias stand. */
  lemma AliasShape(base: Name, k: nat) returns (p: nat)
    requires PaddedAtEnd(base) && 0 < k < NUMBERS
    ensures var d, ds := AliasName(base, k), Decimal(k);
            && p + 2 + |ds| <= 8 && d[p + 1] == TILDE && d[p + 2..p + 2 + |ds|] == ds && d[8..] == base[8..]
            && (forall i :: 0 <= i <= p ==> d[i] == base[i] && d[i] != BLANK)
            && (p + 2 + |ds| == 8 || d[p + 2 + |ds|] == BLANK)
  {
    DecimalLength(k);
    var ds := Decimal(k);
    p := LastNonBlank(base, 6 - |ds|);
    var end := p + 2 + |ds|;
    if end != 8 {
      assert base[p + 1] == BLANK;
      assert AliasName(base, k)[end] == base[end];
    }
  }

  /** An entry that already bears the alias with number `k` is noted as occupying `k`. */
  lemma AliasIsNoted(base: Name, k: nat)
    requires PaddedAtEnd(base) && 0 < k < NUMBERS
    ensures MarkOf(base, AliasName(base, k)) == Number(k)
  {
    hide AliasName, Decimal, ValueOf;
    var d := AliasName(base, k);
    var p := AliasShape(base, k);
    DecimalSpells(k);
    TailReadsDigits(d, p + 2, Decimal(k), 0);
    PrefixIsPassed(base, d, 1, p + 1);
  }

  /** The base spells a number below 1600, other than 0, behind a tilde of its own. */
  ghost predicate IsNumbered(base: Name)
  {
    exists j :: 1 <= j < 8 && base[j] == TILDE
             && var t := TailNumber(base, j + 1, 0); t.Value? && 0 < t.v < NUMBERS
  }

  /** An entry equal to the base is noted under the number in the base, if there is one. */
  lemma {:induction false} SelfMark(base: Name, j: nat)
    requires PaddedAtEnd(base) && 1 <= j <= 8
    ensures MarkFrom(base, base, j) == Number(0) || MarkFrom(base, base, j) == Wild ||
            exists i :: j <= i < 8 && base[i] == TILDE
                     && var t := TailNumber(base, i + 1, 0); t.Value? && 0 < t.v < NUMBERS
    ensures forall i :: j <= i < 8 && base[i] == TILDE && TailNumber(base, i + 1, 0).Value?
                     && 0 < TailNumber(base, i + 1, 0).v < NUMBERS
              ==> MarkFrom(base, base, j) == Number(TailNumber(base, i + 1, 0).v)
    decreases 8 - j
  {
    if j < 8 {
      SelfMark(base, j + 1);
      forall i | j < i < 8 && base[j] == TILDE && base[i] == TILDE
        ensures TailNumber(base, j + 1, 0) == NotANumber
      {
        TailHitsTilde(base, j + 1, i, 0);
      }
    }
  }

  /**
   Number `k` is free in a directory whose other main entries have the names `ds`.
   `taken` tells that the unnumbered base cannot be used to begin with.
   */
  ghost predicate Used(base: Name, taken: bool, ds: seq<Name>, k: nat)
  {
    (k == 0 && taken) || exists i :: 0 <= i < |ds| && MarkOf(base, ds[i]) == Number(k)
  }

  /** `k` is what the search returns: the first number that is not used. */
  ghost predicate IsPick(base: Name, taken: bool, ds: seq<Name>, k: nat)
  {
    && k < NUMBERS && !Used(base, taken, ds, k)
    && (forall j :: 0 <= j < k ==> Used(base, taken, ds, j))
    && (forall i :: 0 <= i < |ds| ==> MarkOf(base, ds[i]) != Wild)
  }

  /** The base of a dot file. */
  ghost predicate IsBlank(base: Name)
  {
    BlankUpTo(base, 7)
  }

  /** The alias with number `k` can differ from all other names in every directory. */
  ghost predicate CanBeNew(base: Name, k: nat)
  {
    if k == 0 then !IsNumbered(base) else !IsBlank(base)
  }

  ghost predicate IsNew(base: Name, k: nat, ds: seq<Name>)
  {
    k < NUMBERS && AliasName(base, k) !in ds
  }

  lemma BlankMarksItself(base: Name, j: nat)
    requires IsBlank(base) && 1 <= j <= 8
    ensures MarkFrom(base, base, j) == Number(0)
    decreases 8 - j
  {
    if j < 8 {
      BlankMarksItself(base, j + 1);
    }
  }

  /**
   The alias differs from all other names unless it is the base itself and that is numbered, or
   a number had to be patched into a blank base.
   */
  lemma AliasIsUnique(base: Name, taken: bool, ds: seq<Name>, k: nat)
    requires (PaddedAtEnd(base) || IsBlank(base)) && IsPick(base, taken, ds, k) && CanBeNew(base, k)
    ensures AliasName(base, k) !in ds
  {
    if k > 0 {
      AliasIsNoted(base, k);
    } else if IsBlank(base) {
      BlankMarksItself(base, 1);
    } else {
      SelfMark(base, 1);
    }
  }

  /** A name that begins with a blank, a tilde and a number; for a blank base it occupies that number. */
  function Marker(base: Name, j: nat): (d: Name)
    requires j < NUMBERS
  {
    DecimalLength(j);
    var ds := Decimal(j);
    [BLANK, TILDE] + ds + Repeat(BLANK, 6 - |ds|) + base[8..]
  }

  lemma MarkerMarks(base: Name, j: nat)
    requires IsBlank(base) && j < NUMBERS
    ensures MarkOf(base, Marker(base, j)) == Number(j)
  {
    hide Decimal, ValueOf, TailNumber;
    DecimalLength(j);
    DecimalSpells(j);
    var d, ds := Marker(base, j), Decimal(j);
    assert d[2..2 + |ds|] == ds && d[8..] == base[8..];
    TailReadsDigits(d, 2, ds, 0);
  }

  /** A blank base does not recognise its own aliases: they begin with a tilde. */
  lemma BlankMissesItsAlias(base: Name, k: nat)
    requires IsBlank(base) && 0 < k < NUMBERS
    ensures AliasName(base, k)[0] == TILDE && MarkOf(base, AliasName(base, k)) == Nothing
  {
    hide Decimal;
    DecimalLength(k);
  }

  function Markers(base: Name, k: nat): (ds: seq<Name>)
    requires k <= NUMBERS
    ensures |ds| == k && forall j :: 0 <= j < k ==> ds[j] == Marker(base, j)
  {
    if k == 0 then [] else Markers(base, k - 1) + [Marker(base, k - 1)]
  }

  /** For every number there is a directory in which a blank base is given a name that is taken. */
  lemma BlankBaseCollides(base: Name, taken: bool, k: nat) returns (ds: seq<Name>)
    requires IsBlank(base) && 0 < k < NUMBERS
    ensures IsPick(base, taken, ds, k) && AliasName(base, k) in ds
  {
    hide MarkOf, Marker, AliasName, IsBlank;
    var ms := Markers(base, k);
    ds := ms + [AliasName(base, k)];
    BlankMissesItsAlias(base, k);
    forall j | 0 <= j < k
      ensures MarkOf(base, ds[j]) == Number(j)
    {
      MarkerMarks(base, j);
    }
    assert ds[k] == AliasName(base, k);
  }

  /**
   Alias uniqueness, number by number and exactly: the alias with number `k` differs from every
   other name in every directory in which it is chosen, if and only if the base is used as it is
   and not numbered, or the number is patched into a base that is not blank.
   */
  lemma AliasIsUniqueExactly(base: Name, taken: bool, k: nat)
    requires (PaddedAtEnd(base) || IsBlank(base)) && k < NUMBERS && (taken ==> k > 0)
    ensures (forall ds: seq<Name> :: IsPick(base, taken, ds, k) ==> IsNew(base, k, ds)) <==> CanBeNew(base, k)
  {
    if CanBeNew(base, k) {
      forall ds: seq<Name> | IsPick(base, taken, ds, k)
        ensures IsNew(base, k, ds)
      {
        AliasIsUnique(base, taken, ds, k);
      }
    } else if k > 0 {
      var ds := BlankBaseCollides(base, taken, k);
      assert !IsNew(base, k, ds);
    } else {
      BlankIsNotNumbered(base);
      SelfMark(base, 1);
      var ds: seq<Name> := [base];
      assert MarkOf(base, ds[0]).Number? && MarkOf(base, ds[0]) != Number(0);
      assert IsPick(base, taken, ds, 0);
      assert AliasName(base, 0) == ds[0] && !IsNew(base, 0, ds);
    }
  }

  lemma BlankIsNotNumbered(base: Name)
    ensures IsBlank(base) ==> !IsNumbered(base) && !PaddedAtEnd(base)
  {
  }

  // ---------- When the collision test leaves its table ----------

  /** A tilde at `j` with digits behind it, up to a blank or the end of the base at `m`. */
  ghost predicate Spells(d: Name, j: nat, m: nat)
  {
    && j < m <= 8 && d[j] == 0x7e && (m == 8 || d[m] == 0x20)
    && forall i :: j < i < m ==> 0x30 <= d[i] <= 0x39
  }

  /** The number spelled at `j`, as a signed word. */
  ghost function Spelled(d: Name, j: nat, m: nat): (v: int)
    requires Spells(d, j, m)
  {
    Wrap16(ValueOf(d[j + 1..m], 0))
  }

  lemma WrapStep(x: int, c: int)
    ensures Wrap16(Wrap16(x) * 10 + c) == Wrap16(x * 10 + c)
  {
    var q := (x + 0x8000) / 0x1_0000;
    assert Wrap16(x) == x - q * 0x1_0000;
    assert Wrap16(x) * 10 + c == x * 10 + c - (q * 10) * 0x1_0000;
  }

  /** The number loop computes the value of all digits, cut to a signed word. */
  lemma {:induction false} TailIsSpelled(d: Name, u: nat, m: nat, acc: nat)
    requires u <= m <= 8 && (m == 8 || d[m] == BLANK) && forall i :: u <= i < m ==> IsDigit(d[i])
    ensures TailNumber(d, u, Wrap16(acc)) == Value(Wrap16(ValueOf(d[u..m], acc)))
    decreases m - u
  {
    hide Wrap16;
    if u < m {
      var next := acc * 10 + (d[u] - DIGIT_ZERO);
      WrapStep(acc, d[u] - DIGIT_ZERO);
      TailIsSpelled(d, u + 1, m, next);
      assert d[u..m][1..] == d[u + 1..m];
    }
  }

  lemma {:induction false} TailEnds(d: Name, u: nat, acc: int) returns (m: nat)
    requires u <= 8 && TailNumber(d, u, acc).Value?
    ensures u <= m <= 8 && (m == 8 || d[m] == BLANK) && forall i :: u <= i < m ==> IsDigit(d[i])
    decreases 8 - u
  {
    if u == 8 || d[u] == BLANK {
      m := u;
    } else {
      m := TailEnds(d, u + 1, Wrap16(acc * 10 + (d[u] - DIGIT_ZERO)));
    }
  }

  /** A number below 1600 is spelled at `j`; the comparison of two names stops there. */
  ghost predicate StopsAt(d: Name, j: nat)
  {
    exists m: nat :: Spells(d, j, m) && Spelled(d, j, m) < NUMBERS
  }

  lemma StopsExactly(d: Name, j: nat)
    requires j < 8
    ensures var t := if d[j] == TILDE then TailNumber(d, j + 1, 0) else NotANumber;
            && (StopsAt(d, j) <==> t.Value? && t.v < NUMBERS)
            && (forall m: nat :: Spells(d, j, m) ==> t == Value(Spelled(d, j, m)))
            && (t.Value? ==> exists m: nat :: Spells(d, j, m))
  {
    hide Wrap16, TailNumber;
    SmallStays(0);
    forall m: nat | Spells(d, j, m)
      ensures TailNumber(d, j + 1, 0) == Value(Spelled(d, j, m))
    {
      TailIsSpelled(d, j + 1, m, 0);
    }
    if d[j] == TILDE && TailNumber(d, j + 1, 0).Value? {
      var m := TailEnds(d, j + 1, 0);
      assert Spells(d, j, m);
    }
  }

  /** Two names agree on `[from, to)`, and no number stops their comparison there. */
  ghost predicate Agree(base: Name, d: Name, from: nat, to: nat)
    requires to <= 8
  {
    forall i :: from <= i < to ==> base[i] == d[i] && !StopsAt(d, i)
  }

  /** The first stop behind a common beginning is at `j`. */
  ghost predicate FirstStop(base: Name, d: Name, from: nat, j: nat, m: nat)
  {
    from <= j && Spells(d, j, m) && Spelled(d, j, m) < NUMBERS && Agree(base, d, from, j)
  }

  /** What a number that is spelled marks. */
  ghost function MarkFor(v: int): (m: Mark) { if v < 0 then Wild else Number(v) }

  lemma MarkStep(base: Name, d: Name, j: nat)
    requires 1 <= j < 8
    ensures forall m: nat :: Spells(d, j, m) && Spelled(d, j, m) < NUMBERS ==>
      MarkFrom(base, d, j) == MarkFor(Spelled(d, j, m))
    ensures !StopsAt(d, j) ==>
      MarkFrom(base, d, j) == if base[j] != d[j] then Nothing else MarkFrom(base, d, j + 1)
  {
    hide Wrap16, TailNumber, ValueOf, Spelled;
    StopsExactly(d, j);
  }

  lemma {:induction false} StopMarks(base: Name, d: Name, from: nat, j: nat, m: nat)
    requires 1 <= from && FirstStop(base, d, from, j, m)
    ensures MarkFrom(base, d, from) == MarkFor(Spelled(d, j, m))
    decreases j - from
  {
    hide MarkFrom, Spelled, StopsAt;
    MarkStep(base, d, from);
    if from < j {
      StopMarks(base, d, from + 1, j, m);
    }
  }

  lemma {:induction false} AgreementMarksZero(base: Name, d: Name, from: nat)
    requires 1 <= from <= 8 && Agree(base, d, from, 8)
    ensures MarkFrom(base, d, from) == Number(0)
    decreases 8 - from
  {
    hide Spelled, StopsAt;
    if from < 8 {
      MarkStep(base, d, from);
      AgreementMarksZero(base, d, from + 1);
    }
  }

  /** Nothing else makes a mark. */
  lemma {:induction false} MarkHasReason(base: Name, d: Name, from: nat)
    requires 1 <= from <= 8 && MarkFrom(base, d, from) != Nothing
    ensures || (exists j: nat, m: nat ::
                  FirstStop(base, d, from, j, m) && MarkFrom(base, d, from) == MarkFor(Spelled(d, j, m)))
            || (Agree(base, d, from, 8) && MarkFrom(base, d, from) == Number(0))
    decreases 8 - from
  {
    if from < 8 {
      hide MarkFrom, Spelled;
      MarkStep(base, d, from);
      if StopsAt(d, from) {
        var m: nat :| Spells(d, from, m) && Spelled(d, from, m) < NUMBERS;
        assert FirstStop(base, d, from, from, m);
      } else {
        hide StopsAt;
        MarkHasReason(base, d, from + 1);
        if !Agree(base, d, from + 1, 8) {
          var j: nat, m: nat :|
            FirstStop(base, d, from + 1, j, m) && MarkFrom(base, d, from) == MarkFor(Spelled(d, j, m));
          assert FirstStop(base, d, from, j, m);
        }
      }
    }
  }

  /**
   Which entries occupy number `k`, exactly: those with the extension and the first character of
   the new name that agree with it up to a tilde behind which `k` is spelled, and, for the
   unnumbered name, the very same name without a number in it.
   */
  lemma NumberExactly(base: Name, d: Name, k: nat)
    ensures MarkOf(base, d) == Number(k) <==>
            && base[8..] == d[8..] && base[0] == d[0]
            && (|| (exists j: nat, m: nat :: FirstStop(base, d, 1, j, m) && Spelled(d, j, m) == k)
                || (k == 0 && d == base && Agree(base, d, 1, 8)))
  {
    hide MarkFrom, Spelled, StopsAt;
    if base[8..] == d[8..] && base[0] == d[0] {
      if MarkFrom(base, d, 1) == Number(k) {
        MarkHasReason(base, d, 1);
        if Agree(base, d, 1, 8) {
          assert forall i :: 8 <= i < 11 ==> base[i] == base[8..][i - 8] == d[8..][i - 8] == d[i];
          assert d == base;
        }
      }
      forall j: nat, m: nat | FirstStop(base, d, 1, j, m) && Spelled(d, j, m) == k
        ensures MarkFrom(base, d, 1) == Number(k)
      {
        StopMarks(base, d, 1, j, m);
      }
      if Agree(base, d, 1, 8) {
        AgreementMarksZero(base, d, 1);
      }
    }
  }

  /** The first stop behind a common beginning is at `j`, where a number with its sign bit set is spelled. */
  ghost predicate WrapsAt(base: Name, d: Name, from: nat, j: nat, m: nat)
  {
    && from <= j && Spells(d, j, m) && 0x8000 <= ValueOf(d[j + 1..m], 0) % 0x1_0000
    && Agree(base, d, from, j)
  }

  ghost predicate Wraps(base: Name, d: Name, from: nat)
  {
    exists j: nat, m: nat :: WrapsAt(base, d, from, j, m)
  }

  lemma SignBit(v: nat)
    ensures Wrap16(v) < 0 <==> 0x8000 <= v % 0x1_0000
  {
  }

  lemma WrapIsStop(base: Name, d: Name, j: nat, m: nat)
    requires Spells(d, j, m)
    ensures WrapsAt(base, d, 1, j, m) <==> FirstStop(base, d, 1, j, m) && Spelled(d, j, m) < 0
  {
    hide Wrap16, ValueOf, StopsAt;
    SignBit(ValueOf(d[j + 1..m], 0));
  }

  /**
   The collision test writes outside its table of 1600 flags exactly when an entry has the same
   extension and the same beginning as the new name and then a tilde and digits whose value has
   the sign bit of a word set.
   */
  lemma WildExactly(base: Name, d: Name)
    ensures MarkOf(base, d) == Wild <==>
            base[8..] == d[8..] && base[0] == d[0] && Wraps(base, d, 1)
  {
    hide MarkFrom, Spelled, StopsAt, Agree, ValueOf;
    if MarkFrom(base, d, 1) == Wild {
      MarkHasReason(base, d, 1);
      var j: nat, m: nat :| FirstStop(base, d, 1, j, m) && MarkFor(Spelled(d, j, m)) == Wild;
      WrapIsStop(base, d, j, m);
    }
    forall j: nat, m: nat | WrapsAt(base, d, 1, j, m)
      ensures MarkFrom(base, d, 1) == Wild
    {
      WrapIsStop(base, d, j, m);
      StopMarks(base, d, 1, j, m);
    }
  }

  lemma FortyThousand()
    ensures ValueOf([0x34, 0x30, 0x30, 0x30, 0x30], 0) == 40000
  {
    var a: seq<byte> := [0x34];
    var b, c, d := a + [0x30], a + [0x30] + [0x30], a + [0x30] + [0x30] + [0x30];
    ValueOfSnoc([], 0x34, 0);
    assert [] + a == a;
    ValueOfSnoc(a, 0x30, 0);
    ValueOfSnoc(b, 0x30, 0);
    ValueOfSnoc(c, 0x30, 0);
    ValueOfSnoc(d, 0x30, 0);
    assert d + [0x30] == [0x34, 0x30, 0x30, 0x30, 0x30];
  }

  /** An existing A~40000.TXT makes the test for AB.TXT write outside its table. */
  lemma LargeNumberIsWild()
    ensures var base: Name := [0x41, 0x42, 0x20, 0x20, 0x20, 0x20, 0x20, 0x20, 0x54, 0x58, 0x54];
            var d: Name := [0x41, 0x7e, 0x34, 0x30, 0x30, 0x30, 0x30, 0x20, 0x54, 0x58, 0x54];
            MarkOf(base, d) == Wild
  {
    hide MarkOf, ValueOf, StopsAt;
    var base: Name := [0x41, 0x42, 0x20, 0x20, 0x20, 0x20, 0x20, 0x20, 0x54, 0x58, 0x54];
    var d: Name := [0x41, 0x7e, 0x34, 0x30, 0x30, 0x30, 0x30, 0x20, 0x54, 0x58, 0x54];
    WildExactly(base, d);
    FortyThousand();
    assert base[8..] == [0x54, 0x58, 0x54] == d[8..];
    assert d[2..7] == [0x34, 0x30, 0x30, 0x30, 0x30];
    assert WrapsAt(base, d, 1, 1, 7);
  }
}
