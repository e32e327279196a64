/**
 File names before they reach a directory: upper case, the stored 8+3 form of a name and the
 way back, and the test that refuses names.
 */
module Names {
  import opened Basics
  import opened LongNames
  import opened Alias

  const DOT: byte := 0x2e
  const STAR: byte := 0x2a
  const QUESTION: byte := 0x3f
  const COLON: byte := 0x3a
  const BACKSLASH: byte := 0x5c
  const UNDERSCORE: byte := 0x5f

  // ---------- Upper case ----------

  /** Letters of the Atari character set in upper case. */
  function Upper(c: byte): (u: byte)
  {
    if 0x61 <= c <= 0x7a then c - 0x20
    else
      match c
      case 0x84 => 0x8e case 0x94 => 0x99 case 0x81 => 0x9a case 0x82 => 0x90 case 0x85 => 0xb6
      case 0x86 => 0x8f case 0x87 => 0x80 case 0x91 => 0x92 case 0xa4 => 0xa5 case 0xb0 => 0xb7
      case 0xb1 => 0xb8 case 0xb3 => 0xb2 case 0xb4 => 0xb5 case 0xc0 => 0xc1
      case _ => c
  }

  /** Upper case is reached in one step, and no other character becomes one with a meaning of its own. */
  lemma UpperIsFinal(c: byte, mark: byte)
    requires mark in [0, BLANK, DOT, STAR, BACKSLASH, 0xe5]
    ensures Upper(Upper(c)) == Upper(c) && (Upper(c) == mark <==> c == mark)
  {
  }

  function UpperAll(s: seq<byte>): (r: seq<byte>)
    ensures |r| == |s| && forall i :: 0 <= i < |s| ==> r[i] == Upper(s[i])
  {
    if s == [] then [] else [Upper(s[0])] + UpperAll(s[1..])
  }

  /** The comparison of two names, which does not regard case. */
  predicate SameName(a: seq<byte>, b: seq<byte>) { UpperAll(a) == UpperAll(b) }

  /** A small letter and its capital: the 26 of the alphabet, and fourteen with accents. */
  ghost predicate CasePair(small: byte, capital: byte)
  {
    || (0x61 <= small <= 0x7a && 0x41 <= capital <= 0x5a && small - capital == 0x20)
    || (small == 0x84 && capital == 0x8e) || (small == 0x94 && capital == 0x99)
    || (small == 0x81 && capital == 0x9a) || (small == 0x82 && capital == 0x90)
    || (small == 0x85 && capital == 0xb6) || (small == 0x86 && capital == 0x8f)
    || (small == 0x87 && capital == 0x80) || (small == 0x91 && capital == 0x92)
    || (small == 0xa4 && capital == 0xa5) || (small == 0xb0 && capital == 0xb7)
    || (small == 0xb1 && capital == 0xb8) || (small == 0xb3 && capital == 0xb2)
    || (small == 0xb4 && capital == 0xb5) || (small == 0xc0 && capital == 0xc1)
  }

  ghost predicate IsSmall(c: byte)
  {
    || 0x61 <= c <= 0x7a
    || c in [0x84, 0x94, 0x81, 0x82, 0x85, 0x86, 0x87, 0x91, 0xa4, 0xb0, 0xb1, 0xb3, 0xb4, 0xc0]
  }

  /** Upper case is what the pairs say, and nothing else. */
  lemma UpperExactly(c: byte, d: byte)
    ensures !IsSmall(Upper(c)) && (if IsSmall(c) then CasePair(c, Upper(c)) else Upper(c) == c)
    ensures Upper(c) == Upper(d) <==> c == d || CasePair(c, d) || CasePair(d, c)
  {
  }

  /** Two names of one length whose characters are equal or pairs. */
  ghost predicate DifferInCase(a: seq<byte>, b: seq<byte>)
  {
    |a| == |b| && forall i :: 0 <= i < |a| ==> a[i] == b[i] || CasePair(a[i], b[i]) || CasePair(b[i], a[i])
  }

  /** Names are the same exactly if they differ in nothing but the case of their letters. */
  lemma SameNameExactly(a: seq<byte>, b: seq<byte>)
    ensures SameName(a, b) <==> DifferInCase(a, b)
  {
    hide Upper, CasePair;
    if |a| == |b| {
      forall i | 0 <= i < |a|
        ensures Upper(a[i]) == Upper(b[i]) <==> a[i] == b[i] || CasePair(a[i], b[i]) || CasePair(b[i], a[i])
      {
        UpperExactly(a[i], b[i]);
      }
      if SameName(a, b) {
        assert forall i :: 0 <= i < |a| ==> UpperAll(a)[i] == UpperAll(b)[i];
      }
    } else {
      assert |UpperAll(a)| != |UpperAll(b)|;
    }
  }

  // ---------- From the stored form to a name ----------

  /** The stored 8+3 name in the form `NAME.EXT`. */
  function Expanded(n: Name): (text: seq<byte>)
  {
    BaseText(n, 0) + if 0 in n[..8] then [] else ExtText(n, 8)
  }

  function BaseText(n: Name, i: nat): (text: seq<byte>)
    requires i <= 8
    decreases 8 - i
  {
    if i == 8 || n[i] == 0 then []
    else if n[i] == BLANK then BaseText(n, i + 1)
    else [n[i]] + BaseText(n, i + 1)
  }

  function ExtText(n: Name, i: nat): (text: seq<byte>)
    requires 8 <= i <= 11
    decreases 11 - i
  {
    if i == 11 || n[i] == 0 || n[i] == BLANK then []
    else (if i == 8 then [DOT] else []) + [n[i]] + ExtText(n, i + 1)
  }

  // ---------- From a name to its stored form ----------

  /** Where an element of a path ends: at a separator or at the end of the string. */
  function ElementEnd(name: seq<byte>, i: nat): (e: nat)
    requires i <= |name|
    ensures i <= e <= |name| && forall k :: i <= k < e ==> name[k] != 0x5c
    ensures e < |name| ==> name[e] == 0x5c
    decreases |name| - i
  {
    if i == |name| || name[i] == BACKSLASH then i else ElementEnd(name, i + 1)
  }

  /** The first element of a path. */
  function Element(name: seq<byte>): (elem: seq<byte>) { name[..ElementEnd(name, 0)] }

  /** How many characters make the base: up to the first dot or star, at most eight. */
  function BaseLength(elem: seq<byte>, i: nat): (n: nat)
    requires i <= |elem| && i <= 8
    ensures i <= n <= |elem| && n <= 8 && forall k :: i <= k < n ==> elem[k] != DOT && elem[k] != STAR
    ensures n < 8 && n < |elem| ==> elem[n] == DOT || elem[n] == STAR
    decreases |elem| - i
  {
    if i == |elem| || i == 8 || elem[i] == DOT || elem[i] == STAR then i else BaseLength(elem, i + 1)
  }

  /** The base ends in a star, which stands for any characters. */
  predicate HasStar(elem: seq<byte>)
  {
    var b := BaseLength(elem, 0);
    b < 8 && b < |elem| && elem[b] == STAR
  }

  /** Behind the last dot from `i` on, or `e` if there is none. */
  function AfterLastDot(elem: seq<byte>, i: nat, e: nat): (r: nat)
    requires i <= |elem|
    ensures forall k :: i <= k < |elem| && r <= k ==> elem[k] != DOT
    ensures r == e || (i < r <= |elem| && elem[r - 1] == DOT)
    ensures (forall k :: i <= k < |elem| ==> elem[k] != DOT) ==> r == e
    decreases |elem| - i
  {
    if i == |elem| then e else AfterLastDot(elem, i + 1, if elem[i] == DOT then i + 1 else e)
  }

  /** Where the extension begins: behind the last dot, or behind a star that ends the base. */
  function ExtStart(elem: seq<byte>): (e: nat)
    ensures e <= |elem|
  {
    var b := BaseLength(elem, 0);
    if !HasStar(elem) then AfterLastDot(elem, b, |elem|)
    else if b + 1 < |elem| && elem[b + 1] == DOT then b + 2 else b + 1
  }

  predicate EndsExt(c: byte) { c == BLANK || c == DOT || c == STAR }

  /** How many characters make the extension: up to a blank, a dot or a star, at most three. */
  function ExtLength(elem: seq<byte>, e: nat, n: nat): (r: nat)
    requires e + n <= |elem| && n <= 3
    ensures n <= r <= 3 && e + r <= |elem| && forall k :: e + n <= k < e + r ==> !EndsExt(elem[k])
    ensures r < 3 && e + r < |elem| ==> EndsExt(elem[e + r])
    decreases 3 - n
  {
    if n == 3 || e + n == |elem| || EndsExt(elem[e + n]) then n else ExtLength(elem, e, n + 1)
  }

  /** What pads a field: question marks behind a star, otherwise blanks. */
  function FillAt(elem: seq<byte>, p: nat): (c: byte)
  {
    if p < |elem| && elem[p] == STAR then QUESTION else BLANK
  }

  /** A blank inside the base is stored as an underscore. */
  function BaseChar(c: byte): (u: byte) { Upper(if c == BLANK then UNDERSCORE else c) }

  function BaseChars(text: seq<byte>): (r: seq<byte>)
    ensures |r| == |text| && forall i :: 0 <= i < |text| ==> r[i] == BaseChar(text[i])
  {
    if text == [] then [] else [BaseChar(text[0])] + BaseChars(text[1..])
  }

  function BaseForm(elem: seq<byte>): (s: seq<byte>)
    ensures |s| == 8
  {
    var b := BaseLength(elem, 0);
    BaseChars(elem[..b]) + Repeat(if HasStar(elem) then QUESTION else BLANK, 8 - b)
  }

  function ExtForm(elem: seq<byte>): (s: seq<byte>)
    ensures |s| == 3
  {
    var e := ExtStart(elem);
    var x := ExtLength(elem, e, 0);
    UpperAll(elem[e..e + x]) + Repeat(FillAt(elem, e + x), 3 - x)
  }

  /** The stored form of an element: base and extension in upper case, padded. */
  function ShortForm(elem: seq<byte>): (n: Name) { BaseForm(elem) + ExtForm(elem) }

  /** An element without a wildcard: what a new name is. */
  ghost predicate IsElement(name: seq<byte>)
  {
    IsCString(name) && STAR !in name && BACKSLASH !in name
  }

  lemma WholeElement(name: seq<byte>)
    requires BACKSLASH !in name
    ensures Element(name) == name
  {
  }

  /** Where the first loop leaves the element: behind what ends the base, or behind eight characters. */
  ghost predicate BaseEnds(elem: seq<byte>, a2: nat, eight: bool, ended: bool)
  {
    var b := BaseLength(elem, 0);
    && (eight <==> b == 8) && a2 == (if eight then 8 else b + 1)
    && (ended <==> !eight && (b == |elem| || elem[b] == STAR))
  }

  /** The first loop: base characters, up to what ends them. `ended` tells that it was not a dot. */
  method ConvBase(name: seq<byte>) returns (out: seq<byte>, a2: nat, ended: bool)
    requires IsCString(name)
    ensures var elem := Element(name);
            var b := BaseLength(elem, 0);
            out == BaseChars(elem[..b]) && BaseEnds(elem, a2, b == 8, ended)
  {
    ghost var elem := Element(name);
    out, a2, ended := [], 0, false;
    assert elem[..0] == [];
    while |out| < 8
      invariant |out| <= 8 && a2 == |out| <= |elem| && !ended
      invariant out == BaseChars(elem[..a2]) && BaseLength(elem, 0) == BaseLength(elem, a2)
    {
      var c := CharAt(name, a2);
      a2 := a2 + 1;
      if c == 0 || c == STAR || c == BACKSLASH {
        ended := true;
        return;
      }
      if c == DOT {
        return;
      }
      BaseCharsSnoc(elem, a2 - 1);
      out := out + [BaseChar(c)];
    }
  }

  lemma BaseCharsSnoc(name: seq<byte>, i: nat)
    requires i < |name|
    ensures BaseChars(name[..i + 1]) == BaseChars(name[..i]) + [BaseChar(name[i])]
  {
  }

  /** The search for the last dot of the element. */
  method SkipToLastDot(name: seq<byte>, from: nat) returns (a2: nat)
    requires IsCString(name) && from <= |Element(name)|
    ensures from <= a2 <= |Element(name)| && a2 == AfterLastDot(Element(name), from, from)
  {
    ghost var elem := Element(name);
    a2 := from;
    var a0 := from;
    while a0 < |name| && name[a0] != BACKSLASH
      invariant from <= a2 <= a0 <= |elem|
      invariant AfterLastDot(elem, from, from) == AfterLastDot(elem, a0, a2)
    {
      a0 := a0 + 1;
      if name[a0 - 1] == DOT {
        a2 := a0;
      }
    }
  }

  lemma {:induction false} NoDotBefore(elem: seq<byte>, i: nat, j: nat, e: nat)
    requires i <= j <= |elem| && forall k :: i <= k < j ==> elem[k] != DOT
    ensures AfterLastDot(elem, i, e) == AfterLastDot(elem, j, e)
    decreases j - i
  {
    if i < j {
      NoDotBefore(elem, i + 1, j, e);
    }
  }

  /** Behind a dot it does not matter what was assumed before. */
  lemma {:induction false} DotDecides(elem: seq<byte>, i: nat, e: nat, f: nat, k: nat)
    requires i <= k < |elem| && elem[k] == DOT
    ensures AfterLastDot(elem, i, e) == AfterLastDot(elem, i, f)
    decreases k - i
  {
    if i < k {
      DotDecides(elem, i + 1, if elem[i] == DOT then i + 1 else e, if elem[i] == DOT then i + 1 else f, k);
    }
  }

  /** What the search for the last dot has found by then. */
  lemma ExtFound(elem: seq<byte>, a2: nat, eight: bool)
    requires BaseEnds(elem, a2, eight, false) && a2 <= |elem|
    ensures var e, f := ExtStart(elem), AfterLastDot(elem, a2, a2);
            || (f == e && elem[f - 1] == DOT)
            || (eight && f == 8 && e == |elem| && forall k :: 7 <= k < |elem| ==> elem[k] != DOT)
  {
    if eight {
      if k :| 8 <= k < |elem| && elem[k] == DOT {
        DotDecides(elem, 8, 8, |elem|, k);
      }
    }
  }

  /** From where the base ends, the start of the extension and the character that pads the base. */
  method FindExt(name: seq<byte>, a2: nat, eight: bool, ended: bool) returns (e: nat, fill: byte)
    requires IsCString(name) && BaseEnds(Element(name), a2, eight, ended)
    ensures e == ExtStart(Element(name)) && fill == if HasStar(Element(name)) then QUESTION else BLANK
  {
    ghost var elem := Element(name);
    e := a2;
    if !ended {
      ExtFound(elem, a2, eight);
      e := SkipToLastDot(name, a2);
    }
    ghost var found := e;
    e := e - 1;
    if eight {
      while e < |name| && name[e] != DOT && name[e] != BACKSLASH
        invariant found - 1 <= e <= |elem|
        invariant forall k :: found - 1 <= k < e ==> elem[k] != DOT
      {
        e := e + 1;
      }
    }
    fill := if CharAt(name, e) == STAR then QUESTION else BLANK;
    if CharAt(name, e) == STAR {
      e := e + 1;
    }
    if CharAt(name, e) == DOT {
      e := e + 1;
    }
  }

  /** The extension, up to a character that ends it, padded. */
  method ConvExt(name: seq<byte>, e: nat) returns (out: seq<byte>)
    requires IsCString(name) && e == ExtStart(Element(name))
    ensures out == ExtForm(Element(name))
  {
    hide UpperAll, Repeat, ExtStart;
    ghost var elem := Element(name);
    out := [];
    var a2 := e;
    assert elem[e..e] == [] && UpperAll([]) == [];
    while |out| < 3 && a2 < |name| && name[a2] != BACKSLASH && !EndsExt(name[a2])
      invariant |out| <= 3 && a2 == e + |out| <= |elem|
      invariant out == UpperAll(elem[e..a2]) && ExtLength(elem, e, 0) == ExtLength(elem, e, |out|)
    {
      UpperAllSnoc(elem, e, a2);
      out := out + [Upper(name[a2])];
      a2 := a2 + 1;
    }
    var fill := if CharAt(name, a2) == STAR then QUESTION else BLANK;
    assert ExtLength(elem, e, 0) == |out|;
    assert |out| < 3 ==> fill == FillAt(elem, a2);
    NoPadding(fill, FillAt(elem, a2));
    out := out + Repeat(fill, 3 - |out|);
  }

  lemma NoPadding(c: byte, d: byte)
    ensures Repeat(c, 0) == Repeat(d, 0) == []
  {
  }

  lemma UpperAllSnoc(name: seq<byte>, e: nat, i: nat)
    requires e <= i < |name|
    ensures UpperAll(name[e..i + 1]) == UpperAll(name[e..i]) + [Upper(name[i])]
  {
  }

  /** The conversion to the stored form, for every string: what follows a separator does not count. */
  method Conv83(name: seq<byte>) returns (r: Name)
    requires IsCString(name)
    ensures r == ShortForm(Element(name))
  {
    hide ExtStart, ExtLength, BaseChars, UpperAll, Repeat, BaseEnds, BaseLength, IsCString, HasStar, ElementEnd;
    var base, a2, ended := ConvBase(name);
    var e, fill := FindExt(name, a2, |base| == 8, ended);
    var ext := ConvExt(name, e);
    var padded := base + Repeat(fill, 8 - |base|);
    assert padded == BaseForm(Element(name));
    r := padded + ext;
  }

  // ---------- What case means for the stored form ----------

  lemma FillIsNotSmall()
    ensures !IsSmall(BLANK) && !IsSmall(QUESTION)
  {
  }

  /** No small letter is ever stored. */
  lemma StoredIsCapital(elem: seq<byte>, k: nat)
    requires k < 11
    ensures !IsSmall(ShortForm(elem)[k])
  {
    hide Upper, BaseLength, ExtStart, ExtLength, HasStar, IsSmall;
    FillIsNotSmall();
    var b, e := BaseLength(elem, 0), ExtStart(elem);
    var x := ExtLength(elem, e, 0);
    if k < b {
      UpperExactly(if elem[k] == BLANK then UNDERSCORE else elem[k], 0);
    } else if 8 <= k < 8 + x {
      UpperExactly(elem[e + k - 8], 0);
      assert ExtForm(elem)[k - 8] == Upper(elem[e..e + x][k - 8]);
    }
  }

  /**
   Every character of the base is stored as it is or as its capital, a blank as an underscore, and
   so is every character of the extension.
   */
  lemma StoredChars(elem: seq<byte>, k: nat)
    ensures var n, b, e := ShortForm(elem), BaseLength(elem, 0), ExtStart(elem);
            && (k < b ==> if elem[k] == 0x20 then n[k] == 0x5f else n[k] == elem[k] || CasePair(elem[k], n[k]))
            && (k < ExtLength(elem, e, 0) ==> n[8 + k] == elem[e + k] || CasePair(elem[e + k], n[8 + k]))
  {
    hide BaseLength, ExtStart, ExtLength, HasStar, CasePair, Upper, IsSmall, ExtForm, BaseForm;
    var b, e := BaseLength(elem, 0), ExtStart(elem);
    if k < b {
      StoredInBase(elem, k);
    }
    if k < ExtLength(elem, e, 0) {
      StoredInExt(elem, k);
    }
  }

  lemma StoredInBase(elem: seq<byte>, k: nat)
    requires k < BaseLength(elem, 0)
    ensures var u := BaseForm(elem)[k];
            if elem[k] == 0x20 then u == 0x5f else u == elem[k] || CasePair(elem[k], u)
  {
    hide BaseLength, HasStar, CasePair, IsSmall;
    assert BaseForm(elem)[k] == BaseChar(elem[k]);
    UpperExactly(elem[k], 0);
  }

  lemma StoredInExt(elem: seq<byte>, k: nat)
    requires k < ExtLength(elem, ExtStart(elem), 0)
    ensures var c := elem[ExtStart(elem) + k]; ExtForm(elem)[k] == c || CasePair(c, ExtForm(elem)[k])
  {
    hide ExtStart, ExtLength, CasePair, Upper, IsSmall;
    var e := ExtStart(elem);
    UpperExactly(elem[e + k], 0);
    assert ExtForm(elem)[k] == Upper(elem[e..e + ExtLength(elem, e, 0)][k]);
  }

  /** Characters that differ in case alone mean the same to the conversion. */
  lemma CaseKeepsMarks(c: byte, d: byte)
    requires c == d || CasePair(c, d) || CasePair(d, c)
    ensures (c == DOT <==> d == DOT) && (c == STAR <==> d == STAR) && (c == BLANK <==> d == BLANK)
    ensures (EndsExt(c) <==> EndsExt(d)) && Upper(c) == Upper(d) && BaseChar(c) == BaseChar(d)
  {
    UpperExactly(c, d);
  }

  ghost predicate SameMarks(a: seq<byte>, b: seq<byte>)
  {
    |a| == |b| && forall i :: 0 <= i < |a| ==>
      && (a[i] == DOT <==> b[i] == DOT) && (a[i] == STAR <==> b[i] == STAR) && (EndsExt(a[i]) <==> EndsExt(b[i]))
      && Upper(a[i]) == Upper(b[i]) && BaseChar(a[i]) == BaseChar(b[i])
  }

  lemma {:induction false} SameBaseLength(a: seq<byte>, b: seq<byte>, i: nat)
    requires SameMarks(a, b) && i <= |a| && i <= 8
    ensures BaseLength(a, i) == BaseLength(b, i)
    decreases |a| - i
  {
    hide Upper, BaseChar;
    if i < |a| && i < 8 && a[i] != DOT && a[i] != STAR {
      SameBaseLength(a, b, i + 1);
    }
  }

  lemma {:induction false} SameLastDot(a: seq<byte>, b: seq<byte>, i: nat, e: nat)
    requires |a| == |b| && i <= |a| && forall k :: i <= k < |a| ==> (a[k] == DOT <==> b[k] == DOT)
    ensures AfterLastDot(a, i, e) == AfterLastDot(b, i, e)
    decreases |a| - i
  {
    if i < |a| {
      var next := if a[i] == DOT then i + 1 else e;
      SameLastDot(a, b, i + 1, next);
      assert AfterLastDot(a, i, e) == AfterLastDot(a, i + 1, next);
      assert AfterLastDot(b, i, e) == AfterLastDot(b, i + 1, next);
    }
  }

  lemma {:induction false} SameExtLength(a: seq<byte>, b: seq<byte>, e: nat, n: nat)
    requires SameMarks(a, b) && e + n <= |a| && n <= 3
    ensures ExtLength(a, e, n) == ExtLength(b, e, n)
    decreases 3 - n
  {
    hide Upper, BaseChar;
    if n < 3 && e + n < |a| && !EndsExt(a[e + n]) {
      SameExtLength(a, b, e, n + 1);
    }
  }

  lemma CaseMarks(a: seq<byte>, b: seq<byte>)
    requires DifferInCase(a, b)
    ensures SameMarks(a, b)
  {
    hide Upper, BaseChar, CasePair, EndsExt;
    forall i | 0 <= i < |a|
      ensures (a[i] == DOT <==> b[i] == DOT) && (a[i] == STAR <==> b[i] == STAR) && (EndsExt(a[i]) <==> EndsExt(b[i]))
      ensures Upper(a[i]) == Upper(b[i]) && BaseChar(a[i]) == BaseChar(b[i])
    {
      CaseKeepsMarks(a[i], b[i]);
    }
  }

  lemma SameBaseForm(a: seq<byte>, b: seq<byte>)
    requires SameMarks(a, b)
    ensures BaseForm(a) == BaseForm(b)
  {
    hide Upper, BaseChar, BaseLength, EndsExt;
    SameBaseLength(a, b, 0);
    var n := BaseLength(a, 0);
    assert HasStar(a) == HasStar(b);
    assert BaseChars(a[..n]) == BaseChars(b[..n]);
  }

  lemma SameExtStart(a: seq<byte>, b: seq<byte>)
    requires SameMarks(a, b)
    ensures ExtStart(a) == ExtStart(b)
  {
    hide Upper, BaseChar, BaseLength, EndsExt, AfterLastDot;
    SameBaseLength(a, b, 0);
    SameLastDot(a, b, BaseLength(a, 0), |a|);
  }

  lemma SameExtForm(a: seq<byte>, b: seq<byte>)
    requires SameMarks(a, b)
    ensures ExtForm(a) == ExtForm(b)
  {
    hide Upper, BaseChar, EndsExt, ExtStart, ExtLength;
    SameExtStart(a, b);
    var e := ExtStart(a);
    SameExtLength(a, b, e, 0);
    var x := ExtLength(a, e, 0);
    assert UpperAll(a[e..e + x]) == UpperAll(b[e..e + x]);
    assert FillAt(a, e + x) == FillAt(b, e + x);
  }

  /** Names that differ in case alone have the same stored form. */
  lemma CaseIsNotStored(a: seq<byte>, b: seq<byte>)
    requires DifferInCase(a, b)
    ensures ShortForm(a) == ShortForm(b)
  {
    hide DifferInCase, SameMarks, BaseForm, ExtForm;
    CaseMarks(a, b);
    SameBaseForm(a, b);
    SameExtForm(a, b);
  }

  // ---------- Which names are refused ----------

  const MAX_NAME := 64

  /** Neither empty, `.` nor beginning with `..` or a blank, free of `?`, `*` and `:`, and not too long. */
  ghost predicate Acceptable(name: seq<byte>)
  {
    && 0 < |name| <= 64 && name[0] != 0x20
    && (name[0] == 0x2e ==> |name| > 1 && name[1] != 0x2e)
    && forall i :: 0 <= i < |name| ==> name[i] != 0x3f && name[i] != 0x2a && name[i] != 0x3a
  }

  /** The test of a new name. */
  method TstName(name: seq<byte>) returns (ok: bool)
    requires IsCString(name)
    ensures ok <==> Acceptable(name)
  {
    if name == [] || name[0] == BLANK || (name[0] == DOT && CharAt(name, 1) in {0, DOT}) {
      return false;
    }
    var i := 0;
    while i < MAX_NAME + 1
      invariant i <= |name| && i <= MAX_NAME + 1
      invariant forall k :: 0 <= k < i ==> name[k] != QUESTION && name[k] != STAR && name[k] != COLON
    {
      var c := CharAt(name, i);
      if c == QUESTION || c == STAR || c == COLON {
        return false;
      }
      if c == 0 {
        return true;
      }
      i := i + 1;
    }
    return false;
  }

  // ---------- What the stored form of a new name looks like ----------

  /** The base of a dot file is blank; that of every other new name has its blanks at the end. */
  lemma ShortFormShape(name: seq<byte>)
    requires IsElement(name) && Acceptable(name)
    ensures name[0] == DOT ==> forall i :: 0 <= i < 8 ==> ShortForm(name)[i] == BLANK
    ensures name[0] != DOT ==> PaddedAtEnd(ShortForm(name))
    ensures ShortForm(name)[0] != 0 && (ShortForm(name)[0] == 0xe5 <==> name[0] == 0xe5)
  {
    var b := BaseLength(name, 0);
    var n := ShortForm(name);
    forall i | 0 <= i < b
      ensures n[i] != BLANK
    {
      UpperIsFinal(name[i], BLANK);
    }
    if b > 0 {
      assert n[0] == BaseChar(name[0]);
      UpperIsFinal(name[0], 0);
      UpperIsFinal(name[0], 0xe5);
    }
  }

  lemma {:induction false} BlankBaseText(n: Name, i: nat)
    requires i <= 8 && forall k :: i <= k < 8 ==> n[k] == BLANK
    ensures BaseText(n, i) == []
    decreases 8 - i
  {
    if i < 8 {
      BlankBaseText(n, i + 1);
    }
  }

  lemma ExtTextIsShort(n: Name)
    ensures |ExtText(n, 8)| <= 4
  {
    assert |ExtText(n, 11)| == 0;
    assert |ExtText(n, 10)| <= 1;
    assert |ExtText(n, 9)| <= 2;
  }

  /** A dot file of more than three characters has a blank base and is not what that expands to. */
  lemma DotFileHasNoBase(name: seq<byte>)
    requires IsElement(name) && Acceptable(name) && name[0] == DOT && |name| > 4
    ensures forall i :: 0 <= i < 8 ==> ShortForm(name)[i] == BLANK
    ensures !SameName(Expanded(ShortForm(name)), name)
  {
    hide ShortForm;
    var n := ShortForm(name);
    ShortFormShape(name);
    BlankBaseText(n, 0);
    ExtTextIsShort(n);
    assert |Expanded(n)| <= 4;
  }

  // ---------- Names that need no long name ----------

  /** A stored name in upper case whose blanks only pad the base and the extension. */
  ghost predicate IsStored(n: Name, p: nat, x: nat)
  {
    && 1 <= p <= 8 && x <= 3
    && (forall i :: 0 <= i < 11 ==> (n[i] == BLANK <==> p <= i < 8 || 8 + x <= i))
    && (forall i :: 0 <= i < 11 ==> n[i] != 0 && n[i] != DOT && n[i] != STAR)
    && (forall i :: 0 <= i < 11 ==> Upper(n[i]) == n[i])
  }

  lemma {:induction false} BaseTextIs(n: Name, p: nat, x: nat, i: nat)
    requires IsStored(n, p, x) && i <= p
    ensures BaseText(n, i) == n[i..p]
    decreases p - i
  {
    if i < p {
      BaseTextIs(n, p, x, i + 1);
    } else {
      BlankBaseText(n, p);
    }
  }

  lemma {:induction false} ExtTextIs(n: Name, p: nat, x: nat, i: nat)
    requires IsStored(n, p, x) && 9 <= i <= 8 + x
    ensures ExtText(n, i) == n[i..8 + x]
    decreases 8 + x - i
  {
    if i < 8 + x {
      ExtTextIs(n, p, x, i + 1);
    }
  }

  lemma ExpandedIs(n: Name, p: nat, x: nat)
    requires IsStored(n, p, x)
    ensures Expanded(n) == n[..p] + if x == 0 then [] else [DOT] + n[8..8 + x]
  {
    hide BaseText;
    BaseTextIs(n, p, x, 0);
    if x > 0 {
      ExtTextIs(n, p, x, 9);
      assert ExtText(n, 8) == [DOT] + [n[8]] + n[9..8 + x];
    }
  }

  lemma OnlyDot(elem: seq<byte>, p: nat)
    requires p < |elem| && elem[p] == DOT && STAR !in elem && forall k :: 0 <= k < |elem| && k != p ==> elem[k] != DOT
    ensures ExtStart(elem) == p + 1
  {
    var b := BaseLength(elem, 0);
    NoDotBefore(elem, b, p, |elem|);
    NoDotBefore(elem, p + 1, |elem|, p + 1);
  }

  /** The parts of an expanded name are found where they were put. */
  lemma ExpandedParts(n: Name, p: nat, x: nat)
    requires IsStored(n, p, x)
    ensures var name := Expanded(n);
            var e := ExtStart(name);
            && BaseLength(name, 0) == p && name[..p] == n[..p] && !HasStar(name)
            && ExtLength(name, e, 0) == x && name[e..e + x] == n[8..8 + x] && e + x == |name|
  {
    hide Expanded, Upper, ExtStart, ExtLength, BaseLength;
    var name := Expanded(n);
    ExpandedIs(n, p, x);
    assert forall i :: 0 <= i < p ==> name[i] == n[i];
    assert forall i :: p < i < |name| ==> name[i] == n[8 + i - p - 1];
    assert STAR !in name;
    if x > 0 {
      assert name[p] == DOT;
      OnlyDot(name, p);
    } else {
      NoExt(name);
    }
    assert BaseLength(name, 0) == p;
  }

  lemma NoExt(elem: seq<byte>)
    requires STAR !in elem && DOT !in elem
    ensures ExtStart(elem) == |elem|
  {
  }

  /** Storing what a stored name expands to gives the stored name again, so it needs no long name. */
  lemma ExpandedIsStoredAgain(n: Name, p: nat, x: nat)
    requires IsStored(n, p, x)
    ensures ShortForm(Expanded(n)) == n
  {
    hide Expanded, ExtStart, ExtLength, BaseLength, Upper;
    var name := Expanded(n);
    ExpandedParts(n, p, x);
    var base, ext := n[..p], n[8..8 + x];
    assert forall i :: 0 <= i < p ==> BaseChars(base)[i] == BaseChar(base[i]) == n[i];
    assert BaseForm(name) == n[..8];
    assert forall i :: 0 <= i < x ==> UpperAll(ext)[i] == Upper(ext[i]) == n[8 + i];
    assert ExtForm(name) == UpperAll(ext) + Repeat(BLANK, 3 - x) == n[8..];
  }
}
