/**
 The two character tables of the VFAT engine and the conversion between the
 Atari code page and the little-endian Unicode units of a long-name slot.
 */
module CodePage {
  import opened Basics

  type unit = w: int | 0 <= w < 0x10000

  /** Stands for every unit without a code-page partner. */
  const REPLACEMENT: byte := 0xbc

  const ROWS := 129

  /** Code page to Unicode for the control characters below the space. */
  function ControlToUnicode(c: byte): (w: unit)
  {
    if c < 16 then (match c
      case 0 => 0x0000 case 1 => 0x25b2 case 2 => 0x25bc case 3 => 0x25ba case 4 => 0x25c4 case 5 => 0x2022
      case 6 => 0x00d7 case 7 => 0x221e case 8 => 0x00a4 case 9 => 0x0074 case 10 => 0x266b case 11 => 0x266a
      case 12 => 0x2191 case 13 => 0x2193 case 14 => 0x2192 case _ => 0x2190) else
    (match c
      case 16 => 0x0030 case 17 => 0x0031 case 18 => 0x0032 case 19 => 0x0033 case 20 => 0x0034 case 21 => 0x0035
      case 22 => 0x0036 case 23 => 0x0037 case 24 => 0x0038 case 25 => 0x0039 case 26 => 0x0065 case 27 => 0x0045
      case 28 => 0x003f case 29 => 0x003f case 30 => 0x003f case _ => 0x25cf)
  }

  /** Code page to Unicode for the characters above the tilde. */
  function HighToUnicode(c: byte): (w: unit)
  {
    if c < 128 then (match c
      case _ => 0x2206) else
    if c < 144 then (match c
      case 128 => 0x00c7 case 129 => 0x00fc case 130 => 0x00e9 case 131 => 0x00e2 case 132 => 0x00e4 case 133 => 0x00e0
      case 134 => 0x00e5 case 135 => 0x00e7 case 136 => 0x00ea case 137 => 0x00eb case 138 => 0x00e8 case 139 => 0x00ef
      case 140 => 0x00ee case 141 => 0x00ec case 142 => 0x00c4 case _ => 0x00c5) else
    if c < 160 then (match c
      case 144 => 0x00c9 case 145 => 0x00e6 case 146 => 0x00c6 case 147 => 0x00f4 case 148 => 0x00f6 case 149 => 0x00f2
      case 150 => 0x00fb case 151 => 0x00f9 case 152 => 0x00ff case 153 => 0x00d6 case 154 => 0x00dc case 155 => 0x00a2
      case 156 => 0x00a3 case 157 => 0x00a5 case 158 => 0x00df case _ => 0x0192) else
    if c < 176 then (match c
      case 160 => 0x00e1 case 161 => 0x00ed case 162 => 0x00f3 case 163 => 0x00fa case 164 => 0x00f1 case 165 => 0x00d1
      case 166 => 0x00aa case 167 => 0x00ba case 168 => 0x00bf case 169 => 0x2310 case 170 => 0x00ac case 171 => 0x00bd
      case 172 => 0x00bc case 173 => 0x00a1 case 174 => 0x00ab case _ => 0x00bb) else
    if c < 192 then (match c
      case 176 => 0x00e3 case 177 => 0x00f5 case 178 => 0x00d8 case 179 => 0x00f8 case 180 => 0x0153 case 181 => 0x0152
      case 182 => 0x00c0 case 183 => 0x00c3 case 184 => 0x00d5 case 185 => 0x00a8 case 186 => 0x00b4 case 187 => 0x2020
      case 188 => 0x00b6 case 189 => 0x00a9 case 190 => 0x00ae case _ => 0x2122) else
    if c < 208 then (match c
      case 192 => 0x00c2 case 193 => 0x00c1 case 194 => 0x00ca case 195 => 0x00cb case 196 => 0x00c8 case 197 => 0x00ce
      case 198 => 0x00cf case 199 => 0x00cc case 200 => 0x00cd case 201 => 0x00d4 case 202 => 0x00d2 case 203 => 0x00d3
      case 204 => 0x00db case 205 => 0x00d9 case 206 => 0x00da case _ => 0x201e) else
    if c < 224 then (match c
      case 208 => 0x201c case 209 => 0x201d case 210 => 0x201a case 211 => 0x2018 case 212 => 0x2039 case 213 => 0x203a
      case 214 => 0x2013 case 215 => 0x2014 case 216 => 0x2019 case 217 => 0x2191 case 218 => 0x2193 case 219 => 0x2192
      case 220 => 0x2190 case 221 => 0x00a7 case 222 => 0x2030 case _ => 0x221e) else
    if c < 240 then (match c
      case 224 => 0x03b1 case 225 => 0x03b2 case 226 => 0x0393 case 227 => 0x03c0 case 228 => 0x2211 case 229 => 0x03c3
      case 230 => 0x00b5 case 231 => 0x03c4 case 232 => 0x03a6 case 233 => 0x0398 case 234 => 0x2126 case 235 => 0x03b4
      case 236 => 0x222b case 237 => 0x03c6 case 238 => 0x2208 case _ => 0x220f) else
    (match c
      case 240 => 0x2261 case 241 => 0x00b1 case 242 => 0x2265 case 243 => 0x2264 case 244 => 0x2320 case 245 => 0x2321
      case 246 => 0x00f7 case 247 => 0x2248 case 248 => 0x00b0 case 249 => 0x2022 case 250 => 0x00b7 case 251 => 0x221a
      case 252 => 0x207f case 253 => 0x00b2 case 254 => 0x00b3 case _ => 0x00af)
  }

  /** Code page to Unicode; every character between space and tilde maps to itself. */
  function ToUnicode(c: byte): (w: unit)
  {
    if c < 0x20 then ControlToUnicode(c) else if c < 0x7f then c else HighToUnicode(c)
  }

  /** The key in row `i` of the Unicode table. */
  function Key(i: int): (w: unit)
  {
    if i < 16 then (match i
      case 0 => 0x00a1 case 1 => 0x00a2 case 2 => 0x00a3 case 3 => 0x00a5 case 4 => 0x00a7 case 5 => 0x00a8
      case 6 => 0x00a9 case 7 => 0x00aa case 8 => 0x00ab case 9 => 0x00ac case 10 => 0x00ae case 11 => 0x00af
      case 12 => 0x00b0 case 13 => 0x00b1 case 14 => 0x00b2 case _ => 0x00b3) else
    if i < 32 then (match i
      case 16 => 0x00b4 case 17 => 0x00b5 case 18 => 0x00b6 case 19 => 0x00b7 case 20 => 0x00ba case 21 => 0x00bb
      case 22 => 0x00bc case 23 => 0x00bd case 24 => 0x00bf case 25 => 0x00c0 case 26 => 0x00c1 case 27 => 0x00c2
      case 28 => 0x00c3 case 29 => 0x00c4 case 30 => 0x00c5 case _ => 0x00c6) else
    if i < 48 then (match i
      case 32 => 0x00c7 case 33 => 0x00c8 case 34 => 0x00c9 case 35 => 0x00ca case 36 => 0x00cb case 37 => 0x00cc
      case 38 => 0x00cd case 39 => 0x00ce case 40 => 0x00cf case 41 => 0x00d1 case 42 => 0x00d2 case 43 => 0x00d3
      case 44 => 0x00d4 case 45 => 0x00d5 case 46 => 0x00d6 case _ => 0x00d8) else
    if i < 64 then (match i
      case 48 => 0x00d9 case 49 => 0x00da case 50 => 0x00db case 51 => 0x00dc case 52 => 0x00df case 53 => 0x00e0
      case 54 => 0x00e1 case 55 => 0x00e2 case 56 => 0x00e3 case 57 => 0x00e4 case 58 => 0x00e5 case 59 => 0x00e6
      case 60 => 0x00e7 case 61 => 0x00e8 case 62 => 0x00e9 case _ => 0x00ea) else
    if i < 80 then (match i
      case 64 => 0x00eb case 65 => 0x00ec case 66 => 0x00ed case 67 => 0x00ee case 68 => 0x00ef case 69 => 0x00f1
      case 70 => 0x00f2 case 71 => 0x00f3 case 72 => 0x00f4 case 73 => 0x00f5 case 74 => 0x00f6 case 75 => 0x00f7
      case 76 => 0x00f8 case 77 => 0x00f9 case 78 => 0x00fa case _ => 0x00fb) else
    if i < 96 then (match i
      case 80 => 0x00fc case 81 => 0x00ff case 82 => 0x0152 case 83 => 0x0153 case 84 => 0x0192 case 85 => 0x0393
      case 86 => 0x0398 case 87 => 0x03a6 case 88 => 0x03b1 case 89 => 0x03b2 case 90 => 0x03b4 case 91 => 0x03c0
      case 92 => 0x03c3 case 93 => 0x03c4 case 94 => 0x03c6 case _ => 0x2013) else
    if i < 112 then (match i
      case 96 => 0x2014 case 97 => 0x2018 case 98 => 0x2019 case 99 => 0x201a case 100 => 0x201c case 101 => 0x201d
      case 102 => 0x201e case 103 => 0x2020 case 104 => 0x2022 case 105 => 0x2030 case 106 => 0x2039 case 107 => 0x203a
      case 108 => 0x207f case 109 => 0x2122 case 110 => 0x2126 case _ => 0x2190) else
    if i < 128 then (match i
      case 112 => 0x2191 case 113 => 0x2192 case 114 => 0x2193 case 115 => 0x2206 case 116 => 0x2208 case 117 => 0x220f
      case 118 => 0x2211 case 119 => 0x221a case 120 => 0x221e case 121 => 0x222b case 122 => 0x2248 case 123 => 0x2261
      case 124 => 0x2264 case 125 => 0x2265 case 126 => 0x2310 case _ => 0x2320) else
    (match i
      case _ => 0x2321)
  }

  /** The code-page character in row `i` of the Unicode table. */
  function Partner(i: int): (c: byte)
  {
    if i < 16 then (match i
      case 0 => 173 case 1 => 155 case 2 => 156 case 3 => 157 case 4 => 221 case 5 => 185 case 6 => 189 case 7 => 166
      case 8 => 174 case 9 => 170 case 10 => 190 case 11 => 255
      case 12 => 248 case 13 => 241 case 14 => 253 case _ => 254) else
    if i < 32 then (match i
      case 16 => 186 case 17 => 230 case 18 => 188 case 19 => 250
      case 20 => 167 case 21 => 175 case 22 => 172 case 23 => 171
      case 24 => 168 case 25 => 182 case 26 => 193 case 27 => 192
      case 28 => 183 case 29 => 142 case 30 => 143 case _ => 146) else
    if i < 48 then (match i
      case 32 => 128 case 33 => 196 case 34 => 144 case 35 => 194
      case 36 => 195 case 37 => 199 case 38 => 200 case 39 => 197
      case 40 => 198 case 41 => 165 case 42 => 202 case 43 => 203
      case 44 => 201 case 45 => 184 case 46 => 153 case _ => 178) else
    if i < 64 then (match i
      case 48 => 205 case 49 => 206 case 50 => 204 case 51 => 154
      case 52 => 158 case 53 => 133 case 54 => 160 case 55 => 131
      case 56 => 176 case 57 => 132 case 58 => 134 case 59 => 145
      case 60 => 135 case 61 => 138 case 62 => 130 case _ => 136) else
    if i < 80 then (match i
      case 64 => 137 case 65 => 141 case 66 => 161 case 67 => 140
      case 68 => 139 case 69 => 164 case 70 => 149 case 71 => 162
      case 72 => 147 case 73 => 177 case 74 => 148 case 75 => 246
      case 76 => 179 case 77 => 151 case 78 => 163 case _ => 150) else
    if i < 96 then (match i
      case 80 => 129 case 81 => 152 case 82 => 181 case 83 => 180
      case 84 => 159 case 85 => 226 case 86 => 233 case 87 => 232
      case 88 => 224 case 89 => 225 case 90 => 235 case 91 => 227
      case 92 => 229 case 93 => 231 case 94 => 237 case _ => 214) else
    if i < 112 then (match i
      case 96 => 215 case 97 => 211 case 98 => 216 case 99 => 210
      case 100 => 208 case 101 => 209 case 102 => 207 case 103 => 187
      case 104 => 249 case 105 => 222 case 106 => 212 case 107 => 213
      case 108 => 252 case 109 => 191 case 110 => 234 case _ => 220) else
    if i < 128 then (match i
      case 112 => 217 case 113 => 219 case 114 => 218 case 115 => 127
      case 116 => 238 case 117 => 239 case 118 => 228 case 119 => 251
      case 120 => 223 case 121 => 236 case 122 => 247 case 123 => 240
      case 124 => 243 case 125 => 242 case 126 => 169 case _ => 244) else
    (match i
      case _ => 245)
  }

  /** The row that holds the code-page character `c`, for `c` from 127 on. */
  function RowOf(c: byte): (i: nat)
  {
    if c < 128 then (match c
      case _ => 115) else
    if c < 144 then (match c
      case 128 => 32 case 129 => 80 case 130 => 62 case 131 => 55
      case 132 => 57 case 133 => 53 case 134 => 58 case 135 => 60
      case 136 => 63 case 137 => 64 case 138 => 61 case 139 => 68
      case 140 => 67 case 141 => 65 case 142 => 29 case _ => 30) else
    if c < 160 then (match c
      case 144 => 34 case 145 => 59 case 146 => 31 case 147 => 72
      case 148 => 74 case 149 => 70 case 150 => 79 case 151 => 77
      case 152 => 81 case 153 => 46 case 154 => 51 case 155 => 1
      case 156 => 2 case 157 => 3 case 158 => 52 case _ => 84) else
    if c < 176 then (match c
      case 160 => 54 case 161 => 66 case 162 => 71 case 163 => 78
      case 164 => 69 case 165 => 41 case 166 => 7 case 167 => 20
      case 168 => 24 case 169 => 126 case 170 => 9 case 171 => 23
      case 172 => 22 case 173 => 0 case 174 => 8 case _ => 21) else
    if c < 192 then (match c
      case 176 => 56 case 177 => 73 case 178 => 47 case 179 => 76
      case 180 => 83 case 181 => 82 case 182 => 25 case 183 => 28
      case 184 => 45 case 185 => 5 case 186 => 16 case 187 => 103
      case 188 => 18 case 189 => 6 case 190 => 10 case _ => 109) else
    if c < 208 then (match c
      case 192 => 27 case 193 => 26 case 194 => 35 case 195 => 36
      case 196 => 33 case 197 => 39 case 198 => 40 case 199 => 37
      case 200 => 38 case 201 => 44 case 202 => 42 case 203 => 43
      case 204 => 50 case 205 => 48 case 206 => 49 case _ => 102) else
    if c < 224 then (match c
      case 208 => 100 case 209 => 101 case 210 => 99 case 211 => 97
      case 212 => 106 case 213 => 107 case 214 => 95 case 215 => 96
      case 216 => 98 case 217 => 112 case 218 => 114 case 219 => 113
      case 220 => 111 case 221 => 4 case 222 => 105 case _ => 120) else
    if c < 240 then (match c
      case 224 => 88 case 225 => 89 case 226 => 85 case 227 => 91
      case 228 => 118 case 229 => 92 case 230 => 17 case 231 => 93
      case 232 => 87 case 233 => 86 case 234 => 110 case 235 => 90
      case 236 => 121 case 237 => 94 case 238 => 116 case _ => 117) else
    (match c
      case 240 => 123 case 241 => 13 case 242 => 125 case 243 => 124
      case 244 => 127 case 245 => 128 case 246 => 75 case 247 => 122
      case 248 => 12 case 249 => 104 case 250 => 19 case 251 => 119
      case 252 => 108 case 253 => 14 case 254 => 15 case _ => 11)
  }

  /** One row of the Unicode table. */
  datatype Row = Row(key: unit, partner: byte)

  /** The first `n` rows of the Unicode table, in the order in which they are stored. */
  function TableUpTo(n: nat): (table: seq<Row>)
    ensures |table| == n
    ensures forall i :: 0 <= i < n ==> table[i] == Row(Key(i), Partner(i))
  {
    if n == 0 then [] else TableUpTo(n - 1) + [Row(Key(n - 1), Partner(n - 1))]
  }

  const TABLE: seq<Row> := TableUpTo(ROWS)

  ghost predicate StrictlySorted(table: seq<Row>)
  {
    forall i, j :: 0 <= i < j < |table| ==> table[i].key < table[j].key
  }

  /** The reference lookup: the first row with the given key, scanned from the front. */
  function LinearLookup(table: seq<Row>, w: unit): (c: byte)
  {
    if table == [] then REPLACEMENT
    else if table[0].key == w then table[0].partner
    else LinearLookup(table[1..], w)
  }

  lemma LookupHit(table: seq<Row>, i: nat, w: unit)
    requires StrictlySorted(table) && i < |table| && table[i].key == w
    ensures LinearLookup(table, w) == table[i].partner
  {
    if i > 0 {
      LookupHit(table[1..], i - 1, w);
    }
  }

  lemma LookupMiss(table: seq<Row>, w: unit)
    requires forall i :: 0 <= i < |table| ==> table[i].key != w
    ensures LinearLookup(table, w) == REPLACEMENT
  {
  }

  /**
   The hand-written search. Positions count 16-bit words, two to a row, as the
   pointers do. The probe is rounded up inside the current interval, so row 0 is
   never probed in a table of two or more rows: the search is the linear lookup
   in the table without its first row.
   */
  method Search(table: seq<Row>, w: unit) returns (c: byte)
    requires StrictlySorted(table) && 2 <= |table|
    ensures c == LinearLookup(table[1..], w)
  {
    var rest := table[1..];
    var low, nnitems := 0, 2 * |table|;
    var high := nnitems - 2;
    var go := true;
    while go
      invariant 0 <= low <= high <= 2 * |table| - 2
      invariant low % 2 == 0 && high % 2 == 0
      invariant nnitems == high - low + 2
      invariant go ==> low < high
      invariant forall i :: 1 <= i <= low / 2 ==> table[i].key < w
      invariant forall i :: high / 2 <= i < |table| && high < 2 * |table| - 2 ==> w < table[i].key
      invariant !go ==> forall i :: 1 <= i < |table| ==> table[i].key != w
      decreases go, nnitems
    {
      var nitems := nnitems;
      var half := nitems / 2;
      var test := low + (half - half % 2);
      if w < table[test / 2].key {
        high := test;
      } else if w > table[test / 2].key {
        low := test;
      } else {
        assert rest[test / 2 - 1] == table[test / 2];
        LookupHit(rest, test / 2 - 1, w);
        return table[test / 2].partner;
      }
      nnitems := high - low + 2;
      go := low != high && nnitems < nitems;
    }
    LookupMiss(rest, w);
    return REPLACEMENT;
  }

  /**
   What the search finds, row by row: the partner of every key from row 1 on, and
   the replacement for the key of row 0 and for every absent key.
   */
  lemma SearchMissesExactlyRowZero(table: seq<Row>, w: unit)
    requires StrictlySorted(table) && 2 <= |table|
    ensures forall i :: 1 <= i < |table| && table[i].key == w ==> LinearLookup(table[1..], w) == table[i].partner
    ensures table[0].key == w ==> LinearLookup(table[1..], w) == 0xbc
    ensures (forall i :: 0 <= i < |table| ==> table[i].key != w) ==> LinearLookup(table[1..], w) == 0xbc
  {
    var rest := table[1..];
    forall i | 1 <= i < |table| && table[i].key == w
      ensures LinearLookup(rest, w) == table[i].partner
    {
      assert rest[i - 1] == table[i];
      LookupHit(rest, i - 1, w);
    }
    if forall i :: 1 <= i < |table| ==> table[i].key != w {
      LookupMiss(rest, w);
    }
  }

  // The facts about the stored tables, checked row by row

  lemma PartnersArePrintable(i: nat)
    ensures Partner(i) >= 127
  {
  }

  lemma KeysAscendLow(i: nat)
    requires i < 64
    ensures Key(i) < Key(i + 1)
  {
  }

  lemma KeysAscendHigh(i: nat)
    requires 64 <= i < 128
    ensures Key(i) < Key(i + 1)
  {
  }

  lemma {:induction false} KeysAscend(i: nat, j: nat)
    requires i < j < ROWS
    ensures Key(i) < Key(j)
    decreases j - i
  {
    if i < 64 { KeysAscendLow(i); } else { KeysAscendHigh(i); }
    if i + 1 < j {
      KeysAscend(i + 1, j);
    }
  }

  lemma TableIsSorted()
    ensures StrictlySorted(TABLE)
  {
    forall i, j | 0 <= i < j < |TABLE|
      ensures TABLE[i].key < TABLE[j].key
    {
      KeysAscend(i, j);
    }
  }

  lemma RowOfInvertsLow(c: byte)
    requires 127 <= c < 192
    ensures RowOf(c) < ROWS && Key(RowOf(c)) == HighToUnicode(c) && Partner(RowOf(c)) == c
  {
  }

  lemma RowOfInvertsHigh(c: byte)
    requires 192 <= c
    ensures RowOf(c) < ROWS && Key(RowOf(c)) == HighToUnicode(c) && Partner(RowOf(c)) == c
  {
  }

  /** Every character from 127 on owns the row of the Unicode table that leads back to it. */
  lemma RowOfInverts(c: byte)
    requires 127 <= c
    ensures RowOf(c) < ROWS && Row(HighToUnicode(c), c) == TABLE[RowOf(c)]
  {
    if c < 192 { RowOfInvertsLow(c); } else { RowOfInvertsHigh(c); }
  }

  // Decoding one unit and one run of units

  /** The character for one unit other than the two that end a name. */
  function DecodeUnit(w: unit): (c: byte)
  {
    if 0x20 <= w < 0x7f then w else LinearLookup(TABLE[1..], w)
  }

  predicate EndsName(w: unit) { w == 0 || w == 0xffff }

  /** The decoded prefix of a run of units, up to the first unit that ends a name. */
  function DecodeUnits(units: seq<unit>): (s: seq<byte>)
    ensures |s| <= |units|
  {
    if units == [] || EndsName(units[0]) then []
    else [DecodeUnit(units[0])] + DecodeUnits(units[1..])
  }

  method DecodeOne(w: unit) returns (c: byte)
    requires !EndsName(w)
    ensures c == DecodeUnit(w)
  {
    if 0x20 <= w < 0x7f {
      c := w;
    } else {
      TableIsSorted();
      c := Search(TABLE, w);
    }
  }

  /** The conversion loop over one name field of a slot. */
  method Unic2Ibm(units: seq<unit>) returns (s: seq<byte>)
    ensures s == DecodeUnits(units)
  {
    s := [];
    var i := 0;
    while i < |units|
      invariant 0 <= i <= |units|
      invariant s + DecodeUnits(units[i..]) == DecodeUnits(units)
    {
      var w := units[i];
      if EndsName(w) {
        return;
      }
      var c := DecodeOne(w);
      assert units[i..][0] == w && units[i..][1..] == units[i + 1..];
      s := s + [c];
      i := i + 1;
    }
  }

  /** What a character becomes after a trip through a long-name slot. */
  function Recode(c: byte): (d: byte) { DecodeUnit(ToUnicode(c)) }

  lemma LookupIsPrintable(table: seq<Row>, w: unit)
    requires forall i :: 0 <= i < |table| ==> table[i].partner >= 127
    ensures LinearLookup(table, w) >= 127
  {
  }

  /** No unit decodes to the terminator, so decoded text has no early end. */
  lemma DecodedIsPrintable(w: unit)
    ensures DecodeUnit(w) >= 0x20
  {
    forall i | 0 <= i < |TABLE[1..]|
      ensures TABLE[1..][i].partner >= 127
    {
      assert TABLE[i + 1] == Row(Key(i + 1), Partner(i + 1));
      PartnersArePrintable(i + 1);
    }
    LookupIsPrintable(TABLE[1..], w);
  }

  /** Only the terminator is written as a unit that ends a name. */
  lemma EncodedKeepsGoing(c: byte)
    ensures EndsName(ToUnicode(c)) <==> c == 0
  {
  }

  /** A character above the tilde is found again unless its row is row 0. */
  lemma RecodeHigh(c: byte)
    requires 127 <= c
    ensures Recode(c) == if RowOf(c) == 0 then 0xbc else c
  {
    TableIsSorted();
    RowOfInverts(c);
    var i, w := RowOf(c), HighToUnicode(c);
    HighIsHigh(c);
    SearchMissesExactlyRowZero(TABLE, w);
  }

  lemma HighIsHigh(c: byte)
    ensures HighToUnicode(c) >= 0x7f
    ensures RowOf(c) == 0 <==> c == 173
  {
  }

  /**
   Exactly the characters from the space on survive, with the one exception of the
   inverted exclamation mark, whose row the search cannot reach.
   */
  lemma RecodeExact(c: byte)
    requires c != 0
    ensures Recode(c) == c <==> 0x20 <= c && c != 173
  {
    if 127 <= c {
      RecodeHigh(c);
      HighIsHigh(c);
    } else {
      DecodedIsPrintable(ToUnicode(c));
    }
  }
}
