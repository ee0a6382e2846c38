/** HE PPE thresholds: a cursor over three-bit fields that cross octet boundaries. */
module HePpe {
  import opened Bytes

  const RUS: nat := 4
  const STREAMS: nat := 8

  // ------------------------------------------------------------ bits

  function Val(b: bool): (v: nat)
    ensures v <= 1
  {
    if b then 1 else 0
  }

  /** Right shift of an unsigned value. */
  function Shr(x: nat, k: nat): nat
    decreases k
  {
    if k == 0 then x else Shr(x / 2, k - 1)
  }

  lemma {:induction false} ShrTwice(x: nat, j: nat, k: nat)
    ensures Shr(x, j + k) == Shr(Shr(x, j), k)
    decreases j
  {
    if j > 0 {
      ShrTwice(x / 2, j - 1, k);
    }
  }

  lemma ShrStep(x: nat, k: nat)
    ensures Shr(x, k + 1) == Shr(x, k) / 2
  {
    ShrTwice(x, k, 1);
    assert Shr(Shr(x, k) / 2, 0) == Shr(x, k) / 2;
  }

  /** Bit `p` of an octet string, counted from the least significant bit of the first octet. */
  predicate BitOf(s: seq<byte>, p: nat)
    requires p < 8 * |s|
  {
    Shr(s[p / 8], p % 8) % 2 == 1
  }

  /** A field of three bits from bit `p` on, the first bit being the least significant. */
  function Field(s: seq<byte>, p: nat): (v: nat)
    requires p + 3 <= 8 * |s|
    ensures v < 8
  {
    Val(BitOf(s, p)) + 2 * Val(BitOf(s, p + 1)) + 4 * Val(BitOf(s, p + 2))
  }

  function Word(lo: byte, hi: byte): nat { lo + 256 * hi }

  /** The driver's way to read it: two octets as a little-endian word, shifted and masked. */
  function LeBits(s: seq<byte>, p: nat): nat
    requires p / 8 + 2 <= |s|
  {
    Shr(Word(s[p / 8], s[p / 8 + 1]), p % 8) % 8
  }

  /** Left shift. */
  function Shl(x: nat, k: nat): nat { if k == 0 then x else 2 * Shl(x, k - 1) }

  lemma {:induction false} ShlTwice(x: nat, j: nat, k: nat)
    ensures Shl(x, j + k) == Shl(Shl(x, j), k)
    decreases k
  {
    if k > 0 {
      ShlTwice(x, j, k - 1);
    }
  }

  lemma {:induction false} ShrSum(x: nat, y: nat, t: nat)
    ensures Shr(x + Shl(y, t), t) == Shr(x, t) + y
    decreases t
  {
    if t > 0 {
      assert (x + Shl(y, t)) / 2 == x / 2 + Shl(y, t - 1);
      ShrSum(x / 2, y, t - 1);
    }
  }

  lemma ShlFour(x: nat)
    ensures Shl(x, 4) == 16 * x
  {
    assert Shl(x, 1) == 2 * Shl(x, 0);
    assert Shl(x, 2) == 2 * Shl(x, 1);
    assert Shl(x, 3) == 2 * Shl(x, 2);
  }

  lemma WordIsSum(a: byte, b: byte)
    ensures Word(a, b) == a + Shl(b, 8)
  {
    ShlTwice(b, 4, 4);
    ShlFour(b);
    ShlFour(Shl(b, 4));
  }

  lemma {:induction false} ShrSmall(x: nat, k: nat)
    requires x < Shl(1, k)
    ensures Shr(x, k) == 0
    decreases k
  {
    if k > 0 {
      ShrSmall(x / 2, k - 1);
    }
  }

  /** Bit `t` of a word is a bit of one of its octets. */
  lemma WordBit(a: byte, b: byte, t: nat)
    requires t < 16
    ensures Shr(Word(a, b), t) % 2 == if t < 8 then Shr(a, t) % 2 else Shr(b, t - 8) % 2
  {
    WordIsSum(a, b);
    if t < 8 {
      LowBit(a, b, t);
    } else {
      ShrSum(a, b, 8);
      WordIsSum(0, 1);
      ShrSmall(a, 8);
      ShrTwice(Word(a, b), 8, t - 8);
    }
  }

  lemma LowBit(a: nat, b: nat, t: nat)
    requires t < 8
    ensures Shr(a + Shl(b, 8), t) % 2 == Shr(a, t) % 2
  {
    ShlTwice(b, 8 - t, t);
    ShrSum(a, Shl(b, 8 - t), t);
    var z := Shl(b, 7 - t);
    assert Shl(b, 8 - t) == 2 * z;
  }

  lemma ModEight(w: nat)
    ensures w % 8 == w % 2 + 2 * (w / 2 % 2) + 4 * (w / 2 / 2 % 2)
  {
  }

  /** The word read gives the three bits, wherever they lie. */
  lemma LeBitsIsField(s: seq<byte>, p: nat)
    requires p / 8 + 2 <= |s|
    ensures LeBits(s, p) == Field(s, p)
  {
    var t := p % 8;
    var v := Word(s[p / 8], s[p / 8 + 1]);
    ModEight(Shr(v, t));
    ShrStep(v, t);
    ShrStep(v, t + 1);
    NextBit(s, p, t);
    NextBit(s, p, t + 1);
    NextBit(s, p, t + 2);
  }

  lemma NextBit(s: seq<byte>, p: nat, t: nat)
    requires p / 8 + 2 <= |s| && p % 8 <= t < 10
    ensures Val(BitOf(s, p - p % 8 + t)) == Shr(Word(s[p / 8], s[p / 8 + 1]), t) % 2
  {
    var q := p - p % 8 + t;
    assert q == 8 * (p / 8) + t;
    assert q / 8 == if t < 8 then p / 8 else p / 8 + 1;
    WordBit(s[p / 8], s[p / 8 + 1], t);
  }

  // ------------------------------------------------------------ what the element says

  function Nsts(s: seq<byte>): nat
    requires |s| >= 1
  {
    s[0] % 8
  }

  function RuMask(s: seq<byte>): nat
    requires |s| >= 1
  {
    s[0] / 8 % 16
  }

  predicate Selected(mask: nat, j: nat) { Shr(mask, j) % 2 == 1 }

  /** Resource unit `j` is selected by bit `j` of the mask. */
  lemma {:induction false} SelectedIsBit(mask: nat, j: nat)
    requires j < RUS
    ensures Selected(mask, j) <==> mask / Pow2(j) % 2 == 1
  {
    if j == 0 {
      assert Pow2(0) == 1;
    } else if j == 1 {
      assert Pow2(1) == 2 && Shr(mask, 1) == Shr(mask / 2, 0);
    } else if j == 2 {
      assert Pow2(2) == 4 && Shr(mask, 2) == Shr(mask / 2 / 2, 0);
    } else {
      assert Pow2(3) == 8 && Shr(mask, 3) == Shr(mask / 2 / 2, 1) == Shr(mask / 2 / 2 / 2, 0);
    }
  }

  /** How many of the first `j` resource units are selected. */
  function Chosen(mask: nat, j: nat): (n: nat)
    ensures n <= j
  {
    if j == 0 then 0 else Chosen(mask, j - 1) + Val(Selected(mask, j - 1))
  }

  /** How many selected pairs come before stream `i`, resource unit `j`. */
  function Rank(mask: nat, i: nat, j: nat): (n: nat)
    ensures n <= RUS * i + j
  {
    (if i == 0 then 0 else Rank(mask, i - 1, RUS)) + Chosen(mask, j)
  }

  function Position(mask: nat, i: nat, j: nat): nat { 7 + 6 * Rank(mask, i, j) }

  lemma RankGrows(mask: nat, i: nat, j: nat, m: nat)
    requires i < m && j < RUS
    ensures Rank(mask, i, j + 1) == Rank(mask, i, j) + Val(Selected(mask, j))
    ensures Rank(mask, i, j + 1) <= Rank(mask, i, RUS) == Rank(mask, i + 1, 0) <= Rank(mask, m, 0)
  {
    ChosenGrows(mask, j + 1, RUS);
    RowsGrow(mask, i + 1, m);
  }

  lemma {:induction false} RowsGrow(mask: nat, i: nat, m: nat)
    requires i <= m
    ensures Rank(mask, i, 0) <= Rank(mask, m, 0)
    decreases m
  {
    if i < m {
      RowsGrow(mask, i, m - 1);
    }
  }

  lemma {:induction false} ChosenGrows(mask: nat, j: nat, k: nat)
    requires j <= k
    ensures Chosen(mask, j) <= Chosen(mask, k)
  {
    if j < k {
      ChosenGrows(mask, j, k - 1);
    }
  }

  /** How many pairs are selected in all. */
  function Pairs(s: seq<byte>): (n: nat)
    requires |s| >= 1
  {
    Rank(RuMask(s), Nsts(s) + 1, 0)
  }

  /** The octets hold every field they announce. */
  predicate Complete(s: seq<byte>) { |s| >= 1 && 7 + 6 * Pairs(s) <= 8 * |s| }

  /** The octets the driver reads: every field is read from two octets. */
  function Needed(s: seq<byte>): (n: nat)
    requires |s| >= 1
    ensures n >= 1
  {
    if Pairs(s) == 0 then 1 else (6 * Pairs(s) + 4) / 8 + 2
  }

  /** The driver reads past the end of an element that is as short as its fields allow exactly if the
      number of selected pairs is positive and not 3 modulo 4, and then by one octet. */
  lemma ReadsBehindIff(s: seq<byte>)
    requires Complete(s) && 8 * (|s| - 1) < 7 + 6 * Pairs(s)
    ensures Needed(s) > |s| <==> Pairs(s) > 0 && Pairs(s) % 4 != 3
    ensures Needed(s) <= |s| + 1
  {
    var q, r := Pairs(s) / 4, Pairs(s) % 4;
    assert 6 * Pairs(s) == 24 * q + 6 * r;
  }

  lemma PairIsInside(s: seq<byte>, i: nat, j: nat)
    requires Complete(s)
    requires i <= Nsts(s) && j < RUS && Selected(RuMask(s), j)
    ensures var p := Position(RuMask(s), i, j);
            && p + 6 <= 199 && p + 6 <= 8 * |s|
            && (p + 3) / 8 + 2 <= Needed(s)
  {
    RankGrows(RuMask(s), i, j, Nsts(s) + 1);
  }

  /** The threshold of a pair, PPET16 in the low three bits and PPET8 in the next three; 0 for a pair
      that is not selected. */
  function Threshold(s: seq<byte>, i: nat, j: nat): (v: byte)
    requires Complete(s)
    requires i <= Nsts(s) && j < RUS
    ensures v < 64
  {
    if Selected(RuMask(s), j) then
      PairIsInside(s, i, j);
      var p := Position(RuMask(s), i, j);
      Field(s, p) + 8 * Field(s, p + 3)
    else 0
  }

  /** What lies behind does not change a field. */
  lemma FieldOfPrefix(s: seq<byte>, behind: seq<byte>, p: nat)
    requires p + 3 <= 8 * |s|
    ensures Field(s + behind, p) == Field(s, p)
  {
  }

  // ------------------------------------------------------------ the parser

  /** Streams below `n` are filled from the element. */
  ghost predicate Filled(s: seq<byte>, thr: array2<byte>, n: nat)
    requires Complete(s) && n <= Nsts(s) + 1
    requires thr.Length0 == STREAMS && thr.Length1 == RUS
    reads thr
  {
    forall i, j | 0 <= i < n && 0 <= j < RUS :: thr[i, j] == Threshold(s, i, j)
  }

  /** One threshold, at the cursor. */
  method ReadPair(s: seq<byte>, behind: seq<byte>, i: nat, j: nat, shift: byte) returns (v: byte, next: byte)
    requires Complete(s) && |s + behind| >= Needed(s)
    requires i <= Nsts(s) && j < RUS && shift == Position(RuMask(s), i, j)
    ensures v == Threshold(s, i, j)
    ensures next == Position(RuMask(s), i, j + 1)
  {
    RankGrows(RuMask(s), i, j, Nsts(s) + 1);
    v, next := 0, shift;
    if Selected(RuMask(s), j) {
      var m := s + behind;
      PairIsInside(s, i, j);
      LeBitsIsField(m, shift);
      LeBitsIsField(m, shift + 3);
      FieldOfPrefix(s, behind, shift);
      FieldOfPrefix(s, behind, shift + 3);
      var ppe16 := LeBits(m, next);
      next := next + 3;
      var ppe8 := LeBits(m, next);
      next := next + 3;
      v := ppe16 + 8 * ppe8;
    }
  }

  /** One stream. */
  method FillRow(s: seq<byte>, behind: seq<byte>, i: nat, shift: byte, thr: array2<byte>) returns (next: byte)
    requires Complete(s) && |s + behind| >= Needed(s)
    requires i <= Nsts(s) && shift == Position(RuMask(s), i, 0)
    requires thr.Length0 == STREAMS && thr.Length1 == RUS
    modifies thr
    ensures next == Position(RuMask(s), i + 1, 0)
    ensures forall j | 0 <= j < RUS :: thr[i, j] == Threshold(s, i, j)
    ensures forall a, j | 0 <= a < STREAMS && a != i && 0 <= j < RUS :: thr[a, j] == old(thr[a, j])
  {
    next := shift;
    for j := 0 to RUS
      invariant next == Position(RuMask(s), i, j)
      invariant forall b | 0 <= b < j :: thr[i, b] == Threshold(s, i, b)
      invariant forall a, b | 0 <= a < STREAMS && a != i && 0 <= b < RUS :: thr[a, b] == old(thr[a, b])
    {
      var v: byte;
      v, next := ReadPair(s, behind, i, j, next);
      thr[i, j] := v;
    }
    RankGrows(RuMask(s), i, 3, Nsts(s) + 1);
  }

  /** Fills the thresholds of every stream up to NSTS and leaves the others alone, whatever the octets
      behind the element are. The cursor is an octet and never overflows. */
  method SetThresholds(padding: nat, s: seq<byte>, behind: seq<byte>, thr: array2<byte>)
    requires padding == 3 ==> Complete(s) && |s + behind| >= Needed(s)
    requires thr.Length0 == STREAMS && thr.Length1 == RUS
    modifies thr
    ensures padding == 3 ==> Filled(s, thr, Nsts(s) + 1)
    ensures forall i, j | 0 <= i < STREAMS && 0 <= j < RUS && (padding != 3 || i > Nsts(s)) ::
              thr[i, j] == old(thr[i, j])
  {
    if padding != 3 {
      return;
    }
    var shift: byte := 7;
    for i := 0 to Nsts(s) + 1
      invariant shift == Position(RuMask(s), i, 0)
      invariant Filled(s, thr, i)
      invariant forall a, j | i <= a < STREAMS && 0 <= j < RUS :: thr[a, j] == old(thr[a, j])
    {
      shift := FillRow(s, behind, i, shift, thr);
    }
  }

  // ------------------------------------------------------------ the encoding it inverts

  /** Bits packed into octets, the first bit least significant; missing bits are 0. */
  function Pack(bits: seq<bool>): (s: seq<byte>)
    ensures 8 * |s| >= |bits|
    ensures 8 * |s| < |bits| + 8
    decreases |bits|
  {
    if bits == [] then []
    else [Octet(bits)] + Pack(if |bits| > 8 then bits[8..] else [])
  }

  function BitVal(bits: seq<bool>, k: nat): (v: nat)
    ensures v <= 1
  {
    Val(k < |bits| && bits[k])
  }

  /** The value of bits `k` to 7. */
  function From(bits: seq<bool>, k: nat): (v: nat)
    requires k <= 8
    ensures v < Pow2(8 - k)
    decreases 8 - k
  {
    if k == 8 then 0 else BitVal(bits, k) + 2 * From(bits, k + 1)
  }

  function Octet(bits: seq<bool>): byte {
    assert Pow2(8) == 256;
    From(bits, 0)
  }

  lemma {:induction false} OctetShifted(bits: seq<bool>, k: nat)
    requires k < 8
    ensures Shr(Octet(bits), k) == From(bits, k)
  {
    if k > 0 {
      OctetShifted(bits, k - 1);
      ShrStep(Octet(bits), k - 1);
    }
  }

  lemma {:induction false} PackBit(bits: seq<bool>, p: nat)
    requires p < |bits|
    ensures BitOf(Pack(bits), p) == bits[p]
  {
    var rest := if |bits| > 8 then bits[8..] else [];
    assert Pack(bits) == [Octet(bits)] + Pack(rest);
    hide Pack, Octet, BitOf;
    if p < 8 {
      FirstOctetBit(bits, p, Pack(rest));
    } else {
      PackBit(rest, p - 8);
      BitOfRest(Octet(bits), Pack(rest), p);
    }
  }

  lemma FirstOctetBit(bits: seq<bool>, p: nat, s: seq<byte>)
    requires p < 8 && p < |bits|
    ensures BitOf([Octet(bits)] + s, p) == bits[p]
  {
    OctetShifted(bits, p);
  }

  lemma BitOfRest(x: byte, s: seq<byte>, p: nat)
    requires 8 <= p < 8 + 8 * |s|
    ensures BitOf([x] + s, p) == BitOf(s, p - 8)
  {
    assert p / 8 == (p - 8) / 8 + 1 && p % 8 == (p - 8) % 8;
  }

  /** The low `n` bits of a value. */
  function BitsOf(v: nat, n: nat): (bits: seq<bool>)
    ensures |bits| == n
  {
    if n == 0 then [] else [v % 2 == 1] + BitsOf(v / 2, n - 1)
  }

  type Table = (nat, nat) -> nat

  /** The threshold fields of the first `c` pairs, stream by stream, selected pairs only. */
  function Fields(mask: nat, t: Table, c: nat): seq<bool> {
    if c == 0 then []
    else
      var i, j := (c - 1) / RUS, (c - 1) % RUS;
      Fields(mask, t, c - 1) + if Selected(mask, j) then BitsOf(t(i, j), 6) else []
  }

  lemma {:induction false} FieldsLength(mask: nat, t: Table, c: nat)
    ensures |Fields(mask, t, c)| == 6 * Rank(mask, c / RUS, c % RUS)
  {
    if c > 0 {
      FieldsLength(mask, t, c - 1);
      RankGrows(mask, (c - 1) / RUS, (c - 1) % RUS, c);
      if c % RUS == 0 {
        assert c / RUS == (c - 1) / RUS + 1;
      } else {
        assert c / RUS == (c - 1) / RUS && c % RUS == (c - 1) % RUS + 1;
      }
    }
  }

  lemma {:induction false} FieldsPrefix(mask: nat, t: Table, c: nat, d: nat)
    requires c <= d
    ensures Fields(mask, t, c) <= Fields(mask, t, d)
  {
    if c < d {
      FieldsPrefix(mask, t, c, d - 1);
    }
  }

  /** The element of section 9.4.2.248.5 of IEEE 802.11ax-2021. */
  function Element(nsts: nat, mask: nat, t: Table): seq<byte> {
    Pack(BitsOf(nsts, 3) + BitsOf(mask, 4) + Fields(mask, t, RUS * (nsts + 1)))
  }

  lemma Three(v: nat)
    requires v < 8
    ensures var b := BitsOf(v, 3); v == Val(b[0]) + 2 * Val(b[1]) + 4 * Val(b[2])
  {
  }

  lemma Six(v: nat)
    requires v < 64
    ensures var b := BitsOf(v, 6);
            && v % 8 == Val(b[0]) + 2 * Val(b[1]) + 4 * Val(b[2])
            && v / 8 == Val(b[3]) + 2 * Val(b[4]) + 4 * Val(b[5])
  {
    var v1 := v / 2;
    var v2 := v1 / 2;
    var w := v2 / 2;
    assert BitsOf(v, 6) == [v % 2 == 1] + BitsOf(v1, 5);
    assert BitsOf(v1, 5) == [v1 % 2 == 1] + BitsOf(v2, 4);
    assert BitsOf(v2, 4) == [v2 % 2 == 1] + BitsOf(w, 3);
    ModEight(v);
    Three(w);
  }

  /** Every bit of the element is the bit of the string it was packed from. */
  lemma ElementBit(nsts: nat, mask: nat, t: Table, p: nat)
    requires p < 7 + |Fields(mask, t, RUS * (nsts + 1))|
    ensures p < 8 * |Element(nsts, mask, t)|
    ensures BitOf(Element(nsts, mask, t), p)
            == (BitsOf(nsts, 3) + BitsOf(mask, 4) + Fields(mask, t, RUS * (nsts + 1)))[p]
  {
    PackBit(BitsOf(nsts, 3) + BitsOf(mask, 4) + Fields(mask, t, RUS * (nsts + 1)), p);
  }

  /** The bits of a selected pair lie behind those of the selected pairs before it. */
  lemma FieldsAt(mask: nat, t: Table, i: nat, j: nat, d: nat)
    requires j < RUS && RUS * i + j < d && Selected(mask, j)
    ensures var p := 6 * Rank(mask, i, j);
            p + 6 <= |Fields(mask, t, d)| && Fields(mask, t, d)[p..p + 6] == BitsOf(t(i, j), 6)
  {
    var c := RUS * i + j;
    assert c / RUS == i && c % RUS == j;
    FieldsLength(mask, t, c);
    FieldsPrefix(mask, t, c + 1, d);
    assert Fields(mask, t, c + 1) == Fields(mask, t, c) + BitsOf(t(i, j), 6);
  }

  lemma PairBit(nsts: nat, mask: nat, t: Table, i: nat, j: nat, k: nat)
    requires i <= nsts && j < RUS && Selected(mask, j) && k < 6
    ensures Position(mask, i, j) + k < 8 * |Element(nsts, mask, t)|
    ensures BitOf(Element(nsts, mask, t), Position(mask, i, j) + k) == BitsOf(t(i, j), 6)[k]
  {
    var all := Fields(mask, t, RUS * (nsts + 1));
    var p := 6 * Rank(mask, i, j);
    FieldsAt(mask, t, i, j, RUS * (nsts + 1));
    assert all[p + k] == all[p..p + 6][k];
    ElementBit(nsts, mask, t, 7 + p + k);
  }

  lemma FieldFrom(s: seq<byte>, p: nat, bits: seq<bool>)
    requires p + 3 <= 8 * |s| && |bits| == 3
    requires forall k | 0 <= k < 3 :: BitOf(s, p + k) == bits[k]
    ensures Field(s, p) == Val(bits[0]) + 2 * Val(bits[1]) + 4 * Val(bits[2])
  {
    assert BitOf(s, p + 0) == bits[0];
  }

  lemma PairLow(nsts: nat, mask: nat, t: Table, i: nat, j: nat)
    requires i <= nsts && j < RUS && Selected(mask, j) && t(i, j) < 64
    ensures Position(mask, i, j) + 3 <= 8 * |Element(nsts, mask, t)|
    ensures Field(Element(nsts, mask, t), Position(mask, i, j)) == t(i, j) % 8
  {
    hide Element, Position, BitOf, BitsOf;
    var s, p, bits := Element(nsts, mask, t), Position(mask, i, j), BitsOf(t(i, j), 6);
    PairBit(nsts, mask, t, i, j, 2);
    forall k | 0 <= k < 3
      ensures BitOf(s, p + k) == bits[..3][k]
    {
      PairBit(nsts, mask, t, i, j, k);
    }
    FieldFrom(s, p, bits[..3]);
    Six(t(i, j));
  }

  lemma PairHigh(nsts: nat, mask: nat, t: Table, i: nat, j: nat)
    requires i <= nsts && j < RUS && Selected(mask, j) && t(i, j) < 64
    ensures Position(mask, i, j) + 6 <= 8 * |Element(nsts, mask, t)|
    ensures Field(Element(nsts, mask, t), Position(mask, i, j) + 3) == t(i, j) / 8
  {
    hide Element, Position, BitOf, BitsOf;
    var s, p, bits := Element(nsts, mask, t), Position(mask, i, j), BitsOf(t(i, j), 6);
    PairBit(nsts, mask, t, i, j, 5);
    forall k | 0 <= k < 3
      ensures BitOf(s, p + 3 + k) == bits[3..][k]
    {
      PairBit(nsts, mask, t, i, j, k + 3);
    }
    FieldFrom(s, p + 3, bits[3..]);
    Six(t(i, j));
  }

  /** Bits `k` to `k + 2` of an octet that hold a value. */
  lemma ThreeFrom(bits: seq<bool>, k: nat, v: nat)
    requires k <= 5 && v < 8 && k + 3 <= |bits| && bits[k..k + 3] == BitsOf(v, 3)
    ensures From(bits, k) == v + 8 * From(bits, k + 3)
  {
    Three(v);
    var b := BitsOf(v, 3);
    assert b[0] == bits[k] && b[1] == bits[k + 1] && b[2] == bits[k + 2];
    assert From(bits, k) == Val(bits[k]) + 2 * From(bits, k + 1);
    assert From(bits, k + 1) == Val(bits[k + 1]) + 2 * From(bits, k + 2);
    assert From(bits, k + 2) == Val(bits[k + 2]) + 2 * From(bits, k + 3);
  }

  lemma Header(nsts: nat, mask: nat, t: Table)
    requires nsts < 8 && mask < 16
    ensures Nsts(Element(nsts, mask, t)) == nsts
    ensures RuMask(Element(nsts, mask, t)) == mask
  {
    var bits := BitsOf(nsts, 3) + BitsOf(mask, 4) + Fields(mask, t, RUS * (nsts + 1));
    assert Element(nsts, mask, t)[0] == Octet(bits);
    assert BitsOf(mask, 4) == [mask % 2 == 1] + BitsOf(mask / 2, 3);
    hide Element, Fields, BitsOf;
    assert bits[0..3] == BitsOf(nsts, 3);
    ThreeFrom(bits, 0, nsts);
    assert bits[3..7] == BitsOf(mask, 4);
    assert bits[3] == bits[3..7][0];
    assert bits[4..7] == bits[3..7][1..] == BitsOf(mask / 2, 3);
    ThreeFrom(bits, 4, mask / 2);
    MaskBits(nsts, mask, From(bits, 0), From(bits, 3), From(bits, 4), From(bits, 7));
  }

  lemma MaskBits(nsts: nat, mask: nat, x: nat, from3: nat, from4: nat, from7: nat)
    requires nsts < 8 && mask < 16
    requires x == nsts + 8 * from3 && from3 == mask % 2 + 2 * from4 && from4 == mask / 2 + 8 * from7
    ensures x % 8 == nsts && x / 8 % 16 == mask
  {
    assert x / 8 == from3 == mask + 16 * from7;
  }

  /** An element is complete and no longer than it has to be. */
  lemma Tight(nsts: nat, mask: nat, t: Table)
    requires nsts < 8 && mask < 16
    ensures var s := Element(nsts, mask, t); Complete(s) && 8 * (|s| - 1) < 7 + 6 * Pairs(s)
  {
    Header(nsts, mask, t);
    FieldsLength(mask, t, RUS * (nsts + 1));
    assert RUS * (nsts + 1) / RUS == nsts + 1 && RUS * (nsts + 1) % RUS == 0;
  }

  /** Parsing the element, whatever follows it, gives back NSTS, the mask, and the threshold of every
      selected pair. */
  lemma ParseInvertsEncoding(nsts: nat, mask: nat, t: Table, i: nat, j: nat, tail: seq<byte>)
    requires nsts < 8 && mask < 16 && i <= nsts && j < RUS
    requires t(i, j) < 64
    ensures var s := Element(nsts, mask, t) + tail;
            && Complete(s)
            && Nsts(s) == nsts
            && RuMask(s) == mask
            && Threshold(s, i, j) == if mask / Pow2(j) % 2 == 1 then t(i, j) else 0
  {
    hide Element, Nsts, RuMask, Threshold, Complete, Selected, Pow2;
    SelectedIsBit(mask, j);
    ParsedThreshold(nsts, mask, t, i, j, tail);
  }

  lemma ParsedThreshold(nsts: nat, mask: nat, t: Table, i: nat, j: nat, tail: seq<byte>)
    requires nsts < 8 && mask < 16 && i <= nsts && j < RUS
    requires t(i, j) < 64
    ensures var s := Element(nsts, mask, t) + tail;
            && Complete(s)
            && Nsts(s) == nsts
            && RuMask(s) == mask
            && Threshold(s, i, j) == if Selected(mask, j) then t(i, j) else 0
  {
    hide Element, Selected, Field;
    var e := Element(nsts, mask, t);
    Header(nsts, mask, t);
    Tight(nsts, mask, t);
    assert (e + tail)[0] == e[0];
    if Selected(mask, j) {
      PairLow(nsts, mask, t, i, j);
      PairHigh(nsts, mask, t, i, j);
      FieldOfPrefix(e, tail, Position(mask, i, j));
      FieldOfPrefix(e, tail, Position(mask, i, j) + 3);
    }
  }

  /** A conforming element is read past its end exactly if the number of selected pairs is positive
      and not 3 modulo 4. */
  lemma ConformingElementIsOverreadIff(nsts: nat, mask: nat, t: Table)
    requires nsts < 8 && mask < 16
    ensures var s := Element(nsts, mask, t);
            var n := Rank(mask, nsts + 1, 0);
            |s| < Needed(s) <==> n > 0 && n % 4 != 3
  {
    Header(nsts, mask, t);
    Tight(nsts, mask, t);
    ReadsBehindIff(Element(nsts, mask, t));
  }
}
