/** The algebra of register fields: any partition of a word of any width, and
    register values assembled as an OR of fields. */
module Fields {
  import opened Bits

  // ---------------------------------------------------------------------
  // Field algebra: any partition of a word of any width
  // ---------------------------------------------------------------------

  /** Value after Set on the same field is the input truncated to the field. */
  lemma ValueOfSet(value: int, msb: nat, lsb: nat, w: nat)
    requires lsb <= msb < w
    ensures Value(Set(value, msb, lsb, w), msb, lsb) == value % Pow2(msb - lsb + 1)
  {
    var k := msb - lsb + 1;
    SetAsShl(value, msb, lsb, w);
    ValueAsLow(Set(value, msb, lsb, w), msb, lsb);
    ShrShl(Low(value, k), lsb);
    LowLow(value, k, k);
    LowMeaning(value, k);
  }

  /** Set on one field leaves every disjoint field zero. */
  lemma ValueOfOtherSet(value: int, msb: nat, lsb: nat, w: nat, msb': nat, lsb': nat)
    requires lsb <= msb < w && lsb' <= msb' < w
    requires msb < lsb' || msb' < lsb
    ensures Value(Set(value, msb, lsb, w), msb', lsb') == 0
  {
    var word := Set(value, msb, lsb, w);
    SetAsShl(value, msb, lsb, w);
    ValueAsLow(word, msb', lsb');
    if msb < lsb' {
      Pow2Monotone(msb + 1, lsb');
      ShrBound(word, lsb', lsb');
      LowZero(msb' - lsb' + 1);
    } else {
      var k := msb - lsb + 1;
      ShlAdd(Low(value, k), lsb - lsb', lsb');
      ShrShl(Shl(Low(value, k), lsb - lsb'), lsb');
      LowShl(Low(value, k), msb' - lsb' + 1, lsb - lsb');
    }
  }

  /** Field widths of a register, from the lowest field up; no field is empty. */
  predicate Layout(widths: seq<nat>) {
    forall i :: 0 <= i < |widths| ==> widths[i] > 0
  }

  function Total(widths: seq<nat>): nat {
    if widths == [] then 0 else widths[0] + Total(widths[1..])
  }

  /** Value of every field of the part of `word` that starts at bit `lsb`. */
  function Split(widths: seq<nat>, word: nat, lsb: nat): (r: seq<nat>)
    requires Layout(widths)
    ensures |r| == |widths|
  {
    if widths == [] then []
    else [Value(word, lsb + widths[0] - 1, lsb)] + Split(widths[1..], word, lsb + widths[0])
  }

  /** OR of Set of every field, the lowest one at bit `lsb`. */
  function Join(widths: seq<nat>, values: seq<int>, lsb: nat, w: nat): nat
    requires Layout(widths) && |values| == |widths| && lsb + Total(widths) <= w
  {
    if widths == [] then 0
    else Or(Join(widths[1..], values[1..], lsb + widths[0], w),
            Set(values[0], lsb + widths[0] - 1, lsb, w))
  }

  /** The values truncated to their fields. */
  function Truncated(widths: seq<nat>, values: seq<int>): (r: seq<nat>)
    requires |values| == |widths|
    ensures |r| == |widths|
  {
    seq(|widths|, i requires 0 <= i < |widths| => values[i] % Pow2(widths[i]))
  }

  /** What Join builds lies entirely between lsb and lsb + Total. */
  lemma {:induction false} JoinBounds(widths: seq<nat>, values: seq<int>, lsb: nat, w: nat)
    requires Layout(widths) && |values| == |widths| && lsb + Total(widths) <= w
    ensures Low(Join(widths, values, lsb, w), lsb) == 0
    ensures Join(widths, values, lsb, w) < Pow2(lsb + Total(widths))
    decreases widths
  {
    if widths == [] {
      LowZero(lsb);
    } else {
      var next := lsb + widths[0];
      JoinBounds(widths[1..], values[1..], next, w);
      AddFieldBounds(Join(widths[1..], values[1..], next, w), values[0], lsb, next, lsb + Total(widths), w);
    }
  }

  lemma AddFieldBounds(high: nat, value: int, lsb: nat, next: nat, top: nat, w: nat)
    requires lsb < next <= top <= w
    requires Low(high, next) == 0 && high < Pow2(top)
    ensures Low(Or(high, Set(value, next - 1, lsb, w)), lsb) == 0
    ensures Or(high, Set(value, next - 1, lsb, w)) < Pow2(top)
  {
    var low := Set(value, next - 1, lsb, w);
    SetAsShl(value, next - 1, lsb, w);
    OrLowHigh(high, low, lsb);
    LowLow(high, next, lsb);
    LowZero(lsb);
    Pow2Monotone(next, top);
    OrBound(high, low, top);
  }

  lemma {:induction false} OrBound(x: nat, y: nat, k: nat)
    requires x < Pow2(k) && y < Pow2(k)
    ensures Or(x, y) < Pow2(k)
    decreases k
  {
    if k != 0 {
      OrBound(x / 2, y / 2, k - 1);
      OrStep(x, y);
    }
  }

  /** Decoding what was assembled gives every field its own value back, each
      truncated to its width. */
  lemma {:induction false} SplitOfJoin(widths: seq<nat>, values: seq<int>, lsb: nat, w: nat)
    requires Layout(widths) && |values| == |widths| && lsb + Total(widths) <= w
    ensures Split(widths, Join(widths, values, lsb, w), lsb) == Truncated(widths, values)
    decreases widths
  {
    if widths != [] {
      var k, next := widths[0], lsb + widths[0];
      var high := Join(widths[1..], values[1..], next, w);
      var low := Set(values[0], next - 1, lsb, w);
      SplitOfJoin(widths[1..], values[1..], next, w);
      SplitIgnoresLow(widths[1..], high, low, next, values[0], lsb, w);
      JoinBounds(widths[1..], values[1..], next, w);
      // The lowest field sees nothing of the fields above it.
      ValueOfOr(high, low, next - 1, lsb);
      ValueBelow(high, next, lsb, k);
      ValueOfSet(values[0], next - 1, lsb, w);
      assert Truncated(widths, values) == [values[0] % Pow2(k)] + Truncated(widths[1..], values[1..]);
    }
  }

  lemma ValueOfOr(x: nat, y: nat, msb: nat, lsb: nat)
    requires lsb <= msb
    ensures Value(Or(x, y), msb, lsb) == Or(Value(x, msb, lsb), Value(y, msb, lsb))
  {
    var k := msb - lsb + 1;
    OrLowHigh(x, y, lsb);
    OrLowHigh(Shr(x, lsb), Shr(y, lsb), k);
    ValueAsLow(x, msb, lsb);
    ValueAsLow(y, msb, lsb);
    ValueAsLow(Or(x, y), msb, lsb);
  }

  lemma {:induction false} LowShr(x: nat, j: nat, k: nat)
    ensures Low(Shr(x, j), k) == Shr(Low(x, j + k), j)
    decreases j
  {
    if j != 0 {
      LowShr(x / 2, j - 1, k);
      assert Low(x, j + k) / 2 == Low(x / 2, j + k - 1);
    }
  }

  lemma ValueBelow(x: nat, next: nat, lsb: nat, k: nat)
    requires Low(x, next) == 0 && next == lsb + k && k > 0
    ensures Value(x, next - 1, lsb) == 0
  {
    ValueAsLow(x, next - 1, lsb);
    LowShr(x, lsb, k);
    ShrZero(lsb);
  }

  /** Bits above the field do not matter to Value. */
  lemma ValueOfLow(x: nat, w: nat, msb: nat, lsb: nat)
    requires lsb <= msb < w
    ensures Value(Low(x, w), msb, lsb) == Value(x, msb, lsb)
  {
    var k := msb - lsb + 1;
    ValueAsLow(x, msb, lsb);
    ValueAsLow(Low(x, w), msb, lsb);
    LowShr(x, lsb, k);
    LowShr(Low(x, w), lsb, k);
    LowLow(x, w, msb + 1);
  }

  /** OR-ing a lower field in does not change the fields above it. */
  lemma SplitIgnoresLow(
    widths: seq<nat>, high: nat, low: nat, next: nat, value: int, lsb: nat, w: nat)
    requires Layout(widths) && lsb < next && next + Total(widths) <= w
    requires low == Set(value, next - 1, lsb, w)
    ensures Split(widths, Or(high, low), next) == Split(widths, high, next)
    decreases widths
  {
    SetAsShl(value, next - 1, lsb, w);
    SplitIgnoresSmall(widths, high, low, next, next);
  }

  lemma {:induction false} SplitIgnoresSmall(widths: seq<nat>, high: nat, low: nat, next: nat, at: nat)
    requires Layout(widths) && low < Pow2(next) && next <= at
    ensures Split(widths, Or(high, low), at) == Split(widths, high, at)
    decreases widths
  {
    if widths != [] {
      SplitIgnoresSmall(widths[1..], high, low, next, at + widths[0]);
      var msb := at + widths[0] - 1;
      ValueOfOr(high, low, msb, at);
      Pow2Monotone(next, at);
      ShrBound(low, at, at);
      ValueAsLow(low, msb, at);
      LowZero(widths[0]);
    }
  }

  /** Assembling the decoded fields of a partition rebuilds the word. */
  lemma {:induction false} JoinOfSplit(widths: seq<nat>, word: nat, lsb: nat, w: nat)
    requires Layout(widths) && lsb + Total(widths) == w && word < Pow2(w)
    ensures Join(widths, Split(widths, word, lsb), lsb, w) == Shl(Shr(word, lsb), lsb)
    ensures lsb == 0 ==> Join(widths, Split(widths, word, lsb), lsb, w) == word
    decreases widths
  {
    if widths == [] {
      ShrBound(word, w, lsb);
      ShlZero(lsb);
    } else {
      var k, next := widths[0], lsb + widths[0];
      var fields := Split(widths, word, lsb);
      assert fields[1..] == Split(widths[1..], word, next);
      JoinOfSplit(widths[1..], word, next, w);
      RebuildStep(word, fields[0], lsb, k, w);
    }
  }

  /** One field OR-ed under the part of the word above it. */
  lemma RebuildStep(word: nat, field: nat, lsb: nat, k: nat, w: nat)
    requires k > 0 && lsb + k <= w && field == Value(word, lsb + k - 1, lsb)
    ensures Or(Shl(Shr(word, lsb + k), lsb + k), Set(field, lsb + k - 1, lsb, w))
            == Shl(Shr(word, lsb), lsb)
  {
    var rest := Shr(word, lsb);
    var high := Shl(Shr(rest, k), k);
    SetAsShl(field, lsb + k - 1, lsb, w);
    ValueAsLow(word, lsb + k - 1, lsb);
    LowLow(rest, k, k);
    assert Set(field, lsb + k - 1, lsb, w) == Shl(Low(rest, k), lsb);
    ShrAdd(word, lsb, k);
    ShlAdd(Shr(rest, k), k, lsb);
    OrOfShl(high, Low(rest, k), lsb);
    HighOrLow(rest, k);
  }

  lemma HighOrLow(x: nat, k: nat)
    ensures Or(Shl(Shr(x, k), k), Low(x, k)) == x
  {
    LowShl(Shr(x, k), k, k);
    LowBound(x, k);
    OrAppend(Shl(Shr(x, k), k), Low(x, k), k);
    HighPlusLow(x, k);
  }

  lemma {:induction false} HighPlusLow(x: nat, k: nat)
    ensures Shl(Shr(x, k), k) + Low(x, k) == x
    decreases k
  {
    if k != 0 {
      HighPlusLow(x / 2, k - 1);
    }
  }

  lemma {:induction false} OrOfShl(x: nat, y: nat, k: nat)
    ensures Or(Shl(x, k), Shl(y, k)) == Shl(Or(x, y), k)
  {
    if k != 0 {
      OrOfShl(x, y, k - 1);
      OrStep(Shl(x, k), Shl(y, k));
    }
  }

  // ---------------------------------------------------------------------
  // A register value written as an OR of fields, from the top field down
  // ---------------------------------------------------------------------

  datatype Field = Field(value: int, msb: nat, lsb: nat)

  /** Fields of a 32-bit word, listed from high to low without overlap; gaps are
      allowed. */
  predicate Descending(fields: seq<Field>) {
    && (forall i :: 0 <= i < |fields| ==> fields[i].lsb <= fields[i].msb < 32)
    && (forall i, j :: 0 <= i < j < |fields| ==> fields[j].msb < fields[i].lsb)
  }

  /** Set<...>(a) | Set<...>(b) | ... */
  function Pack(fields: seq<Field>): nat
    requires forall i :: 0 <= i < |fields| ==> fields[i].lsb <= fields[i].msb < 32
  {
    if fields == [] then 0
    else
      var n := |fields| - 1;
      Or(Pack(fields[..n]), Set(fields[n].value, fields[n].msb, fields[n].lsb))
  }

  /** Every field of an OR-assembled word reads back as its value, truncated. */
  lemma {:induction false} FieldOfPack(fields: seq<Field>, i: nat)
    requires Descending(fields) && i < |fields|
    ensures Value(Pack(fields), fields[i].msb, fields[i].lsb)
            == fields[i].value % Pow2(fields[i].msb - fields[i].lsb + 1)
    decreases |fields|
  {
    var n, f := |fields| - 1, fields[i];
    var last := fields[n];
    ValueOfOr(Pack(fields[..n]), Set(last.value, last.msb, last.lsb), f.msb, f.lsb);
    if i == n {
      GapOfPack(fields[..n], f.msb, f.lsb);
      ValueOfSet(f.value, f.msb, f.lsb, 32);
    } else {
      FieldOfPack(fields[..n], i);
      ValueOfOtherSet(last.value, last.msb, last.lsb, 32, f.msb, f.lsb);
    }
  }

  /** Bits that belong to no field are zero. */
  lemma {:induction false} GapOfPack(fields: seq<Field>, msb: nat, lsb: nat)
    requires Descending(fields) && lsb <= msb < 32
    requires forall i :: 0 <= i < |fields| ==> fields[i].msb < lsb || msb < fields[i].lsb
    ensures Value(Pack(fields), msb, lsb) == 0
    decreases |fields|
  {
    if fields == [] {
      ShrZero(lsb);
    } else {
      var n := |fields| - 1;
      var last := fields[n];
      ValueOfOr(Pack(fields[..n]), Set(last.value, last.msb, last.lsb), msb, lsb);
      GapOfPack(fields[..n], msb, lsb);
      ValueOfOtherSet(last.value, last.msb, last.lsb, 32, msb, lsb);
    }
  }

  /** An OR of fields has no bit above its top field. */
  lemma {:induction false} PackBound(fields: seq<Field>, w: nat)
    requires Descending(fields)
    requires forall i :: 0 <= i < |fields| ==> fields[i].msb < w
    ensures Pack(fields) < Pow2(w)
    decreases |fields|
  {
    if fields != [] {
      var n := |fields| - 1;
      var last := fields[n];
      PackBound(fields[..n], w);
      SetAsShl(last.value, last.msb, last.lsb, 32);
      Pow2Monotone(last.msb + 1, w);
      OrBound(Pack(fields[..n]), Set(last.value, last.msb, last.lsb), w);
    }
  }

  /** Test is the one-bit Value. */
  lemma TestIsValue(bits: nat, i: nat)
    ensures Test(bits, i) <==> Value(bits, i, i) == 1
    ensures Value(bits, i, i) <= 1
  {
    TestAsLow(bits, i);
    ValueAsLow(bits, i, i);
  }

  // ---------------------------------------------------------------------
  // Fields at literal positions
  // ---------------------------------------------------------------------

  function Flag(b: bool): nat { if b then 1 else 0 }

  /** Value as division by the literal powers p = 2^lsb and q = 2^width. */
  lemma ValueAt(bits: nat, msb: nat, lsb: nat, p: nat, q: nat)
    requires lsb <= msb && p == Pow2(lsb) && q == Pow2(msb - lsb + 1)
    ensures 0 < p && 0 < q && Value(bits, msb, lsb) == bits / p % q
  {
    ValueMeaning(bits, msb, lsb);
  }

  lemma TestAt(bits: nat, i: nat, p: nat)
    requires p == Pow2(i)
    ensures 0 < p && Flag(Test(bits, i)) == bits / p % 2
  {
    TestMeaning(bits, i);
  }

  lemma SetAt(value: int, msb: nat, lsb: nat, p: nat, q: nat)
    requires lsb <= msb < 32 && p == Pow2(lsb) && q == Pow2(msb - lsb + 1)
    ensures 0 < q && Set(value, msb, lsb) == value % q * p
  {
    hide Set;
    SetMeaning(value, msb, lsb, 32);
  }

  /** Field number i of an assembled word, at literal powers. */
  lemma PackedAt(fields: seq<Field>, i: nat, v: int, msb: nat, lsb: nat, p: nat, q: nat)
    requires Descending(fields) && i < |fields| && fields[i] == Field(v, msb, lsb) && lsb <= msb
    requires p == Pow2(lsb) && q == Pow2(msb - lsb + 1)
    ensures 0 < p && 0 < q && Pack(fields) / p % q == v % q
  {
    hide Pack, Value;
    FieldOfPack(fields, i);
    ValueMeaning(Pack(fields), msb, lsb);
  }

  /** Storing an assembled word in w bits loses nothing when no field is higher. */
  lemma PackFits(fields: seq<Field>, w: nat, size: nat)
    requires Descending(fields) && size == Pow2(w)
    requires forall i :: 0 <= i < |fields| ==> fields[i].msb < w
    ensures 0 < size && Pack(fields) % size == Pack(fields)
  {
    hide Pack, Pow2;
    PackBound(fields, w);
    DivModUnique(Pack(fields), size, 0, Pack(fields));
  }
}
