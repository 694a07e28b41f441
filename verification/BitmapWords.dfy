/** The bitmap of the frame allocator, as a value: 64-bit words of which bit `i` of word `w` stands for
    unit `64 * w + i`. */
module BitmapWords {
  import opened Machine
  import opened Bits

  const WORD: nat := 64

  /** The low `r` ones. */
  function Ones(r: nat): nat { Pow2(r) - 1 }

  /** All ones shifted right by `64 - r`; the shift amount wraps, so `r == 0` gives all ones. */
  function LowMask(r: nat): u64
    requires r <= WORD
  {
    Pow2Fits(r);
    if r == 0 then U64_MAX else Ones(r)
  }

  /** A left shift by one that drops the bit shifted out. */
  function Shl1(x: u64): u64 {
    if 2 * x <= U64_MAX then 2 * x else 2 * x - (U64_MAX + 1)
  }

  function Shl(x: u64, k: nat): u64 {
    if k == 0 then x else Shl1(Shl(x, k - 1))
  }

  /** The first shift of the mask that meets no set bit. */
  function FitBit(entry: u64, mask: u64, bit: nat): Option<nat>
    requires bit <= WORD
    decreases WORD - bit, entry, mask
  {
    if bit == WORD then None
    else if And(mask, entry) == 0 then Some(bit)
    else FitBit(entry, Shl1(mask), bit + 1)
  }

  /** The lowest bit from which a run of `r` ones meets no set bit. */
  function FirstFit(entry: u64, r: nat): Option<nat>
    requires r <= WORD
  {
    FitBit(entry, LowMask(r), 0)
  }

  /** A run of `r` ones, shifted by `k`, meets no set bit of the word. */
  predicate FitsAt(entry: u64, r: nat, k: nat)
    requires r <= WORD
  {
    And(Shl(LowMask(r), k), entry) == 0
  }

  lemma {:induction false} FitBitIsLowest(entry: u64, r: nat, bit: nat)
    requires r <= WORD && bit <= WORD
    ensures var fit := FitBit(entry, Shl(LowMask(r), bit), bit);
            && (fit.Some? ==> bit <= fit.value < WORD && FitsAt(entry, r, fit.value))
            && forall k: nat :: bit <= k < WORD && (fit == None || k < fit.value) ==> !FitsAt(entry, r, k)
    decreases WORD - bit
  {
    if bit < WORD {
      FitBitIsLowest(entry, r, bit + 1);
    }
  }

  /** The bit the shifting search stops at is the lowest one at which the run fits. */
  lemma FirstFitIsLowest(entry: u64, r: nat)
    requires r <= WORD
    ensures var fit := FirstFit(entry, r);
            && (fit.Some? ==> fit.value < WORD && FitsAt(entry, r, fit.value))
            && forall k: nat :: k < WORD && (fit == None || k < fit.value) ==> !FitsAt(entry, r, k)
  {
    FitBitIsLowest(entry, r, 0);
  }

  /** What looking at one word tells the search: the units start at `start`, or it goes on with `compared`
      bits found from `start`. */
  datatype Progress = Stop(start: nat) | More(compared: nat, start: nat)

  function ScanWord(entry: u64, i: nat, compared: nat, start: nat, b: nat): (p: Progress)
    requires compared < b
    ensures p.More? ==> p.compared < b
  {
    if entry == U64_MAX then More(0, (i + 1) * WORD)
    else if b - compared >= WORD then
      if entry != 0 then More(0, (i + 1) * WORD)
      else if compared + WORD == b then Stop(start)
      else More(compared + WORD, start)
    else
      match FirstFit(entry, b - compared)
      case Some(bit) => Stop(i * WORD + bit)
      case None => More(0, start)
  }

  /** The search of `Alloc` from word `i` on. */
  function Scan(words: seq<u64>, i: nat, compared: nat, start: nat, b: nat): Option<nat>
    requires i <= |words| && compared < b
    decreases |words| - i
  {
    if i == |words| then None
    else match ScanWord(words[i], i, compared, start, b)
      case Stop(start) => Some(start)
      case More(compared, start) => Scan(words, i + 1, compared, start, b)
  }

  /** Word `k` after `left` bits have been set from bit `offset` of word `j` on.  Every word takes up to 64 of
      the bits and is shifted by the same offset; what is shifted out is lost. */
  function MarkedWord(x: u64, j: nat, offset: nat, left: nat, k: nat): u64 {
    if j <= k && WORD * (k - j) < left then OrWord(x, Shl(LowMask(Min(left - WORD * (k - j), WORD)), offset))
    else x
  }

  function Marked(words: seq<u64>, j: nat, offset: nat, left: nat): (r: seq<u64>)
    ensures |r| == |words| && forall k :: 0 <= k < |words| ==> r[k] == MarkedWord(words[k], j, offset, left, k)
  {
    seq(|words|, k requires 0 <= k < |words| => MarkedWord(words[k], j, offset, left, k))
  }

  function OrWord(x: u64, y: u64): u64 {
    OrBound(x, y, WORD);
    Or(x, y)
  }

  lemma {:induction false} OrBound(x: nat, y: nat, k: nat)
    ensures x < Pow2(k) && y < Pow2(k) ==> Or(x, y) < Pow2(k)
    ensures k == WORD ==> Pow2(k) == U64_MAX + 1
  {
    Pow2Word();
    OrBelow(x, y, k);
  }

  lemma {:induction false} OrBelow(x: nat, y: nat, k: nat)
    ensures x < Pow2(k) && y < Pow2(k) ==> Or(x, y) < Pow2(k)
  {
    if x + y > 0 && k > 0 {
      OrBelow(x / 2, y / 2, k - 1);
    }
  }

  datatype Result = Found(start: nat, words: seq<u64>) | NotFound | OutOfBounds

  /** Search and mark: what a request for `b` units does to the bitmap. */
  function Request(words: seq<u64>, b: nat): Result
    requires b >= 1
  {
    match Scan(words, 0, 0, 0, b)
    case None => NotFound
    case Some(start) =>
      if (start + b) / WORD >= |words| then OutOfBounds
      else Found(start, Marked(words, start / WORD, start % WORD, b))
  }

  /** The search of an empty request: its mask is all ones, so it stops at the bit behind the last set one. */
  function ScanEmpty(words: seq<u64>, i: nat): (start: Option<nat>)
    requires i <= |words|
    ensures start.Some? ==> i * WORD <= start.value < |words| * WORD
    decreases |words| - i
  {
    if i == |words| then None
    else if words[i] == U64_MAX then ScanEmpty(words, i + 1)
    else match EmptyFit(words[i])
      case Some(bit) => Some(i * WORD + bit)
      case None => ScanEmpty(words, i + 1)
  }

  function EmptyFit(entry: u64): (bit: Option<nat>)
    ensures bit.Some? ==> bit.value < WORD
  {
    FitBitBound(entry, LowMask(0), 0);
    FirstFit(entry, 0)
  }

  function EmptyMark(entry: u64, offset: nat): u64 {
    OrWord(entry, Shl(LowMask(0), offset))
  }

  lemma FitBitBound(entry: u64, mask: u64, bit: nat)
    requires bit <= WORD
    ensures FitBit(entry, mask, bit).Some? ==> bit <= FitBit(entry, mask, bit).value < WORD
    decreases WORD - bit
  {
  }

  /** What an empty request does to the bitmap: the mask of its one marking step is all ones. */
  function AfterEmpty(words: seq<u64>): (r: seq<u64>) {
    match ScanEmpty(words, 0)
    case None => words
    case Some(start) => MarkEmpty(words, start)
  }

  function MarkEmpty(words: seq<u64>, start: nat): seq<u64>
    requires start < |words| * WORD
  {
    words[start / WORD := EmptyMark(words[start / WORD], start % WORD)]
  }

  lemma EmptyStops(words: seq<u64>, i: nat)
    requires i < |words| && words[i] != U64_MAX && EmptyFit(words[i]).Some?
    ensures ScanEmpty(words, i) == Some(i * WORD + EmptyFit(words[i]).value)
  {
  }

  lemma {:induction false} EmptySkips(words: seq<u64>, i: nat, j: nat)
    requires i <= j <= |words| && forall k :: i <= k < j ==> words[k] == U64_MAX
    ensures ScanEmpty(words, i) == ScanEmpty(words, j)
    decreases j - i
  {
    if i < j {
      EmptySkips(words, i + 1, j);
    }
  }

  lemma MarkEmptyAt(words: seq<u64>, i: nat, bit: nat)
    requires i < |words| && bit < WORD
    ensures MarkEmpty(words, i * WORD + bit) == words[i := EmptyMark(words[i], bit)]
  {
    WordOfBit(i, bit);
  }

  lemma WordOfBit(i: nat, bit: nat)
    requires bit < WORD
    ensures (i * WORD + bit) / WORD == i && (i * WORD + bit) % WORD == bit
  {
  }

  // ----- a bitmap whose first `n` bits are set -----

  function Fill(n: nat, w: nat): u64 {
    if n <= WORD * w then 0
    else if n >= WORD * w + WORD then U64_MAX
    else Pow2Fits(n - WORD * w); Ones(n - WORD * w)
  }

  function Packed(n: nat, count: nat): (s: seq<u64>)
    ensures |s| == count && forall w :: 0 <= w < count ==> s[w] == Fill(n, w)
  {
    seq(count, w requires 0 <= w => Fill(n, w))
  }

  // ----- shifts of a run of ones -----

  lemma Pow2Word()
    ensures Pow2(WORD) == U64_MAX + 1
  {
    Pow2Values();
  }

  lemma Pow2Fits(i: nat)
    requires i <= WORD
    ensures Pow2(i) <= U64_MAX + 1
  {
    Pow2Word();
    Pow2Monotone(i, WORD);
  }

  /** The ones from bit `i` up to bit `t`. */
  function Field(i: nat, t: nat): u64
    requires i <= t <= WORD
  {
    Pow2Fits(t);
    Pow2Monotone(i, t);
    Pow2(t) - Pow2(i)
  }

  lemma Shl1Field(i: nat, t: nat)
    requires i < t <= WORD
    ensures Shl1(Field(i, t)) == Field(i + 1, Min(t + 1, WORD))
  {
    Pow2Fits(Min(t + 1, WORD));
    if t == WORD {
      Pow2Word();
      Pow2Monotone(i + 1, WORD);
    }
  }

  /** Ones shifted left are the ones between two bit positions; what would go past bit 64 is lost. */
  lemma {:induction false} ShlOnes(b: nat, i: nat)
    requires 1 <= b <= WORD && i <= WORD
    ensures Ones(b) <= U64_MAX
    ensures Shl(Ones(b), i) == Field(i, Min(b + i, WORD))
  {
    Pow2Fits(b);
    if i > 0 {
      ShlOnes(b, i - 1);
      Shl1Field(i - 1, Min(b + i - 1, WORD));
    }
  }

  /** The low `j` bits of the ones between positions `i` and `t`. */
  lemma {:induction false} LowOfField(i: nat, t: nat, j: nat)
    requires i <= t && j <= t
    ensures Pow2(i) <= Pow2(t)
    ensures Low(Pow2(t) - Pow2(i), j) == if i <= j then Pow2(j) - Pow2(i) else 0
  {
    Pow2Monotone(i, t);
    if j > 0 {
      var i' := if i == 0 then 0 else i - 1;
      LowOfField(i', t - 1, j - 1);
      assert (Pow2(t) - Pow2(i)) / 2 == Pow2(t - 1) - Pow2(i');
    }
  }

  lemma {:induction false} LowGrows(x: nat, i: nat, j: nat)
    requires i <= j
    ensures Low(x, i) <= Low(x, j)
  {
    if i > 0 {
      LowGrows(x / 2, i - 1, j - 1);
    }
  }

  /** A run of ones from bit `i` meets the low `j` bits exactly when it starts below bit `j`. */
  lemma FieldMeets(i: nat, t: nat, j: nat)
    requires i < t <= WORD && i <= j < WORD
    ensures And(Field(i, t), Ones(j)) == 0 <==> i == j
  {
    AndLow(Field(i, t), j);
    if i < j {
      LowOfField(i, t, i + 1);
      LowGrows(Field(i, t), i + 1, j);
    } else {
      LowOfField(i, t, j);
    }
  }

  /** In a word whose low `j` bits are set, a run of `b` ones first fits at bit `j`, even when there is no
      room for all of it. */
  lemma {:induction false} FitBitAt(j: nat, b: nat, i: nat)
    requires i <= j < WORD && 1 <= b <= WORD
    ensures Ones(j) <= U64_MAX
    ensures FitBit(Ones(j), Field(i, Min(b + i, WORD)), i) == Some(j)
    decreases j - i
  {
    Pow2Fits(j);
    FieldMeets(i, Min(b + i, WORD), j);
    if i < j {
      Shl1Field(i, Min(b + i, WORD));
      FitBitAt(j, b, i + 1);
    }
  }

  /** Marking `b` bits above the low `j` gives the low `j + b`, cut off at the end of the word. */
  lemma MarkAbove(j: nat, b: nat)
    requires j < WORD && 1 <= b <= WORD
    ensures Ones(j) <= U64_MAX
    ensures OrWord(Ones(j), Shl(LowMask(b), j)) == Ones(Min(j + b, WORD))
  {
    Pow2Fits(j);
    ShlOnes(b, j);
    FieldAbove(j, Min(j + b, WORD));
  }

  lemma FieldAbove(j: nat, t: nat)
    requires j <= t <= WORD
    ensures Or(Ones(j), Field(j, t)) == Ones(t)
  {
    LowOfField(j, t, j);
    LowIsMod(Field(j, t), j);
    OrDisjoint(Field(j, t), Ones(j), j);
    OrSymmetric(Ones(j), Field(j, t));
  }
}
