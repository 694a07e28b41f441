/** The bitmap frame allocator, and what runs of equal requests get from it. */
module Bitmap {
  import opened Machine
  import opened Bits
  import opened BitmapWords

  /** The bitmap and the number of units handed out. */
  datatype Map = Map(words: seq<u64>, used: nat)

  datatype Answer = Granted(start: nat) | NotEnoughMem | Panicked

  /** The answer to a request for `b` units when the allocator covers `n` units. */
  function AnswerOf(n: nat, m: Map, b: nat): Answer
    requires b >= 1
  {
    if m.used >= n then NotEnoughMem
    else match Request(m.words, b)
      case Found(start, _) => Granted(start)
      case NotFound => NotEnoughMem
      case OutOfBounds => Panicked
  }

  function After(n: nat, m: Map, b: nat): Map
    requires b >= 1
  {
    if m.used >= n then m
    else match Request(m.words, b)
      case Found(_, words) => Map(words, m.used + b)
      case NotFound => m
      case OutOfBounds => m
  }

  datatype Response = Ok(addr: int) | AlignmentError | OutOfMemory | Crashed

  class FrameAllocator {
    const len: nat
    const unit: nat
    const barray: array<u64>
    const startAddr: nat
    var bitsUsed: nat

    ghost predicate Valid()
      reads this, barray
    {
      unit > 0 && len % unit == 0 && barray.Length == Units() / WORD + 1
    }

    /** The number of units covered. */
    function Units(): nat
      requires unit > 0
    {
      len / unit
    }

    ghost function State(): Map
      reads this, barray
    {
      Map(barray[..], bitsUsed)
    }

    constructor (len: nat, unit: nat, startAddr: nat)
      requires unit > 0 && len % 8 == 0 && len % unit == 0 && len / 8 % 8 == 0 && startAddr % unit == 0
      ensures Valid() && fresh(barray)
      ensures this.len == len && this.unit == unit && this.startAddr == startAddr
      ensures State() == Map(Packed(0, len / unit / WORD + 1), 0)
    {
      this.len, this.unit, this.startAddr := len, unit, startAddr;
      bitsUsed := 0;
      barray := new u64[len / unit / WORD + 1](_ => 0);
    }

    /** The first loop: finds where the units of the request start. */
    method Find(bitsToCompare: nat) returns (found: Option<nat>)
      requires bitsToCompare >= 1
      ensures found == Scan(barray[..], 0, 0, 0, bitsToCompare)
    {
      var comparedBits: nat := 0;
      var startBitIndex: nat := 0;
      ghost var words := barray[..];
      var i := 0;
      while i < barray.Length
        invariant i <= barray.Length && comparedBits < bitsToCompare
        invariant Scan(words, 0, 0, 0, bitsToCompare) == Scan(words, i, comparedBits, startBitIndex, bitsToCompare)
      {
        var p := FindInWord(barray[i], i, comparedBits, startBitIndex, bitsToCompare);
        match p
        case Stop(start) =>
          return Some(start);
        case More(compared, start) =>
          comparedBits, startBitIndex := compared, start;
        i := i + 1;
      }
      return None;
    }

    /** The body of the first loop. */
    static method FindInWord(entry: u64, i: nat, compared: nat, start: nat, bitsToCompare: nat) returns (p: Progress)
      requires compared < bitsToCompare
      ensures p == ScanWord(entry, i, compared, start, bitsToCompare)
    {
      if entry == U64_MAX {
        return More(0, (i + 1) * WORD);
      }
      var remaining := bitsToCompare - compared;
      if remaining >= WORD {
        if entry == 0 {
          var comparedBits := compared + WORD;
          return if comparedBits == bitsToCompare then Stop(start) else More(comparedBits, start);
        }
        return More(0, (i + 1) * WORD);
      }
      var bit := ShiftUntilClear(entry, remaining);
      return if bit.Some? then Stop(i * WORD + bit.value) else More(0, start);
    }

    /** The inner loop of the search: shifts the mask until it meets no set bit. */
    static method ShiftUntilClear(entry: u64, remaining: nat) returns (r: Option<nat>)
      requires remaining <= WORD
      ensures r == FirstFit(entry, remaining)
      ensures r.Some? ==> r.value < WORD && FitsAt(entry, remaining, r.value)
      ensures forall k: nat :: k < WORD && (r == None || k < r.value) ==> !FitsAt(entry, remaining, k)
    {
      FirstFitIsLowest(entry, remaining);
      var initial := LowMask(remaining);
      var mask := initial;
      var bit := 0;
      while bit < WORD
        invariant bit <= WORD
        invariant FitBit(entry, initial, 0) == FitBit(entry, mask, bit)
      {
        if And(mask, entry) == 0 {
          return Some(bit);
        }
        mask := Shl1(mask);
        bit := bit + 1;
      }
      return None;
    }

    /** The second loop: sets the bits of the request. */
    method Mark(startBitIndex: nat, bitsToCompare: nat)
      requires bitsToCompare >= 1 && (startBitIndex + bitsToCompare) / WORD < barray.Length
      modifies barray
      ensures barray[..] == Marked(old(barray[..]), startBitIndex / WORD, startBitIndex % WORD, bitsToCompare)
    {
      ghost var words := barray[..];
      var first, offset := startBitIndex / WORD, startBitIndex % WORD;
      var j: nat := first;
      var comparedBits: nat := 0;
      while true
        invariant comparedBits == WORD * (j - first) < bitsToCompare && first <= j
        invariant forall k :: 0 <= k < barray.Length ==>
                    barray[k] == if k < j then MarkedWord(words[k], first, offset, bitsToCompare, k) else words[k]
        decreases bitsToCompare - comparedBits
      {
        var remaining := bitsToCompare - comparedBits;
        var numBitsSet := Min(remaining, WORD);
        var mask := Shl(LowMask(numBitsSet), offset);
        barray[j] := OrWord(barray[j], mask);
        comparedBits := comparedBits + numBitsSet;
        if comparedBits == bitsToCompare {
          return;
        }
        j := j + 1;
      }
    }

    /** Searches for `b` free units and marks them. */
    method Take(b: nat) returns (a: Answer)
      requires b >= 1
      modifies this, barray
      ensures Taken(old(State()), b, State(), a)
    {
      var found := Find(b);
      if found.None? {
        return NotEnoughMem;
      }
      var start := found.value;
      if (start + b) / WORD >= barray.Length {
        return Panicked;
      }
      Mark(start, b);
      bitsUsed := bitsUsed + b;
      return Granted(start);
    }

    static method ShiftEmpty(entry: u64) returns (r: Option<nat>)
      ensures r == EmptyFit(entry)
    {
      r := ShiftUntilClear(entry, 0);
    }

    /** Both loops for an empty request, which is never granted. */
    method TakeNothing()
      modifies barray
      ensures barray[..] == AfterEmpty(old(barray[..]))
    {
      ghost var words := barray[..];
      var i := 0;
      while i < barray.Length
        invariant i <= barray.Length && barray[..] == words
        invariant ScanEmpty(words, 0) == ScanEmpty(words, i)
      {
        if barray[i] != U64_MAX {
          var bit := ShiftEmpty(barray[i]);
          if bit.Some? {
            EmptyStops(words, i);
            MarkEmptyAt(words, i, bit.value);
            barray[i] := EmptyMark(barray[i], bit.value);
            return;
          }
        }
        i := i + 1;
      }
    }

    /** Hands out `size` bytes. */
    method Alloc(size: nat) returns (r: Response)
      requires Valid()
      modifies this, barray
      ensures Valid()
      ensures size == 0 ==> r == OutOfMemory && State() == EmptyRequest(Units(), old(State()))
      ensures size % unit != 0 ==> r == AlignmentError && State() == old(State())
      ensures size > 0 && size % unit == 0 ==>
                && size / unit >= 1
                && Responds(Units(), unit, startAddr, old(State()), size / unit, State(), r)
    {
      if size % unit != 0 {
        return AlignmentError;
      }
      UsedUp(len, unit, bitsUsed);
      if bitsUsed * unit >= len {
        if size > 0 {
          UnitArithmetic(size, unit);
        }
        return OutOfMemory;
      }
      if size == 0 {
        TakeNothing();
        return OutOfMemory;
      }
      UnitArithmetic(size, unit);
      var a := Take(size / unit);
      match a
      case Granted(start) => return Ok(start * unit + startAddr);
      case NotEnoughMem => return OutOfMemory;
      case Panicked => return Crashed;
    }
  }

  /** An empty request marks bits and counts none of them. */
  function EmptyRequest(n: nat, m: Map): Map {
    if m.used >= n then m else Map(AfterEmpty(m.words), m.used)
  }

  ghost predicate Taken(m: Map, b: nat, m': Map, a: Answer)
    requires b >= 1
  {
    match Request(m.words, b)
    case Found(start, words) => a == Granted(start) && m' == Map(words, m.used + b)
    case NotFound => a == NotEnoughMem && m' == m
    case OutOfBounds => a == Panicked && m' == m
  }

  /** How a request for `b` units is answered and what it does to the bitmap. */
  ghost predicate Responds(n: nat, unit: nat, startAddr: nat, m: Map, b: nat, m': Map, r: Response)
    requires b >= 1
  {
    && m' == After(n, m, b)
    && match AnswerOf(n, m, b)
       case Granted(start) => r == Ok(start * unit + startAddr)
       case NotEnoughMem => r == OutOfMemory
       case Panicked => r == Crashed
  }

  lemma UnitArithmetic(size: nat, unit: nat)
    requires unit > 0 && size > 0 && size % unit == 0
    ensures size / unit >= 1
  {
    var s := size / unit;
    assert size == s * unit;
    MulAtLeast(s, unit);
  }

  lemma UsedUp(len: nat, unit: nat, used: nat)
    requires unit > 0 && len % unit == 0
    ensures used * unit >= len <==> used >= len / unit
  {
    var n := len / unit;
    assert len == n * unit;
    assert (used - n) * unit == used * unit - len;
    MulAtLeast(used - n, unit);
  }
}
