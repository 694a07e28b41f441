/** Runs of equal requests on a fresh bitmap allocator. */
module BitmapRuns {
  import opened Machine
  import opened Bits
  import opened BitmapWords
  import opened Bitmap

  // ----- one request on a packed bitmap -----

  /** Full words are skipped. */
  lemma {:induction false} SkipFull(n: nat, count: nat, i: nat, b: nat)
    requires i <= n / WORD < count && b >= 1
    ensures Scan(Packed(n, count), i, 0, i * WORD, b) == Scan(Packed(n, count), n / WORD, 0, n / WORD * WORD, b)
    decreases n / WORD - i
  {
    if i < n / WORD {
      SkipFull(n, count, i + 1, b);
    }
  }

  lemma OnesNotFull(j: nat)
    requires j < WORD
    ensures Ones(j) < U64_MAX
  {
    Pow2Monotone(j, 63);
    Pow2Values();
  }

  lemma PartialWord(n: nat)
    ensures Fill(n, n / WORD) == Ones(n % WORD) < U64_MAX
  {
    OnesNotFull(n % WORD);
  }

  /** A request smaller than a word is placed right behind the last set bit, whether or not the rest of that
      word has room for it. */
  lemma ScanSmall(n: nat, count: nat, b: nat)
    requires n / WORD < count && 1 <= b < WORD
    ensures Scan(Packed(n, count), 0, 0, 0, b) == Some(n)
  {
    SkipFull(n, count, 0, b);
    ScanLastWord(n, b);
  }

  lemma ScanLastWord(n: nat, b: nat)
    requires 1 <= b < WORD
    ensures ScanWord(Fill(n, n / WORD), n / WORD, 0, n / WORD * WORD, b) == Stop(n)
  {
    PartialWord(n);
    FirstFitAt(n % WORD, b);
  }

  lemma FirstFitAt(j: nat, b: nat)
    requires j < WORD && 1 <= b < WORD
    ensures Ones(j) <= U64_MAX && FirstFit(Ones(j), b) == Some(j)
  {
    FitBitAt(j, b, 0);
    assert LowMask(b) == Field(0, b);
  }

  /** Marking it stops at the end of the word. */
  lemma MarkSmall(n: nat, count: nat, b: nat)
    requires n / WORD < count && 1 <= b < WORD
    ensures Marked(Packed(n, count), n / WORD, n % WORD, b) == Packed(Min(n + b, n / WORD * WORD + WORD), count)
  {
    var w, j, n' := n / WORD, n % WORD, Min(n + b, n / WORD * WORD + WORD);
    forall k | 0 <= k < count ensures MarkedWord(Fill(n, k), w, j, b, k) == Fill(n', k) {
      if k == w {
        MarkLastWord(n, b);
      }
    }
  }

  lemma MarkLastWord(n: nat, b: nat)
    requires 1 <= b < WORD
    ensures MarkedWord(Fill(n, n / WORD), n / WORD, n % WORD, b, n / WORD) ==
            Fill(Min(n + b, n / WORD * WORD + WORD), n / WORD)
  {
    PartialWord(n);
    MarkAbove(n % WORD, b);
    Pow2Word();
  }

  /** A request for `c` whole words takes the first clear words; `d` of them have been found. */
  lemma {:induction false} ScanLarge(w: nat, count: nat, c: nat, d: nat)
    requires d < c && w + c <= count
    ensures Scan(Packed(WORD * w, count), w + d, WORD * d, WORD * w, WORD * c) == Some(WORD * w)
    decreases c - d
  {
    assert Packed(WORD * w, count)[w + d] == 0;
    if d + 1 < c {
      ScanLarge(w, count, c, d + 1);
    }
  }

  lemma FullWord()
    ensures OrWord(0, Shl(LowMask(WORD), 0)) == U64_MAX
  {
    MarkAbove(0, WORD);
    Pow2Word();
    assert Ones(0) == 0;
  }

  lemma MarkLarge(n: nat, count: nat, b: nat, w: nat, c: nat)
    requires c >= 1 && w + c <= count && n == WORD * w && b == WORD * c
    ensures Marked(Packed(n, count), w, 0, b) == Packed(n + b, count)
  {
    forall k | 0 <= k < count ensures MarkedWord(Fill(n, k), w, 0, b, k) == Fill(n + b, k) {
      if w <= k < w + c {
        assert Min(b - WORD * (k - w), WORD) == WORD;
        FullWord();
      }
    }
  }

  /** The sizes, in units, that never straddle a word boundary unless they fill whole words. */
  predicate Regular(b: nat) {
    b >= 1 && (b % WORD == 0 || WORD % b == 0)
  }

  lemma SmallRegular(n: nat, b: nat)
    requires 1 <= b < WORD && WORD % b == 0 && n % b == 0
    ensures n % WORD + b <= WORD
  {
    var q, k := WORD / b, n / b;
    assert WORD == q * b && n == k * b;
    var w := n / WORD;
    assert n % WORD == n - w * WORD;
    assert n % WORD == (k - w * q) * b by {
      assert w * WORD == (w * q) * b;
    }
    assert (q - (k - w * q)) * b == WORD - n % WORD;
    MulAtLeast(q - (k - w * q), b);
  }

  lemma RequestSmall(n: nat, count: nat, b: nat)
    requires (n + b) / WORD < count && 1 <= b < WORD
    ensures Request(Packed(n, count), b) == Found(n, Packed(Min(n + b, n / WORD * WORD + WORD), count))
  {
    ScanSmall(n, count, b);
    MarkSmall(n, count, b);
  }

  lemma RequestLarge(n: nat, count: nat, b: nat, w: nat, c: nat)
    requires c >= 1 && w + c < count && n == WORD * w && b == WORD * c
    ensures Request(Packed(n, count), b) == Found(n, Packed(n + b, count))
  {
    FindLarge(w, count, c);
    MarkLarge(n, count, b, w, c);
    WholeWords(w, c);
    RequestFound(Packed(n, count), b, n, w, Packed(n + b, count));
  }

  lemma RequestFound(words: seq<u64>, b: nat, start: nat, w: nat, words': seq<u64>)
    requires b >= 1 && Scan(words, 0, 0, 0, b) == Some(start) && (start + b) / WORD < |words|
    requires start / WORD == w && start % WORD == 0 && Marked(words, w, 0, b) == words'
    ensures Request(words, b) == Found(start, words')
  {
  }

  lemma FindLarge(w: nat, count: nat, c: nat)
    requires c >= 1 && w + c < count
    ensures Scan(Packed(WORD * w, count), 0, 0, 0, WORD * c) == Some(WORD * w)
  {
    WholeWords(w, c);
    SkipFull(WORD * w, count, 0, WORD * c);
    ScanLarge(w, count, c, 0);
  }

  lemma WholeWords(w: nat, c: nat)
    ensures WORD * w / WORD == w && WORD * w % WORD == 0 && (WORD * w + WORD * c) / WORD == w + c
  {
  }

  lemma RequestWithin(n: nat, units: nat, b: nat)
    requires 1 <= b < WORD && n % WORD + b <= WORD && n + b <= units
    ensures Request(Packed(n, units / WORD + 1), b) == Found(n, Packed(n + b, units / WORD + 1))
  {
    RequestSmall(n, units / WORD + 1, b);
  }

  lemma RequestWords(n: nat, units: nat, b: nat)
    requires b >= 1 && n % WORD == 0 && b % WORD == 0 && n + b <= units
    ensures Request(Packed(n, units / WORD + 1), b) == Found(n, Packed(n + b, units / WORD + 1))
  {
    InWords(n, units, b);
    RequestLarge(n, units / WORD + 1, b, n / WORD, b / WORD);
  }

  lemma InWords(n: nat, units: nat, b: nat)
    requires b >= 1 && n % WORD == 0 && b % WORD == 0 && n + b <= units
    ensures n == WORD * (n / WORD) && b == WORD * (b / WORD) && n + b == WORD * (n / WORD + b / WORD)
    ensures b / WORD >= 1 && n / WORD + b / WORD < units / WORD + 1
  {
  }

  /** A request of regular size on a packed bitmap with room for it is placed right behind the set bits and
      leaves the bitmap packed. */
  lemma RequestRegular(n: nat, units: nat, b: nat)
    requires Regular(b) && n % b == 0 && n + b <= units
    ensures Request(Packed(n, units / WORD + 1), b) == Found(n, Packed(n + b, units / WORD + 1))
  {
    if b < WORD {
      SmallRegular(n, b);
      RequestWithin(n, units, b);
    } else {
      LargeRegular(n, b);
      RequestWords(n, units, b);
    }
  }

  lemma LargeRegular(n: nat, b: nat)
    requires Regular(b) && b >= WORD && n % b == 0
    ensures b % WORD == 0 && n % WORD == 0
  {
    if b % WORD != 0 {
      SmallMod(WORD, b);
    }
    var q, k := b / WORD, n / b;
    assert n == k * b == k * (q * WORD) == (k * q) * WORD;
  }

  // ----- runs -----

  /** The state after `k` requests for `b` units on a fresh allocator of `units` units. */
  function StateAt(units: nat, b: nat, k: nat): Map
    requires b >= 1
  {
    if k == 0 then Map(Packed(0, units / WORD + 1), 0)
    else After(units, StateAt(units, b, k - 1), b)
  }

  /** The answer to request number `k`, counting from zero. */
  function AnswerAt(units: nat, b: nat, k: nat): Answer
    requires b >= 1
  {
    AnswerOf(units, StateAt(units, b, k), b)
  }

  lemma {:induction false} RegularState(units: nat, b: nat, k: nat)
    requires Regular(b) && units % b == 0 && k * b <= units
    ensures StateAt(units, b, k) == Map(Packed(k * b, units / WORD + 1), k * b)
  {
    if k > 0 {
      assert (k - 1) * b == k * b - b;
      RegularState(units, b, k - 1);
      DivModUnique((k - 1) * b, b, k - 1, 0);
      RequestRegular((k - 1) * b, units, b);
    }
  }

  /** Requests of one regular size that divides the covered units get consecutive blocks until everything is
      handed out; the bits set are exactly those handed out, and after that every request is refused. */
  lemma {:induction false} RegularRun(units: nat, b: nat, k: nat)
    requires Regular(b) && units % b == 0
    ensures k < units / b ==> AnswerAt(units, b, k) == Granted(k * b) && k * b + b <= units
    ensures k <= units / b ==> StateAt(units, b, k) == Map(Packed(k * b, units / WORD + 1), k * b)
    ensures k >= units / b ==> AnswerAt(units, b, k) == NotEnoughMem
    ensures k >= units / b ==> StateAt(units, b, k) == Map(Packed(units, units / WORD + 1), units)
  {
    var last := units / b;
    assert units == last * b;
    assert (last - k) * b == units - k * b;
    MulAtLeast(last - k, b);
    if k < last {
      RegularState(units, b, k);
      DivModUnique(k * b, b, k, 0);
      RequestRegular(k * b, units, b);
    } else if k == last {
      RegularState(units, b, k);
    } else {
      RegularRun(units, b, k - 1);
    }
  }

  lemma AnswerRegular(units: nat, b: nat, k: nat)
    requires Regular(b) && units % b == 0
    ensures AnswerOf(units, StateAt(units, b, k), b) == if k < units / b then Granted(k * b) else NotEnoughMem
  {
    RegularRun(units, b, k);
  }

  lemma BlockAddress(k: nat, b: nat, unit: nat)
    ensures k * b * unit == k * (b * unit)
  {
  }

  /** In addresses: request number `k` of `b` units gets the block `k` times its size behind the start, until the
      covered memory is handed out; then requests are refused. */
  lemma RegularResponses(units: nat, unit: nat, startAddr: nat, b: nat, k: nat, m': Map, r: Response)
    requires Regular(b) && units % b == 0
    requires Responds(units, unit, startAddr, StateAt(units, b, k), b, m', r)
    ensures r == if k < units / b then Ok(startAddr + k * (b * unit)) else OutOfMemory
    ensures m' == StateAt(units, b, k + 1)
  {
    AnswerRegular(units, b, k);
    BlockAddress(k, b, unit);
  }

  ghost predicate Overlap(a: nat, c: nat, b: nat) {
    a < c + b && c < a + b
  }

  /** All blocks granted in the run are pairwise disjoint. */
  ghost predicate RunDisjoint(units: nat, b: nat)
    requires b >= 1
  {
    forall j: nat, k: nat :: j < k && AnswerAt(units, b, j).Granted? && AnswerAt(units, b, k).Granted? ==>
      !Overlap(AnswerAt(units, b, j).start, AnswerAt(units, b, k).start, b)
  }

  lemma FirstWordStep(units: nat, n: nat, b: nat)
    requires 1 <= b < WORD && n < WORD && n < units && n + b < units / WORD * WORD + WORD
    ensures var m := Map(Packed(n, units / WORD + 1), n);
            && AnswerOf(units, m, b) == Granted(n)
            && After(units, m, b) == Map(Packed(Min(n + b, WORD), units / WORD + 1), n + b)
  {
    RequestSmall(n, units / WORD + 1, b);
  }

  lemma SecondWordStep(units: nat, used: nat, b: nat)
    requires 1 <= b < WORD && used < units && units >= WORD
    ensures AnswerOf(units, Map(Packed(WORD, units / WORD + 1), used), b) == Granted(WORD)
  {
    RequestSmall(WORD, units / WORD + 1, b);
  }

  /** While whole blocks fit in the first word any small size behaves regularly. */
  lemma {:induction false} FirstWordState(units: nat, b: nat, k: nat, n: nat)
    requires 1 <= b < WORD && n == k * b <= WORD <= units
    ensures StateAt(units, b, k) == Map(Packed(n, units / WORD + 1), n)
  {
    if k > 0 {
      assert (k - 1) * b == n - b;
      MulAtLeast(k, b);
      FirstWordState(units, b, k - 1, n - b);
      FirstWordStep(units, n - b, b);
    }
  }

  /** A small size that does not divide the word: the block at the end of the first word is granted although
      only part of it is free there, only that part is marked, and the next block, if there is one, overlaps the
      rest. */
  lemma IrregularRunOverlaps(units: nat, b: nat)
    requires 1 <= b < WORD && WORD % b != 0 && units > (WORD / b + 1) * b
    ensures var q := WORD / b;
            AnswerAt(units, b, q) == Granted(q * b) && AnswerAt(units, b, q + 1) == Granted(WORD)
            && q * b < WORD < q * b + b
  {
    var q := WORD / b;
    var n := q * b;
    assert WORD == n + WORD % b;
    assert (q + 1) * b == n + b;
    FirstWordState(units, b, q, n);
    FirstWordStep(units, n, b);
    SecondWordStep(units, n + b, b);
  }

  lemma NotDisjoint(units: nat, b: nat, j: nat)
    requires b >= 1 && AnswerAt(units, b, j).Granted? && AnswerAt(units, b, j + 1).Granted?
    requires Overlap(AnswerAt(units, b, j).start, AnswerAt(units, b, j + 1).start, b)
    ensures !RunDisjoint(units, b)
  {
  }
}
