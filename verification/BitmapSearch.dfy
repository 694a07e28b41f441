/** What the bitmap allocator searches for and marks, on any bitmap, in terms of single bits.

    A request of whole words looks for clear words.  Any other request looks for a word with room for the bits
    that are left over, behind enough clear words for the rest, and starts in that word: the clear words only
    serve to get there, and bits that do not fit in the word are not looked at. */
module BitmapSearch {
  import opened Machine
  import opened Bits
  import opened BitmapWords
  import opened Bitmap
  import opened BitmapRuns
  import opened BitmapPlans

  // ----- bits -----

  /** No bit from `k` up to `t` is set. */
  ghost predicate ClearBits(x: nat, k: nat, t: nat) { forall i: nat :: k <= i < t ==> !Bit(x, i) }

  lemma {:induction false} LowSameIff(x: nat, k: nat, t: nat)
    requires k <= t
    ensures Low(x, t) == Low(x, k) <==> ClearBits(x, k, t)
  {
    if k < t {
      LowSameIff(x, k, t - 1);
      BitIsDifference(x, t - 1);
      LowGrows(x, k, t - 1);
      LowGrows(x, t - 1, t);
    }
  }

  /** A shifted run of ones fits where it meets no set bit; what is shifted out of the word does not matter. */
  lemma FitsAtIff(x: u64, r: nat, k: nat)
    requires 1 <= r <= WORD && k < WORD
    ensures FitsAt(x, r, k) <==> ClearBits(x, k, Min(k + r, WORD))
  {
    var t := Min(k + r, WORD);
    ShlOnes(r, k);
    AndSymmetric(Field(k, t), x);
    AndField(x, k, t);
    LowSameIff(x, k, t);
  }

  /** The bits of a run of ones from `k` to `t`. */
  lemma FieldBits(k: nat, t: nat, i: nat)
    requires k <= t <= WORD && i < WORD
    ensures Bit(Field(k, t), i) <==> k <= i < t
  {
    if i < t {
      LowOfField(k, t, i);
      LowOfField(k, t, i + 1);
      BitIsDifference(Field(k, t), i);
      assert Pow2(i + 1) == 2 * Pow2(i);
    } else {
      Pow2Monotone(t, i);
      BitsOfField(Field(k, t), i, i);
    }
  }

  /** Marking sets, in each word of the request, up to 64 bits from the same offset on, as far as the word goes. */
  lemma MarkedBits(x: u64, j: nat, offset: nat, left: nat, k: nat, i: nat)
    requires offset < WORD && i < WORD
    ensures Bit(MarkedWord(x, j, offset, left, k), i)
       <==> || Bit(x, i)
            || (j <= k && WORD * (k - j) < left && offset <= i < offset + Min(left - WORD * (k - j), WORD))
  {
    if j <= k && WORD * (k - j) < left {
      var n := Min(left - WORD * (k - j), WORD);
      ShlOnes(n, offset);
      BitOfOr(x, Field(offset, Min(n + offset, WORD)), i);
      FieldBits(offset, Min(n + offset, WORD), i);
    }
  }

  // ----- places -----

  /** The `c` words from `i` on are clear. */
  ghost predicate StartsAt(words: seq<u64>, c: nat, i: int) {
    0 <= i && i + c <= |words| && AllAre(words, i, i + c, 0)
  }

  /** Word `i` has room for `r` bits and the `c` words in front of it are clear. */
  ghost predicate EndsAt(words: seq<u64>, c: nat, r: nat, i: int)
    requires r < WORD
  {
    && c <= i < |words| && AllAre(words, i - c, i, 0)
    && words[i] != U64_MAX && FirstFit(words[i], r).Some?
  }

  /** Where a request for `b` units can be placed. */
  ghost predicate IsPlace(words: seq<u64>, b: nat, start: nat) {
    var c, r, i, k := b / WORD, b % WORD, start / WORD, start % WORD;
    if r == 0 then k == 0 && StartsAt(words, c, i)
    else EndsAt(words, c, r, i) && FirstFit(words[i], r) == Some(k)
  }

  ghost predicate IsLowest(words: seq<u64>, b: nat, start: nat) {
    IsPlace(words, b, start) && forall s: nat :: s < start ==> !IsPlace(words, b, s)
  }

  // ----- whole words -----

  /** The search from word `i` on, with `d` clear words counted in front of it. */
  lemma {:induction false} ScanWholeFrom(words: seq<u64>, i: nat, d: nat, c: nat)
    requires d < c && d <= i <= |words| && AllAre(words, i - d, i, 0)
    requires forall j :: 0 <= j < i - d ==> !StartsAt(words, c, j)
    ensures var result := Scan(words, i, WORD * d, (i - d) * WORD, WORD * c);
            && (result == None ==> forall j :: !StartsAt(words, c, j))
            && (result.Some? ==> exists j :: FirstStart(words, c, j) && result.value == j * WORD)
    decreases |words| - i
  {
    if i == |words| {
    } else if words[i] != 0 {
      forall j | 0 <= j < i + 1 ensures !StartsAt(words, c, j) {
      }
      ScanWholeFrom(words, i + 1, 0, c);
    } else if d + 1 < c {
      ScanWholeFrom(words, i + 1, d + 1, c);
    } else {
      assert FirstStart(words, c, i - d);
    }
  }

  ghost predicate FirstStart(words: seq<u64>, c: nat, j: int) {
    StartsAt(words, c, j) && forall k :: 0 <= k < j ==> !StartsAt(words, c, k)
  }

  // ----- words and bits -----

  ghost predicate FirstEnd(words: seq<u64>, c: nat, r: nat, j: int)
    requires r < WORD
  {
    EndsAt(words, c, r, j) && forall k :: 0 <= k < j ==> !EndsAt(words, c, r, k)
  }

  /** Fewer than `c` clear words lie in front of word `i`: exactly `d`. */
  ghost predicate RunIs(words: seq<u64>, i: nat, d: nat, c: nat) {
    && d <= c && d <= i <= |words| && AllAre(words, i - d, i, 0)
    && (d < c ==> i == d || words[i - d - 1] != 0)
  }

  lemma NotEnding(words: seq<u64>, i: nat, d: nat, c: nat, r: nat)
    requires r < WORD && d < c && RunIs(words, i, d, c)
    ensures !EndsAt(words, c, r, i)
  {
  }

  lemma {:induction false} ScanPartFrom(words: seq<u64>, i: nat, d: nat, start: nat, c: nat, r: nat)
    requires 0 < r < WORD && RunIs(words, i, d, c)
    requires forall j :: 0 <= j < i ==> !EndsAt(words, c, r, j)
    ensures var result := Scan(words, i, WORD * d, start, WORD * c + r);
            && (result == None ==> forall j :: !EndsAt(words, c, r, j))
            && (result.Some? ==> exists j :: FirstEnd(words, c, r, j)
                                             && result.value == j * WORD + FirstFit(words[j], r).value)
    decreases |words| - i
  {
    if i < |words| {
      if d < c {
        NotEnding(words, i, d, c, r);
      }
      if words[i] == U64_MAX {
        ScanPartFrom(words, i + 1, 0, (i + 1) * WORD, c, r);
      } else if d < c {
        if words[i] == 0 {
          ScanPartFrom(words, i + 1, d + 1, start, c, r);
        } else {
          ScanPartFrom(words, i + 1, 0, (i + 1) * WORD, c, r);
        }
      } else if FirstFit(words[i], r).Some? {
        assert FirstEnd(words, c, r, i);
      } else {
        FitClear(r);
        ScanPartFrom(words, i + 1, 0, start, c, r);
      }
    }
  }

  // ----- the search -----

  lemma PlaceOfWord(words: seq<u64>, b: nat, i: nat, k: nat)
    requires k < WORD
    ensures IsPlace(words, b, i * WORD + k) <==>
            if b % WORD == 0 then k == 0 && StartsAt(words, b / WORD, i)
            else EndsAt(words, b / WORD, b % WORD, i) && FirstFit(words[i], b % WORD) == Some(k)
  {
    WordOfBit(i, k);
  }

  /** The search finds the lowest place, and fails exactly when there is none. */
  lemma ScanFindsLowest(words: seq<u64>, b: nat)
    requires b >= 1
    ensures Scan(words, 0, 0, 0, b) == None ==> forall s: nat :: !IsPlace(words, b, s)
    ensures forall s: nat :: Scan(words, 0, 0, 0, b) == Some(s) ==> IsLowest(words, b, s)
  {
    if b % WORD == 0 {
      ScanFindsWhole(words, b, b / WORD);
    } else {
      ScanFindsPart(words, b, b / WORD, b % WORD);
    }
  }

  lemma ScanFindsWhole(words: seq<u64>, b: nat, c: nat)
    requires c >= 1 && b == WORD * c
    ensures Scan(words, 0, 0, 0, b) == None ==> forall s: nat :: !IsPlace(words, b, s)
    ensures forall s: nat :: Scan(words, 0, 0, 0, b) == Some(s) ==> IsLowest(words, b, s)
  {
    ScanWholeFrom(words, 0, 0, c);
    WholeWords(0, c);
    if s: nat :| Scan(words, 0, 0, 0, b) == Some(s) {
      var j :| FirstStart(words, c, j) && s == j * WORD;
      PlaceOfWord(words, b, j, 0);
      forall s': nat | s' < s ensures !IsPlace(words, b, s') {
        assert s' / WORD < j;
      }
    }
  }

  lemma ScanFindsPart(words: seq<u64>, b: nat, c: nat, r: nat)
    requires 0 < r < WORD && b == WORD * c + r && b / WORD == c && b % WORD == r
    ensures Scan(words, 0, 0, 0, b) == None ==> forall s: nat :: !IsPlace(words, b, s)
    ensures forall s: nat :: Scan(words, 0, 0, 0, b) == Some(s) ==> IsLowest(words, b, s)
  {
    ScanPartFrom(words, 0, 0, 0, c, r);
    if s: nat :| Scan(words, 0, 0, 0, b) == Some(s) {
      var j :| FirstEnd(words, c, r, j) && s == j * WORD + FirstFit(words[j], r).value;
      FirstFitIsLowest(words[j], r);
      PlaceOfWord(words, b, j, FirstFit(words[j], r).value);
      forall s': nat | s' < s ensures !IsPlace(words, b, s') {
        if s' / WORD == j {
          assert s' == j * WORD + s' % WORD;
        }
      }
    }
  }

  /** The answer to a request in any state of the allocator: refused if everything is counted as used or there is no
      place, a panic if the block at the lowest place reaches past the bitmap, granted there otherwise. */
  lemma AnswerIs(n: nat, m: Map, b: nat)
    requires b >= 1
    ensures AnswerOf(n, m, b) == NotEnoughMem <==> m.used >= n || forall s: nat :: !IsPlace(m.words, b, s)
    ensures forall s: nat :: m.used < n && IsLowest(m.words, b, s) ==>
              AnswerOf(n, m, b) == if (s + b) / WORD >= |m.words| then Panicked else Granted(s)
  {
    ScanFindsLowest(m.words, b);
    var found := Scan(m.words, 0, 0, 0, b);
    forall s: nat | IsLowest(m.words, b, s) ensures found == Some(s) {
      assert found.Some? && IsPlace(m.words, b, found.value);
    }
  }
}
