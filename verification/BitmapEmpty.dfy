/** Requests of zero bytes on the bitmap allocator.

    Such a request is always refused.  Its masks wrap to all ones, so on the way it may take the rest of a word
    out of use without counting it. */
module BitmapEmpty {
  import opened Machine
  import opened Bits
  import opened BitmapWords
  import opened Bitmap
  import opened BitmapRuns

  // ----- a packed bitmap -----

  lemma ScanEmptyPacked(n: nat, count: nat)
    requires n / WORD < count
    ensures ScanEmpty(Packed(n, count), 0) == Some(n)
  {
    EmptySkips(Packed(n, count), 0, n / WORD);
    EmptyFitsLast(n);
    EmptyStops(Packed(n, count), n / WORD);
  }

  lemma EmptyFitsLast(n: nat)
    ensures Fill(n, n / WORD) != U64_MAX && EmptyFit(Fill(n, n / WORD)) == Some(n % WORD)
  {
    PartialWord(n);
    EmptyFitAt(n % WORD);
  }

  lemma EmptyFitAt(j: nat)
    requires j < WORD
    ensures Ones(j) <= U64_MAX && EmptyFit(Ones(j)) == Some(j)
  {
    FitBitAt(j, WORD, 0);
    FullField();
  }

  lemma FullField()
    ensures LowMask(0) == Field(0, WORD) == LowMask(WORD)
  {
    Pow2Word();
  }

  lemma EmptyMarkAt(n: nat)
    ensures EmptyMark(Fill(n, n / WORD), n % WORD) == U64_MAX
  {
    PartialWord(n);
    MarkAbove(n % WORD, WORD);
    FullField();
    Pow2Word();
  }

  /** An empty request is refused, and yet the rest of the word behind the last set bit is taken out of use. */
  lemma EmptyRequestWastesWord(units: nat, n: nat)
    requires n < units
    ensures var count := units / WORD + 1;
            EmptyRequest(units, Map(Packed(n, count), n)) == Map(Packed(n / WORD * WORD + WORD, count), n)
  {
    var count := units / WORD + 1;
    ScanEmptyPacked(n, count);
    EmptyMarkAt(n);
    assert AfterEmpty(Packed(n, count)) == Packed(n / WORD * WORD + WORD, count);
  }

  // ----- any bitmap -----

  const TOP_BIT: u64 := 0x8000_0000_0000_0000

  /** The wrapped mask, shifted by `k`, meets no set bit exactly when all set bits are below bit `k`. */
  lemma EmptyFitsAtIff(x: u64, k: nat)
    requires k < WORD
    ensures FitsAt(x, 0, k) <==> x < Pow2(k)
  {
    FullField();
    Pow2Word();
    ShlOnes(WORD, k);
    AndSymmetric(Field(k, WORD), x);
    AndFieldMask(x, k, WORD);
    SmallMod(x, Pow2(WORD));
    BelowIff(x, Pow2(k));
  }

  lemma BelowIff(x: nat, p: nat)
    requires p > 0
    ensures x == x % p <==> x < p
  {
    if x < p {
      SmallMod(x, p);
    }
  }

  /** The mask finds a place in a word exactly when its top bit is clear. */
  lemma EmptyFitIff(x: u64)
    ensures EmptyFit(x).Some? <==> x < TOP_BIT
    ensures EmptyFit(x).Some? ==> x < Pow2(EmptyFit(x).value)
  {
    FirstFitIsLowest(x, 0);
    EmptyFitsAtIff(x, 63);
    Pow2Values();
    if EmptyFit(x).Some? {
      var k := EmptyFit(x).value;
      EmptyFitsAtIff(x, k);
      Pow2Monotone(k, 63);
    }
  }

  /** Marking it changes the word. */
  lemma EmptyMarkChanges(x: u64, k: nat)
    requires k < WORD && x < Pow2(k)
    ensures EmptyMark(x, k) != x
  {
    FullField();
    Pow2Word();
    ShlOnes(WORD, k);
    Pow2Monotone(k, 63);
    Pow2Values();
  }

  /** The search stops in the first word whose top bit is clear. */
  lemma {:induction false} ScanEmptyFinds(words: seq<u64>, i: nat)
    requires i <= |words|
    ensures ScanEmpty(words, i) == None <==> forall k :: i <= k < |words| ==> words[k] >= TOP_BIT
    ensures ScanEmpty(words, i).Some? ==>
              exists k :: StopsAt(words, i, k) && ScanEmpty(words, i) == Some(k * WORD + EmptyFit(words[k]).value)
    decreases |words| - i
  {
    if i < |words| {
      EmptyFitIff(words[i]);
      if words[i] >= TOP_BIT {
        ScanEmptyFinds(words, i + 1);
        if ScanEmpty(words, i).Some? {
          var k :| StopsAt(words, i + 1, k) && ScanEmpty(words, i + 1) == Some(k * WORD + EmptyFit(words[k]).value);
          assert StopsAt(words, i, k);
        }
      } else {
        EmptyStops(words, i);
        assert StopsAt(words, i, i);
      }
    }
  }

  ghost predicate StopsAt(words: seq<u64>, i: nat, k: int) {
    i <= k < |words| && EmptyFit(words[k]).Some?
  }

  /** The bitmap is left alone exactly when every word has its top bit set. */
  lemma AfterEmptyIff(words: seq<u64>)
    ensures AfterEmpty(words) == words <==> forall k :: 0 <= k < |words| ==> words[k] >= TOP_BIT
  {
    ScanEmptyFinds(words, 0);
    if ScanEmpty(words, 0).Some? {
      var k :| StopsAt(words, 0, k) && ScanEmpty(words, 0) == Some(k * WORD + EmptyFit(words[k]).value);
      var bit := EmptyFit(words[k]).value;
      EmptyFitIff(words[k]);
      MarkEmptyAt(words, k, bit);
      EmptyMarkChanges(words[k], bit);
      assert AfterEmpty(words)[k] != words[k];
    }
  }

  /** A request of zero bytes is harmless, for every state of the allocator, exactly when all units are counted as
      used or every word of the bitmap has its top bit set. */
  lemma EmptyRequestHarmlessIff(n: nat, m: Map)
    ensures EmptyRequest(n, m) == m
       <==> m.used >= n || forall k :: 0 <= k < |m.words| ==> m.words[k] >= TOP_BIT
  {
    AfterEmptyIff(m.words);
  }
}
