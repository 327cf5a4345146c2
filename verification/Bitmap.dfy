/** Bitmaps stored in 64-bit words, as used by the run queues and by the PID allocator.  Bit operations
    on a word are defined by recursion on its bits. */
module Bitmap {
  import opened Powers

  const WORD: nat := 64
  const WORD_VALUES: nat := 0x1_0000_0000_0000_0000   // Pow2(WORD)

  /** w & (1UL << b) != 0 */
  predicate WordBit(w: nat, b: nat) {
    if b == 0 then w % 2 == 1 else WordBit(w / 2, b - 1)
  }

  /** w | (1UL << b) */
  function WordSet(w: nat, b: nat): nat {
    if b == 0 then w / 2 * 2 + 1 else WordSet(w / 2, b - 1) * 2 + w % 2
  }

  /** w & ~(1UL << b) */
  function WordClear(w: nat, b: nat): nat {
    if b == 0 then w / 2 * 2 else WordClear(w / 2, b - 1) * 2 + w % 2
  }

  lemma {:induction false} WordSetBit(w: nat, b: nat, c: nat)
    ensures WordBit(WordSet(w, b), c) <==> c == b || WordBit(w, c)
  {
    if b > 0 && c > 0 { WordSetBit(w / 2, b - 1, c - 1); }
  }

  lemma {:induction false} WordClearBit(w: nat, b: nat, c: nat)
    ensures WordBit(WordClear(w, b), c) <==> c != b && WordBit(w, c)
  {
    if b > 0 && c > 0 { WordClearBit(w / 2, b - 1, c - 1); }
  }

  /** A word of n bits that is not zero has a bit that is set; the zero word has none. */
  lemma {:induction false} SomeBitSet(w: nat, n: nat) returns (b: nat)
    requires 0 < w < Pow2(n)
    ensures b < n && WordBit(w, b)
  {
    if w % 2 == 1 {
      b := 0;
    } else {
      var c := SomeBitSet(w / 2, n - 1);
      b := c + 1;
    }
  }

  lemma {:induction false} ZeroWord(b: nat)
    ensures !WordBit(0, b)
  {
    if b > 0 { ZeroWord(b - 1); }
  }

  /** A word of n bits that is not all ones has a bit that is clear; the all-ones word has none. */
  lemma {:induction false} SomeBitClear(w: nat, n: nat) returns (b: nat)
    requires w < Pow2(n) - 1
    ensures b < n && !WordBit(w, b)
  {
    if w % 2 == 0 {
      b := 0;
    } else {
      var c := SomeBitClear(w / 2, n - 1);
      b := c + 1;
    }
  }

  lemma {:induction false} FullWord(n: nat, b: nat)
    requires b < n
    ensures WordBit(Pow2(n) - 1, b)
  {
    if b > 0 {
      FullWord(n - 1, b - 1);
      assert (Pow2(n) - 1) / 2 == Pow2(n - 1) - 1;
    }
  }

  lemma {:induction false} WordFits(w: nat, b: nat, n: nat)
    requires w < Pow2(n) && b < n
    ensures WordSet(w, b) < Pow2(n) && WordClear(w, b) < Pow2(n)
  {
    HalfFits(w, n);
    if b > 0 { WordFits(w / 2, b - 1, n - 1); }
  }

  lemma HalfFits(w: nat, n: nat)
    requires w < Pow2(n) && n > 0
    ensures w / 2 < Pow2(n - 1) && Pow2(n) == 2 * Pow2(n - 1)
  {}

  // ----- words of 64 bits

  lemma WordRange()
    ensures Pow2(WORD) == WORD_VALUES
  {
    Squared(8, 256);
    Squared(16, 0x1_0000);
    Squared(32, 0x1_0000_0000);
  }

  lemma Squared(n: nat, v: nat)
    requires Pow2(n) == v
    ensures Pow2(n + n) == v * v
  {
    Pow2Sum(n, n);
  }

  lemma {:induction false} Pow2Sum(a: nat, b: nat)
    ensures Pow2(a + b) == Pow2(a) * Pow2(b)
  {
    if a > 0 {
      Pow2Sum(a - 1, b);
      assert Pow2(a + b) == 2 * (Pow2(a - 1) * Pow2(b)) == 2 * Pow2(a - 1) * Pow2(b);
    }
  }

  lemma WordKept(w: nat, b: nat)
    requires w < WORD_VALUES && b < WORD
    ensures WordSet(w, b) < WORD_VALUES && WordClear(w, b) < WORD_VALUES
  {
    WordRange();
    WordFits(w, b, WORD);
  }

  lemma SetBitOf(w: nat) returns (b: nat)
    requires 0 < w < WORD_VALUES
    ensures b < WORD && WordBit(w, b)
  {
    WordRange();
    b := SomeBitSet(w, WORD);
  }

  lemma ClearBitOf(w: nat) returns (b: nat)
    requires w < WORD_VALUES - 1
    ensures b < WORD && !WordBit(w, b)
  {
    WordRange();
    b := SomeBitClear(w, WORD);
  }

  lemma AllOnes(b: nat)
    requires b < WORD
    ensures WordBit(WORD_VALUES - 1, b)
  {
    WordRange();
    FullWord(WORD, b);
  }

  // ----- bitmaps

  type Words = seq<nat>

  ghost predicate WordsOk(bm: Words) {
    forall i | 0 <= i < |bm| :: bm[i] < WORD_VALUES
  }

  predicate TestBit(bm: Words, n: nat)
    requires n < WORD * |bm|
  {
    WordBit(bm[n / WORD], n % WORD)
  }

  function SetBit(bm: Words, n: nat): (r: Words)
    requires n < WORD * |bm|
    ensures |r| == |bm|
  {
    bm[n / WORD := WordSet(bm[n / WORD], n % WORD)]
  }

  function ClearBit(bm: Words, n: nat): (r: Words)
    requires n < WORD * |bm|
    ensures |r| == |bm|
  {
    bm[n / WORD := WordClear(bm[n / WORD], n % WORD)]
  }

  lemma SetBitAt(bm: Words, n: nat, c: nat)
    requires n < WORD * |bm| && c < WORD * |bm|
    ensures TestBit(SetBit(bm, n), c) <==> c == n || TestBit(bm, c)
  {
    if c / WORD == n / WORD { WordSetBit(bm[n / WORD], n % WORD, c % WORD); }
  }

  lemma ClearBitAt(bm: Words, n: nat, c: nat)
    requires n < WORD * |bm| && c < WORD * |bm|
    ensures TestBit(ClearBit(bm, n), c) <==> c != n && TestBit(bm, c)
  {
    if c / WORD == n / WORD { WordClearBit(bm[n / WORD], n % WORD, c % WORD); }
  }

  lemma BitsFit(bm: Words, n: nat)
    requires WordsOk(bm) && n < WORD * |bm|
    ensures WordsOk(SetBit(bm, n)) && WordsOk(ClearBit(bm, n))
  {
    WordKept(bm[n / WORD], n % WORD);
  }

  /** find_first_bit: the smallest set bit below size, or size. */
  method FindFirstBit(bm: Words, size: nat) returns (r: nat)
    requires WordsOk(bm) && size <= WORD * |bm|
    ensures r <= size
    ensures r < size ==> TestBit(bm, r)
    ensures forall c | 0 <= c < r :: !TestBit(bm, c)
  {
    var words := (size + 63) / WORD;
    var i := 0;
    while i < words
      invariant 0 <= i <= words
      invariant forall c | 0 <= c < WORD * i :: !TestBit(bm, c)
    {
      if bm[i] != 0 {
        ghost var known := SetBitOf(bm[i]);
        var bit := 0;
        while !WordBit(bm[i], bit)
          invariant 0 <= bit <= known < WORD
          invariant forall b | 0 <= b < bit :: !WordBit(bm[i], b)
          decreases WORD - bit
        {
          bit := bit + 1;
        }
        r := i * WORD + bit;
        forall c | WORD * i <= c < r ensures !TestBit(bm, c) {
          assert c / WORD == i && c % WORD == c - WORD * i;
        }
        assert r / WORD == i && r % WORD == bit;
        return if r < size then r else size;
      }
      forall c | WORD * i <= c < WORD * (i + 1) ensures !TestBit(bm, c) {
        assert c / WORD == i && c % WORD == c - WORD * i;
        ZeroWord(c % WORD);
      }
      i := i + 1;
    }
    return size;
  }
}
