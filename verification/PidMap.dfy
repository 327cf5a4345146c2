/** The PID bitmap and the search for a free pid, word by word. */
module PidMap {
  import opened Lists
  import opened Bitmap
  import opened ProcSpec

  /** The pids whose bit is set. */
  ghost function PidSet(bm: Words): set<nat>
    requires |bm| == PID_WORDS
  {
    set x | 0 <= x < PID_MAX && TestBit(bm, x)
  }

  lemma SetPid(bm: Words, pid: nat)
    requires |bm| == PID_WORDS && pid < PID_MAX
    ensures PidSet(SetBit(bm, pid)) == PidSet(bm) + {pid}
    ensures PidSet(ClearBit(bm, pid)) == PidSet(bm) - {pid}
  {
    forall x: nat | x < PID_MAX
      ensures x in PidSet(SetBit(bm, pid)) <==> x in PidSet(bm) + {pid}
      ensures x in PidSet(ClearBit(bm, pid)) <==> x in PidSet(bm) - {pid}
    {
      SetBitAt(bm, pid, x);
      ClearBitAt(bm, pid, x);
    }
  }

  /** ffs_zero: the lowest clear bit of a word, or -1 when there is none. */
  method FfsZero(word: nat) returns (bit: int)
    requires word < WORD_VALUES
    ensures bit == -1 <==> word == WORD_VALUES - 1
    ensures bit != -1 ==> 0 <= bit < WORD && !WordBit(word, bit) && forall b | 0 <= b < bit :: WordBit(word, b)
  {
    if word == WORD_VALUES - 1 { return -1; }
    ghost var clear := ClearBitOf(word);
    bit := 0;
    while WordBit(word, bit)
      invariant 0 <= bit <= clear
      invariant forall b | 0 <= b < bit :: WordBit(word, b)
      decreases clear - bit
    {
      bit := bit + 1;
    }
  }

  /** The bits of one word are the pids of that word. */
  lemma WordPids(bm: Words, w: nat, b: nat)
    requires |bm| == PID_WORDS && w < PID_WORDS && b < WORD
    ensures w * 64 + b in PidSet(bm) <==> WordBit(bm[w], b)
  {}

  lemma FreeInWordAt(bm: Words, w: nat, bit: nat)
    requires |bm| == PID_WORDS && w < PID_WORDS && bit < WORD
    requires !WordBit(bm[w], bit) && forall c | 0 <= c < bit :: WordBit(bm[w], c)
    ensures FreeInWord(PidSet(bm), w) == Some(w * 64 + bit)
  {
    forall p | w * 64 <= p < w * 64 + bit ensures p in PidSet(bm) { WordPids(bm, w, p - w * 64); }
    WordPids(bm, w, bit);
    FreeFromAt(PidSet(bm), w * 64, w * 64 + 64, w * 64 + bit);
  }

  lemma FreeInFullWord(bm: Words, w: nat)
    requires |bm| == PID_WORDS && w < PID_WORDS && bm[w] == WORD_VALUES - 1
    ensures FreeInWord(PidSet(bm), w) == None
  {
    forall p | w * 64 <= p < w * 64 + 64 ensures p in PidSet(bm) {
      WordPids(bm, w, p - w * 64);
      AllOnes(p - w * 64);
    }
  }

  class Pids {
    const bitmap: array<nat>
    var lastPid: nat

    /** Bit 0 stays reserved, which is what lets the search take the first clear bit of any word. */
    ghost predicate Valid()
      reads this, bitmap
    {
      bitmap.Length == PID_WORDS && WordsOk(bitmap[..]) && TestBit(bitmap[..], 0) && lastPid < PID_MAX
    }

    constructor ()
      ensures Valid() && PidSet(bitmap[..]) == {0} && lastPid == 0 && fresh(bitmap)
    {
      bitmap := new nat[PID_WORDS](i => if i == 0 then 1 else 0);
      lastPid := 0;
      new;
      assert bitmap[..][0] == 1 && TestBit(bitmap[..], 0);
      forall x | 0 < x < PID_MAX ensures !TestBit(bitmap[..], x) {
        if x / WORD == 0 { assert x % WORD > 0; ZeroWord(x % WORD - 1); } else { ZeroWord(x % WORD); }
      }
    }

    /** alloc_pid: marks and returns the pid the search finds, or returns -1 when all are taken. */
    method AllocPid() returns (r: int)
      requires Valid()
      modifies this`lastPid, bitmap
      ensures Valid()
      ensures match NextPid(old(PidSet(bitmap[..])), old(lastPid))
              case None => r == -1 && bitmap[..] == old(bitmap[..]) && lastPid == old(lastPid)
              case Some(pid) => r == pid && r > 0 && lastPid == pid
                                && PidSet(bitmap[..]) == old(PidSet(bitmap[..])) + {pid}
    {
      var pid := lastPid + 1;
      if pid >= PID_MAX { pid := 1; }
      r := Search(pid);
      if r >= 0 { Mark(r); }
    }

    /** A word that is not full always yields a pid that can be given out, because bit 0 is reserved: the
        search never goes on from a pid it has overwritten. */
    method Search(first: nat) returns (r: int)
      requires Valid()
      ensures -1 <= r < PID_MAX && r != 0
      ensures var start := first / 64;
              FindPid(PidSet(bitmap[..]), start, start + PID_WORDS) == if r < 0 then None else Some(r)
    {
      ghost var pids, start := PidSet(bitmap[..]), first / 64;
      var pid, i := first, 0;
      while i < PID_WORDS
        invariant 0 <= i <= PID_WORDS && pid / 64 == start
        invariant FindPid(pids, start, start + PID_WORDS) == FindPid(pids, start + i, start + PID_WORDS)
      {
        var found := TryWord(pid / 64 + i, start + PID_WORDS);
        if found >= 0 {
          pid := found;
          if pid > 0 && pid < PID_MAX { return pid; }
        }
        i := i + 1;
      }
      return -1;
    }

    /** One round of the search: a pid that is free in the word, or -1 when the word is full. */
    method TryWord(i: nat, ghost end: nat) returns (found: int)
      requires Valid() && i < end
      ensures -1 <= found < PID_MAX && found != 0
      ensures var pids := PidSet(bitmap[..]);
              FindPid(pids, i, end) == if found < 0 then FindPid(pids, i + 1, end) else Some(found)
    {
      var idx := i % PID_WORDS;
      assert 0 in PidSet(bitmap[..]);
      var bit := FfsZero(bitmap[idx]);
      if bit == -1 {
        FreeInFullWord(bitmap[..], idx);
        found := -1;
      } else {
        FreeInWordAt(bitmap[..], idx, bit);
        found := idx * 64 + bit;
      }
    }

    method Mark(pid: nat)
      requires Valid() && 0 < pid < PID_MAX
      modifies this`lastPid, bitmap
      ensures Valid() && lastPid == pid && PidSet(bitmap[..]) == old(PidSet(bitmap[..])) + {pid}
    {
      ghost var bm := bitmap[..];
      SetPid(bm, pid);
      BitsFit(bm, pid);
      SetBitAt(bm, pid, 0);
      bitmap[pid / WORD] := WordSet(bitmap[pid / WORD], pid % WORD);
      assert bitmap[..] == SetBit(bm, pid);
      lastPid := pid;
    }

    /** free_pid */
    method FreePid(pid: int)
      requires Valid()
      modifies bitmap
      ensures Valid()
      ensures PidSet(bitmap[..]) ==
              if 0 < pid < PID_MAX then old(PidSet(bitmap[..])) - {pid} else old(PidSet(bitmap[..]))
    {
      if pid <= 0 || pid >= PID_MAX { return; }
      ghost var bm := bitmap[..];
      SetPid(bm, pid);
      BitsFit(bm, pid);
      ClearBitAt(bm, pid, 0);
      bitmap[pid / WORD] := WordClear(bitmap[pid / WORD], pid % WORD);
      assert bitmap[..] == ClearBit(bm, pid);
    }
  }
}
