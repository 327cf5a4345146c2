/** Lists of identifiers (page frames, tasks, slots) as sequences without repetition. */
module Lists {
  datatype Option<+T> = None | Some(value: T)

  ghost predicate NoDup(s: seq<nat>) {
    forall i, j | 0 <= i < j < |s| :: s[i] != s[j]
  }

  function IndexOf(s: seq<nat>, x: nat): (i: nat)
    requires x in s
    ensures i < |s| && s[i] == x && x !in s[..i]
  {
    if s[0] == x then 0 else 1 + IndexOf(s[1..], x)
  }

  /** The list with x unlinked. */
  function Without(s: seq<nat>, x: nat): seq<nat>
    requires x in s
  {
    s[..IndexOf(s, x)] + s[IndexOf(s, x) + 1..]
  }

  lemma WithoutProps(s: seq<nat>, x: nat)
    requires x in s && NoDup(s)
    ensures |Without(s, x)| == |s| - 1 && NoDup(Without(s, x)) && x !in Without(s, x)
    ensures forall y :: y in Without(s, x) <==> y in s && y != x
  {}

  lemma NoDupConcat(a: seq<nat>, b: seq<nat>)
    requires NoDup(a) && NoDup(b) && forall x | x in a :: x !in b
    ensures NoDup(a + b)
  {
    forall i, j | 0 <= i < j < |a + b| ensures (a + b)[i] != (a + b)[j] {
      if i < |a| <= j { assert a[i] in a && b[j - |a|] in b; }
    }
  }

  /** Smallest index, from k up, whose list is not empty. */
  function FirstFit(lists: seq<seq<nat>>, k: nat): (r: Option<nat>)
    requires k <= |lists|
    ensures r.Some? ==> k <= r.value < |lists| && lists[r.value] != []
    ensures forall j | k <= j < |lists| && (r.None? || j < r.value) :: lists[j] == []
    decreases |lists| - k
  {
    if k == |lists| then None
    else if lists[k] != [] then Some(k)
    else FirstFit(lists, k + 1)
  }

  /** Smallest number from x up to hi that is not taken. */
  function FreeFrom(taken: set<nat>, x: nat, hi: nat): (r: Option<nat>)
    requires x <= hi
    ensures r.Some? ==> r.value !in taken && x <= r.value < hi
    ensures r.None? ==> forall p | x <= p < hi :: p in taken
    decreases hi - x, taken
  {
    if x == hi then None else if x !in taken then Some(x) else FreeFrom(taken, x + 1, hi)
  }

  lemma {:induction false} FreeFromAt(taken: set<nat>, x: nat, hi: nat, y: nat)
    requires x <= y < hi && y !in taken && forall p | x <= p < y :: p in taken
    ensures FreeFrom(taken, x, hi) == Some(y)
    decreases y - x
  {
    if x < y { FreeFromAt(taken, x + 1, hi, y); }
  }

  // ----- sizes

  ghost function Elems(s: seq<nat>): set<nat> { set x | x in s }

  /** A list without repetition has as many elements as it is long. */
  lemma {:induction false} ElemsSize(s: seq<nat>)
    requires NoDup(s)
    ensures |Elems(s)| == |s|
  {
    if s != [] {
      ElemsSize(s[1..]);
      assert Elems(s) == {s[0]} + Elems(s[1..]);
    }
  }

  lemma SubsetSize(a: set<nat>, b: set<nat>)
    requires a <= b
    ensures |b - a| == |b| - |a|
  {
    assert b == a + (b - a);
  }

  /** The numbers below n. */
  ghost function Below(n: nat): (s: set<nat>)
    ensures |s| == n && forall x: nat {:trigger x in s} :: x in s <==> x < n
  {
    if n == 0 then {} else Below(n - 1) + {n - 1}
  }
}
