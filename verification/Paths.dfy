/** Path names: the component parser, the components of a path, and the tree they are looked up in. */
module Paths {
  const COMPONENT_MAX: nat := 255   // what fits in a 256-byte buffer
  const NAME_MAX: nat := 63

  type Name = seq<char>

  predicate NoSlash(s: seq<char>) { '/' !in s }

  /** How many slashes s begins with, from position i on. */
  function SkipSlashes(s: seq<char>, i: nat): (j: nat)
    requires i <= |s|
    ensures i <= j <= |s| && (j < |s| ==> s[j] != '/')
    ensures forall k | i <= k < j :: s[k] == '/'
    decreases |s| - i
  {
    if i < |s| && s[i] == '/' then SkipSlashes(s, i + 1) else i
  }

  /** Where the component that begins at i ends: at a slash, at the end of s, or at position hi. */
  function RunEnd(s: seq<char>, i: nat, hi: nat): (j: nat)
    requires i <= |s| && i <= hi
    ensures i <= j <= |s| && j <= hi && forall k | i <= k < j :: s[k] != '/'
    ensures j < |s| && j < hi ==> s[j] == '/'
    decreases hi - i
  {
    if i < |s| && s[i] != '/' && i < hi then RunEnd(s, i + 1, hi) else i
  }

  /** parse_path_component: the next component and what is left of the path. */
  function Parse(s: seq<char>): (r: (Name, seq<char>))
    ensures NoSlash(r.0) && |r.0| <= COMPONENT_MAX && |r.1| <= |s|
    ensures r.0 == [] ==> r.1 == []
    ensures r.0 != [] ==> |r.1| < |s|
  {
    var i := SkipSlashes(s, 0);
    var j := RunEnd(s, i, i + COMPONENT_MAX);
    (s[i..j], s[j..])
  }

  /** All components of a path. */
  function Components(s: seq<char>): (cs: seq<Name>)
    ensures forall c | c in cs :: c != [] && NoSlash(c) && |c| <= COMPONENT_MAX
    decreases |s|
  {
    var (c, rest) := Parse(s);
    if c == [] then [] else [c] + Components(rest)
  }

  function Slashes(n: nat): (s: seq<char>)
    ensures |s| == n && forall i | 0 <= i < n :: s[i] == '/'
  {
    seq(n, _ => '/')
  }

  /** A component with any number of slashes in front of it and a slash, or nothing, behind it. */
  lemma ParseOne(n: nat, c: Name, rest: seq<char>)
    requires c != [] && NoSlash(c) && |c| <= COMPONENT_MAX && (rest == [] || rest[0] == '/')
    ensures Parse(Slashes(n) + c + rest) == (c, rest)
  {
    var s := Slashes(n) + c + rest;
    assert s[n] == c[0];
    SkipExactly(s, 0, n);
    forall k | n <= k < n + |c| ensures s[k] != '/' { assert s[k] == c[k - n]; }
    RunExactly(s, n, n + |c|, n + COMPONENT_MAX);
    assert s[n..n + |c|] == c && s[n + |c|..] == rest;
  }

  lemma {:induction false} SkipExactly(s: seq<char>, i: nat, n: nat)
    requires i <= n < |s| && s[n] != '/' && forall k | i <= k < n :: s[k] == '/'
    ensures SkipSlashes(s, i) == n
    decreases n - i
  {}

  lemma {:induction false} RunExactly(s: seq<char>, i: nat, j: nat, hi: nat)
    requires i <= j <= |s| && j <= hi && (forall k | i <= k < j :: s[k] != '/')
    requires j == |s| || s[j] == '/' || j == hi
    ensures RunEnd(s, i, hi) == j
    decreases j - i
  {}

  /** The path that names its components one after the other, with as many slashes in front of each as one
      likes but at least one. */
  function Render(cs: seq<(nat, Name)>): seq<char> {
    if cs == [] then [] else Slashes(cs[0].0 + 1) + cs[0].1 + Render(cs[1..])
  }

  function Names(cs: seq<(nat, Name)>): (ns: seq<Name>)
    ensures |ns| == |cs|
  {
    if cs == [] then [] else [cs[0].1] + Names(cs[1..])
  }

  /** Parsing a rendered path gives back its components, whatever the number of slashes. */
  lemma {:induction false} ComponentsRender(cs: seq<(nat, Name)>, tail: nat)
    requires forall c | c in cs :: c.1 != [] && NoSlash(c.1) && |c.1| <= COMPONENT_MAX
    ensures Components(Render(cs) + Slashes(tail)) == Names(cs)
  {
    if cs == [] {
      assert Render(cs) + Slashes(tail) == Slashes(tail);
      OnlySlashes(tail);
    } else {
      var rest := Render(cs[1..]) + Slashes(tail);
      Assoc(Slashes(cs[0].0 + 1) + cs[0].1, Render(cs[1..]), Slashes(tail));
      assert cs[0] in cs;
      RenderStarts(cs[1..], tail);
      ParseOne(cs[0].0 + 1, cs[0].1, rest);
      ComponentsCons(Slashes(cs[0].0 + 1) + cs[0].1 + rest, cs[0].1, rest);
      ComponentsRender(cs[1..], tail);
    }
  }

  lemma RenderStarts(cs: seq<(nat, Name)>, tail: nat)
    ensures var s := Render(cs) + Slashes(tail); s == [] || s[0] == '/'
  {}

  lemma OnlySlashes(n: nat)
    ensures Components(Slashes(n)) == []
  {}

  /** Components on both sides of a slash. */
  lemma {:induction false} ComponentsAppend(a: seq<char>, b: seq<char>, tail: seq<char>)
    requires tail == ['/'] + b
    ensures Components(a + tail) == Components(a) + Components(b)
    decreases |a|
  {
    var (c, rest) := Parse(a);
    if a == [] {
      assert a + tail == tail;
      LeadingSlash(b);
    } else if c == [] {
      assert a[0] == '/';
      assert a + tail == ['/'] + (a[1..] + tail) && a == ['/'] + a[1..];
      LeadingSlash(a[1..] + tail);
      LeadingSlash(a[1..]);
      ComponentsAppend(a[1..], b, tail);
    } else {
      ParseMore(a, tail);
      ComponentsCons(a + tail, c, rest + tail);
      ComponentsAppend(rest, b, tail);
      Assoc([c], Components(rest), Components(b));
    }
  }

  lemma Assoc<T>(a: seq<T>, b: seq<T>, c: seq<T>)
    ensures a + b + c == a + (b + c)
  {}

  lemma LeadingSlash(s: seq<char>)
    ensures Components(['/'] + s) == Components(s)
  {
    ParseSlash(s);
  }

  lemma ParseSlash(s: seq<char>)
    ensures Parse(['/'] + s) == Parse(s)
  {
    var i := SkipSlashes(s, 0);
    SkipFirst(s);
    RunShift(s, i, i + COMPONENT_MAX);
    SliceShift(s, i, RunEnd(s, i, i + COMPONENT_MAX));
  }

  lemma SkipFirst(s: seq<char>)
    ensures SkipSlashes(['/'] + s, 0) == SkipSlashes(s, 0) + 1
  {
    SkipShift(s, 0);
    assert (['/'] + s)[0] == '/';
  }

  lemma {:induction false} SkipShift(s: seq<char>, i: nat)
    requires i <= |s|
    ensures SkipSlashes(['/'] + s, i + 1) == SkipSlashes(s, i) + 1
    decreases |s| - i
  {
    if i < |s| && s[i] == '/' { SkipShift(s, i + 1); }
  }

  lemma {:induction false} RunShift(s: seq<char>, i: nat, hi: nat)
    requires i <= |s| && i <= hi
    ensures RunEnd(['/'] + s, i + 1, hi + 1) == RunEnd(s, i, hi) + 1
    decreases hi - i
  {
    if i < |s| && s[i] != '/' && i < hi { RunShift(s, i + 1, hi); }
  }

  lemma SliceShift(s: seq<char>, i: nat, j: nat)
    requires i <= j <= |s|
    ensures (['/'] + s)[i + 1..j + 1] == s[i..j] && (['/'] + s)[j + 1..] == s[j..]
  {}

  /** A name by itself is one component. */
  lemma OneComponent(name: Name)
    requires name != [] && NoSlash(name) && |name| <= COMPONENT_MAX
    ensures Components(name) == [name]
  {
    ParseOne(0, name, []);
    assert Slashes(0) + name + [] == name;
    ComponentsCons(name, name, []);
    NoComponents();
  }

  lemma NoComponents()
    ensures Components([]) == []
  {}

  /** A slash at the end makes no difference. */
  lemma ComponentsTrailing(a: seq<char>)
    ensures Components(a + ['/']) == Components(a)
  {
    ComponentsAppend(a, [], ['/']);
    NoComponents();
  }

  lemma ComponentsCons(s: seq<char>, c: Name, rest: seq<char>)
    requires Parse(s) == (c, rest) && c != []
    ensures Components(s) == [c] + Components(rest)
  {}

  /** What follows a slash does not change the components before it. */
  lemma ParseMore(a: seq<char>, b: seq<char>)
    requires Parse(a).0 != [] && b != [] && b[0] == '/'
    ensures Parse(a + b) == (Parse(a).0, Parse(a).1 + b)
  {
    var i := SkipSlashes(a, 0);
    var j := RunEnd(a, i, i + COMPONENT_MAX);
    var s := a + b;
    SkipExactly(s, 0, i);
    RunExactly(s, i, j, i + COMPONENT_MAX);
    assert s[i..j] == a[i..j] && s[j..] == a[j..] + b;
  }
}
