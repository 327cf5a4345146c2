/** ramfs under the VFS, on values: a table of named nodes that is a tree, the walk along the components of a
    path, file contents, and what opening, reading, writing and creating do to them. */
module RamfsSpec {
  import opened Division
  import opened Lists
  import opened Paths

  const MAX_FILES: nat := 256
  const MAX_SIZE: nat := 4096
  const ROOT: nat := 0

  type byte = bv8

  /** A ramfs_file with its inode: slot i of the table holds both.  The data buffer belongs to the slot.  The file
      and the inode each have a size. */
  datatype Node = Node(name: Name, parent: Option<nat>, size: nat, buffer: seq<byte>, inodeSize: nat)

  type Table = seq<Node>

  // ----- the tree

  /** ramfs_find_file from slot i on. */
  function FindFile(t: Table, dir: nat, name: Name, i: nat): (r: Option<nat>)
    requires i <= |t|
    ensures r.Some? ==> i <= r.value < |t| && t[r.value].parent == Some(dir) && t[r.value].name == name
    ensures forall j | i <= j < (if r.Some? then r.value else |t|) :: !(t[j].parent == Some(dir) && t[j].name == name)
    decreases |t| - i
  {
    if i == |t| then None
    else if t[i].parent == Some(dir) && t[i].name == name then Some(i)
    else FindFile(t, dir, name, i + 1)
  }

  ghost predicate NodeOk(t: Table, i: nat)
    requires i < |t|
  {
    && |t[i].buffer| == MAX_SIZE && t[i].inodeSize <= t[i].size <= MAX_SIZE && |t[i].name| <= NAME_MAX
    && (if i == ROOT then t[i].parent == None else t[i].parent.Some? && t[i].parent.value < i)
  }

  /** Slot 0 is the root; every other node's parent has a lower slot number, so the table is a tree. */
  ghost predicate TreeOk(t: Table) {
    1 <= |t| <= MAX_FILES && forall i {:trigger NodeOk(t, i)} | 0 <= i < |t| :: NodeOk(t, i)
  }

  predicate SameEntry(a: Node, b: Node) { a.parent == b.parent && a.name == b.name }

  /** No directory holds two entries of the same name. */
  ghost predicate Unique(t: Table) {
    forall i, j {:trigger SameEntry(t[i], t[j])} | 0 <= i < j < |t| :: !SameEntry(t[i], t[j])
  }

  /** One step of a walk: "." stays, ".." goes to the parent and at the root stays, a name is looked up. */
  function Go(t: Table, dir: nat, c: Name): (r: Option<nat>)
    requires dir < |t|
    ensures TreeOk(t) && r.Some? ==> r.value < |t|
  {
    if c == "." then Some(dir)
    else if c == ".." then
      assert TreeOk(t) ==> NodeOk(t, dir);
      if t[dir].parent.Some? then t[dir].parent else Some(dir)
    else FindFile(t, dir, c, 0)
  }

  /** The node the components lead to. */
  function Walk(t: Table, dir: nat, cs: seq<Name>): (r: Option<nat>)
    requires TreeOk(t) && dir < |t|
    ensures r.Some? ==> r.value < |t|
    decreases |cs|
  {
    if cs == [] then Some(dir)
    else
      match Go(t, dir, cs[0])
      case None => None
      case Some(d) => Walk(t, d, cs[1..])
  }

  /** What vfs_lookup_path finds with a single file system mounted on "/". */
  function Lookup(t: Table, path: seq<char>): (r: Option<nat>)
    requires TreeOk(t)
    ensures r.Some? ==> r.value < |t|
  {
    if path == [] || path[0] != '/' then None else Walk(t, ROOT, Components(path[1..]))
  }

  lemma {:induction false} WalkAppend(t: Table, dir: nat, a: seq<Name>, b: seq<Name>)
    requires TreeOk(t) && dir < |t|
    ensures Walk(t, dir, a + b) == match Walk(t, dir, a) case None => None case Some(d) => Walk(t, d, b)
    decreases |a|
  {
    if a == [] {
      assert a + b == b;
    } else {
      assert (a + b)[1..] == a[1..] + b;
      match Go(t, dir, a[0])
      case None =>
      case Some(d) => WalkAppend(t, d, a[1..], b);
    }
  }

  // ----- creation

  function Truncate(name: Name): Name { if |name| <= NAME_MAX then name else name[..NAME_MAX] }

  function NewNode(name: Name, dir: nat, buffer: seq<byte>): Node { Node(Truncate(name), Some(dir), 0, buffer, 0) }

  /** ramfs_mkdir: fails when the table is full or the name exists. */
  predicate CanMake(t: Table, dir: nat, name: Name) { |t| < MAX_FILES && FindFile(t, dir, name, 0).None? }

  function MakeNode(t: Table, dir: nat, name: Name, buffer: seq<byte>): Table {
    if CanMake(t, dir, name) then t + [NewNode(name, dir, buffer)] else t
  }

  lemma MakeTree(t: Table, dir: nat, name: Name, buffer: seq<byte>)
    requires TreeOk(t) && dir < |t| && |buffer| == MAX_SIZE
    ensures TreeOk(MakeNode(t, dir, name, buffer))
  {
    var t' := MakeNode(t, dir, name, buffer);
    forall i | 0 <= i < |t'| ensures NodeOk(t', i) { if i < |t| { assert NodeOk(t, i); } }
  }

  /** Creation keeps names unique exactly when the name is not cut off to one that exists: names of up to 63
      characters are always safe. */
  lemma MakeUniqueExactly(t: Table, dir: nat, name: Name, buffer: seq<byte>)
    requires TreeOk(t) && Unique(t) && dir < |t| && CanMake(t, dir, name)
    ensures Unique(MakeNode(t, dir, name, buffer)) <==> |name| <= NAME_MAX || FindFile(t, dir, Truncate(name), 0).None?
  {
    var t', n := MakeNode(t, dir, name, buffer), |t|;
    if FindFile(t, dir, Truncate(name), 0).None? {
      forall i, j | 0 <= i < j < |t'| ensures !SameEntry(t'[i], t'[j]) {
        if j < n { assert !SameEntry(t[i], t[j]); }
      }
    } else {
      assert SameEntry(t'[FindFile(t, dir, Truncate(name), 0).value], t'[n]);
    }
  }

  /** Two entries of one name come about when a name of more than 63 characters is created twice. */
  lemma LongNameTwice(name: Name, buffer: seq<byte>)
    requires |name| > NAME_MAX && |buffer| == MAX_SIZE
    ensures var t := [Node("/", None, 0, buffer, 0)];
            var t1 := MakeNode(t, ROOT, name, buffer);
            var t2 := MakeNode(t1, ROOT, name, buffer);
            |t1| == 2 && |t2| == 3 && SameEntry(t2[1], t2[2])
  {
    var t := [Node("/", None, 0, buffer, 0)];
    assert FindFile(t, ROOT, name, 0).None?;
    var t1 := MakeNode(t, ROOT, name, buffer);
    assert FindFile(t1, ROOT, name, 0).None?;
  }

  /** t' is t with more nodes behind it; what is in t keeps its name and place. */
  ghost predicate Extends(t: Table, t': Table) {
    |t| <= |t'| && forall i {:trigger SameEntry(t[i], t'[i])} | 0 <= i < |t| :: SameEntry(t[i], t'[i])
  }

  lemma FindExtends(t: Table, t': Table, dir: nat, name: Name)
    requires Extends(t, t') && FindFile(t, dir, name, 0).Some?
    ensures FindFile(t', dir, name, 0) == FindFile(t, dir, name, 0)
  {
    var r, r' := FindFile(t, dir, name, 0).value, FindFile(t', dir, name, 0);
    assert SameEntry(t[r], t'[r]);
    assert r'.Some? && r'.value <= r;
    assert SameEntry(t[r'.value], t'[r'.value]);
  }

  /** Paths that lead somewhere keep leading there. */
  lemma {:induction false} WalkExtends(t: Table, t': Table, dir: nat, cs: seq<Name>)
    requires TreeOk(t) && TreeOk(t') && Extends(t, t') && dir < |t| && Walk(t, dir, cs).Some?
    ensures Walk(t', dir, cs) == Walk(t, dir, cs)
    decreases |cs|
  {
    if cs != [] {
      var c := cs[0];
      assert SameEntry(t[dir], t'[dir]);
      if c != "." && c != ".." { FindExtends(t, t', dir, c); }
      WalkExtends(t, t', Go(t, dir, c).value, cs[1..]);
    }
  }

  // ----- vfs_mkdir

  /** Position of the last slash before i, or 0. */
  function LastSlash(path: seq<char>, i: nat): (r: nat)
    requires i <= |path|
    ensures r <= i && forall k | r < k < i :: path[k] != '/'
    ensures i > 0 && path[0] == '/' ==> r < i && path[r] == '/'
  {
    if i == 0 then 0 else if path[i - 1] == '/' then i - 1 else LastSlash(path, i - 1)
  }

  /** What a 256-byte buffer holds of a string. */
  function Cut(s: seq<char>): seq<char> { if |s| <= COMPONENT_MAX then s else s[..COMPONENT_MAX] }

  /** The directory a new entry goes to and its name. */
  function Target(t: Table, path: seq<char>): (Option<nat>, Name)
    requires TreeOk(t) && path != [] && path[0] == '/'
  {
    var k := LastSlash(path, |path|);
    (if k == 0 then Some(ROOT) else Lookup(t, Cut(path[..k])), Cut(path[k + 1..]))
  }

  predicate CanMkdir(t: Table, path: seq<char>)
    requires TreeOk(t)
  {
    path != [] && path[0] == '/' && Target(t, path).0.Some? && CanMake(t, Target(t, path).0.value, Target(t, path).1)
  }

  /** vfs_mkdir: the new table and whether it succeeded. */
  function Mkdir(t: Table, path: seq<char>, buffer: seq<byte>): (Table, bool)
    requires TreeOk(t)
  {
    if CanMkdir(t, path) then (MakeNode(t, Target(t, path).0.value, Target(t, path).1, buffer), true) else (t, false)
  }

  /** Whatever vfs_mkdir does, the table stays a tree and every path that led somewhere still leads there. */
  lemma MkdirKeeps(t: Table, path: seq<char>, buffer: seq<byte>)
    requires TreeOk(t) && |buffer| == MAX_SIZE
    ensures var t' := Mkdir(t, path, buffer).0;
            && TreeOk(t') && Extends(t, t')
            && forall p | Lookup(t, p).Some? :: Lookup(t', p) == Lookup(t, p)
  {
    var (t', ok) := Mkdir(t, path, buffer);
    if ok { MakeTree(t, Target(t, path).0.value, Target(t, path).1, buffer); }
    forall i | 0 <= i < |t| ensures SameEntry(t[i], t'[i]) {}
    LookupsKept(t, t');
  }

  lemma LookupsKept(t: Table, t': Table)
    requires TreeOk(t) && TreeOk(t') && Extends(t, t')
    ensures forall p | Lookup(t, p).Some? :: Lookup(t', p) == Lookup(t, p)
  {
    forall p | Lookup(t, p).Some? ensures Lookup(t', p) == Lookup(t, p) {
      WalkExtends(t, t', ROOT, Components(p[1..]));
    }
  }

  /** A name that a lookup can find: not empty, not "." or "..", and not cut off. */
  predicate Plain(name: Name) { name != [] && name != "." && name != ".." && |name| <= NAME_MAX }

  /** One step of a walk in the table that vfs_mkdir is about to make, told from the table before: |t| stands
      for the new node, which will be entry name of dir and have no entries of its own. */
  function GoNext(t: Table, dir: nat, name: Name, at: nat, c: Name): (r: Option<nat>)
    requires TreeOk(t) && dir < |t| && at <= |t|
    ensures r.Some? ==> r.value <= |t|
  {
    if c == "." then Some(at)
    else if at == |t| then if c == ".." then Some(dir) else None
    else if at == dir && c == name && c != ".." then Some(|t|)
    else Go(t, at, c)
  }

  function WalkNext(t: Table, dir: nat, name: Name, at: nat, cs: seq<Name>): (r: Option<nat>)
    requires TreeOk(t) && dir < |t| && at <= |t|
    ensures r.Some? ==> r.value <= |t|
    decreases |cs|
  {
    if cs == [] then Some(at)
    else
      match GoNext(t, dir, name, at, cs[0])
      case None => None
      case Some(d) => WalkNext(t, dir, name, d, cs[1..])
  }

  /** The path in front of the last slash leads, with the new entry in place, to the directory that the entry
      goes to.  It does not when the buffer cuts it off to the path of another directory. */
  predicate ParentHolds(t: Table, path: seq<char>)
    requires TreeOk(t) && path != [] && path[0] == '/'
  {
    var (dir, name) := Target(t, path);
    dir.Some? && WalkNext(t, dir.value, name, ROOT, ParentPart(path)) == dir
  }

  /** The components in front of the last slash. */
  function ParentPart(path: seq<char>): (cs: seq<Name>)
    requires path != [] && path[0] == '/'
    ensures forall c | c in cs :: c != []
  {
    var k := LastSlash(path, |path|);
    if k == 0 then [] else Components(path[1..k])
  }

  /** What follows the last slash. */
  function LastPart(path: seq<char>): (last: seq<char>)
    requires path != [] && path[0] == '/'
    ensures NoSlash(last)
  {
    path[LastSlash(path, |path|) + 1..]
  }

  /** After a successful vfs_mkdir the path leads to the new node exactly when its last component is a plain
      name and the part in front of it leads to the directory that received the entry. */
  lemma MkdirResolves(t: Table, path: seq<char>, buffer: seq<byte>)
    requires TreeOk(t) && |buffer| == MAX_SIZE && Mkdir(t, path, buffer).1
    ensures var t' := Mkdir(t, path, buffer).0;
            && TreeOk(t') && |t'| == |t| + 1
            && (Lookup(t', path) == Some(|t|) <==> Plain(LastPart(path)) && ParentHolds(t, path))
  {
    var t' := Mkdir(t, path, buffer).0;
    MakeTree(t, Target(t, path).0.value, Target(t, path).1, buffer);
    forall i | 0 <= i < |t| ensures SameEntry(t[i], t'[i]) {}
    LookupTarget(t, t', path);
  }

  /** The parent part holds whenever it fits the buffer; when it leads somewhere before the call, it holds
      exactly when it leads where its first 255 characters lead. */
  lemma ParentHoldsExactly(t: Table, path: seq<char>, buffer: seq<byte>)
    requires TreeOk(t) && |buffer| == MAX_SIZE && Mkdir(t, path, buffer).1 && Plain(LastPart(path))
    ensures var k := LastSlash(path, |path|);
            && (k <= COMPONENT_MAX ==> ParentHolds(t, path))
            && (k > 0 && Lookup(t, path[..k]).Some? ==>
                  (ParentHolds(t, path) <==> Lookup(t, path[..k]) == Lookup(t, Cut(path[..k]))))
  {
    var k, t' := LastSlash(path, |path|), Mkdir(t, path, buffer).0;
    var (dir, name) := Target(t, path);
    if k > 0 && Lookup(t, path[..k]).Some? {
      MakeTree(t, dir.value, name, buffer);
      forall i | 0 <= i < |t| ensures SameEntry(t[i], t'[i]) {}
      assert path[..k][1..] == path[1..k];
      WalkExtends(t, t', ROOT, Components(path[1..k]));
      WalkNextIs(t, t', dir.value, name, ROOT, Components(path[1..k]));
    }
  }

  /** t' is t with a new node of this name, cut to 63 characters, in dir. */
  ghost predicate Grown(t: Table, t': Table, dir: nat, name: Name) {
    && TreeOk(t) && TreeOk(t') && Extends(t, t') && |t'| == |t| + 1 && dir < |t|
    && FindFile(t, dir, name, 0).None? && t'[|t|].parent == Some(dir) && t'[|t|].name == Truncate(name)
  }

  lemma LookupTarget(t: Table, t': Table, path: seq<char>)
    requires TreeOk(t) && path != [] && path[0] == '/' && Target(t, path).0.Some?
    requires Grown(t, t', Target(t, path).0.value, Target(t, path).1)
    ensures Lookup(t', path) == Some(|t|) <==> Plain(LastPart(path)) && ParentHolds(t, path)
  {
    SplitAtLast(path);
    ReachedExactly(t, t', Target(t, path).0.value, ParentPart(path), LastPart(path));
  }

  lemma ReachedExactly(t: Table, t': Table, dir: nat, cs: seq<Name>, last: Name)
    requires Grown(t, t', dir, Cut(last)) && NoSlash(last) && forall c | c in cs :: c != []
    ensures Walk(t', ROOT, cs + Components(last)) == Some(|t|) <==>
            Plain(last) && WalkNext(t, dir, last, ROOT, cs) == Some(dir)
  {
    if Plain(last) {
      OneComponent(last);
      PlainReached(t, t', dir, last, cs);
    } else if |last| > NAME_MAX {
      LongNameLost(t', last);
      WalkAppend(t', ROOT, cs, Components(last));
    } else {
      NeverReached(t, t', dir, last, ROOT, cs + Components(last));
    }
  }

  lemma PlainReached(t: Table, t': Table, dir: nat, name: Name, cs: seq<Name>)
    requires Grown(t, t', dir, name) && Plain(name)
    ensures Walk(t', ROOT, cs + [name]) == Some(|t|) <==> WalkNext(t, dir, name, ROOT, cs) == Some(dir)
  {
    WalkAppend(t', ROOT, cs, [name]);
    WalkNextIs(t, t', dir, name, ROOT, cs);
    match Walk(t', ROOT, cs)
    case None =>
    case Some(d) => GoNew(t, t', dir, name, d);
  }

  lemma SplitAtLast(path: seq<char>)
    requires path != [] && path[0] == '/'
    ensures Components(path[1..]) == ParentPart(path) + Components(LastPart(path))
  {
    var k, last := LastSlash(path, |path|), LastPart(path);
    if k > 0 {
      assert path[1..] == path[1..k] + (['/'] + last);
      ComponentsAppend(path[1..k], last, ['/'] + last);
    } else {
      assert [] + Components(last) == Components(last);
    }
  }

  /** Walks in the grown table are the walks told from the table before. */
  lemma {:induction false} WalkNextIs(t: Table, t': Table, dir: nat, name: Name, at: nat, cs: seq<Name>)
    requires Grown(t, t', dir, name) && Plain(name) && at <= |t|
    ensures Walk(t', at, cs) == WalkNext(t, dir, name, at, cs)
    decreases |cs|
  {
    if cs != [] {
      GoNextIs(t, t', dir, name, at, cs[0]);
      match Go(t', at, cs[0])
      case None =>
      case Some(d) => WalkNextIs(t, t', dir, name, d, cs[1..]);
    }
  }

  lemma GoNextIs(t: Table, t': Table, dir: nat, name: Name, at: nat, c: Name)
    requires Grown(t, t', dir, name) && Plain(name) && at <= |t|
    ensures Go(t', at, c) == GoNext(t, dir, name, at, c)
  {
    assert NodeOk(t', at);
    forall j | 0 <= j < |t| ensures SameEntry(t[j], t'[j]) && (at == |t| ==> t'[j].parent != Some(at)) {
      assert SameEntry(t[j], t'[j]) && NodeOk(t', j);
    }
    if c != "." && c != ".." {
      var r, r' := FindFile(t, at, c, 0), FindFile(t', at, c, 0);
      assert at < |t| && r.Some? ==> r' == r by { if at < |t| && r.Some? { FindExtends(t, t', at, c); } }
    }
  }

  /** The last step reaches the new node exactly from its own directory. */
  lemma GoNew(t: Table, t': Table, dir: nat, name: Name, d: nat)
    requires Grown(t, t', dir, name) && Plain(name) && d <= |t|
    ensures Go(t', d, name) == Some(|t|) <==> d == dir
  {
    GoNextIs(t, t', dir, name, d, name);
    if d < |t| && d != dir && Go(t, d, name).Some? { assert Go(t, d, name).value < |t|; }
  }

  /** No entry has a name of more than 63 characters, so such a component leads nowhere. */
  lemma LongNameLost(t: Table, last: Name)
    requires TreeOk(t) && NoSlash(last) && |last| > NAME_MAX
    ensures forall d | 0 <= d < |t| :: Walk(t, d, Components(last)).None?
  {
    LongFirst(last);
    var cs := Components(last);
    forall d | 0 <= d < |t| ensures Walk(t, d, cs).None? { NoLongName(t, d, cs[0]); }
  }

  lemma LongFirst(last: Name)
    requires NoSlash(last) && |last| > NAME_MAX
    ensures Components(last) != [] && |Components(last)[0]| > NAME_MAX
  {
    var n := if |last| <= COMPONENT_MAX then |last| else COMPONENT_MAX;
    SkipExactly(last, 0, 0);
    RunExactly(last, 0, n, COMPONENT_MAX);
    ComponentsCons(last, last[..n], last[n..]);
  }

  lemma NoLongName(t: Table, dir: nat, name: Name)
    requires TreeOk(t) && |name| > NAME_MAX
    ensures FindFile(t, dir, name, 0).None?
  {
    forall i | 0 <= i < |t| ensures |t[i].name| <= NAME_MAX { assert NodeOk(t, i); }
  }

  /** A node whose name is empty, "." or ".." is reached by no walk. */
  lemma {:induction false} NeverReached(t: Table, t': Table, dir: nat, name: Name, at: nat, cs: seq<Name>)
    requires Grown(t, t', dir, name) && (name == [] || name == "." || name == "..") && at < |t|
    requires forall c | c in cs :: c != []
    ensures Walk(t', at, cs) != Some(|t|)
    decreases |cs|
  {
    if cs != [] {
      assert NodeOk(t', at) && cs[0] in cs;
      match Go(t', at, cs[0])
      case None =>
      case Some(d) =>
        assert forall c | c in cs[1..] :: c in cs;
        NeverReached(t, t', dir, name, d, cs[1..]);
    }
  }

  // ----- open files

  const U32: nat := 0x1_0000_0000
  const U64: nat := 0x1_0000_0000_0000_0000

  datatype Handle = Handle(node: nat, pos: nat)

  datatype Fs = Fs(table: Table, handles: map<nat, Handle>)

  function Content(n: Node): seq<byte>
    requires n.size <= |n.buffer|
  {
    n.buffer[..n.size]
  }

  predicate HandleOk(t: Table, h: Handle) { h.node < |t| && h.pos <= t[h.node].size }

  /** No handle is past the end of its file, and no file is larger than its buffer. */
  ghost predicate Inv(fs: Fs) {
    TreeOk(fs.table) && forall h | h in fs.handles :: HandleOk(fs.table, fs.handles[h])
  }

  /** The contents with data written over them from pos on, longer if need be. */
  function Overwrite(content: seq<byte>, pos: nat, data: seq<byte>): seq<byte>
    requires pos <= |content|
  {
    content[..pos] + data + (if pos + |data| < |content| then content[pos + |data|..] else [])
  }

  function Min(a: nat, b: nat): nat { if a <= b then a else b }

  /** The number of bytes ramfs_read copies: the sum of position and count is taken in 64 bits. */
  function ReadCount(pos: nat, size: nat, count: nat): nat {
    if pos >= size then 0 else if (pos + count) % U64 > size then size - pos else count
  }

  /** At the end of the file, or the sum of position and count fits in 64 bits. */
  predicate ReadFits(pos: nat, size: nat, count: nat) { pos >= size || pos + count < U64 }

  /** ramfs_read copies what is left of the file, up to count bytes, exactly when the sum fits; otherwise it
      copies count bytes, more than are left. */
  lemma ReadCountExactly(pos: nat, size: nat, count: nat)
    requires pos < U64 && size < U64 && count < U64
    ensures ReadCount(pos, size, count) == (if pos >= size then 0 else Min(count, size - pos)) <==>
            ReadFits(pos, size, count)
    ensures !ReadFits(pos, size, count) ==> ReadCount(pos, size, count) == count > size - pos
  {
    SumMod(pos, count, U64);
  }

  /** A sum of two numbers below m, taken modulo m. */
  lemma SumMod(a: nat, b: nat, m: nat)
    requires a < m && b < m
    ensures (a + b) % m == if a + b < m then a + b else a + b - m
  {
    if a + b >= m { DivIs(a + b, m, 1, a + b - m); } else { DivIs(a + b, m, 0, a + b); }
  }

  predicate CanRead(fs: Fs, h: nat, count: nat) {
    h in fs.handles && var Handle(d, p) := fs.handles[h]; d < |fs.table| && ReadFits(p, fs.table[d].size, count)
  }

  /** ramfs_read: the bytes, and the handle moved past them. */
  function Read(fs: Fs, h: nat, count: nat): (Fs, seq<byte>)
    requires Inv(fs) && CanRead(fs, h, count)
  {
    var Handle(d, p) := fs.handles[h];
    var n, k := fs.table[d], ReadCount(p, fs.table[d].size, count);
    assert HandleOk(fs.table, fs.handles[h]) && NodeOk(fs.table, d);
    ReadCountFits(p, n.size, count);
    (fs.(handles := fs.handles[h := Handle(d, p + k)]), n.buffer[p..p + k])
  }

  lemma ReadCountFits(pos: nat, size: nat, count: nat)
    requires pos <= size <= MAX_SIZE && ReadFits(pos, size, count)
    ensures ReadCount(pos, size, count) == Min(count, size - pos)
  {
    if pos < size { ReadCountExactly(pos, size, count); }
  }

  /** Reads are slices of the file's contents. */
  lemma ReadTheorem(fs: Fs, h: nat, count: nat)
    requires Inv(fs) && CanRead(fs, h, count)
    ensures var (fs', r) := Read(fs, h, count);
            && var Handle(d, p) := fs.handles[h];
            && NodeOk(fs.table, d)
            && var c := Content(fs.table[d]);
            && Inv(fs') && fs'.table == fs.table && p <= |c| && r == c[p..p + Min(count, |c| - p)]
            && fs'.handles == fs.handles[h := Handle(d, p + |r|)]
  {
    var Handle(d, p) := fs.handles[h];
    var n := fs.table[d];
    assert HandleOk(fs.table, fs.handles[h]) && NodeOk(fs.table, d);
    ReadCountFits(p, n.size, count);
    SliceOfSlice(n.buffer, n.size, p, p + ReadCount(p, n.size, count));
    var fs' := Read(fs, h, count).0;
    forall g | g in fs'.handles ensures HandleOk(fs'.table, fs'.handles[g]) {
      if g != h { assert HandleOk(fs.table, fs.handles[g]); }
    }
  }

  lemma SliceOfSlice(b: seq<byte>, n: nat, i: nat, j: nat)
    requires i <= j <= n <= |b|
    ensures b[..n][i..j] == b[i..j]
  {}

  /** The length a write would give the file, as ramfs_write computes it: in 64, then in 32 bits. */
  function NewSize(pos: nat, count: nat): nat { (pos + count) % U64 % U32 }

  /** The length fits in 32 bits, or is still too large when cut off to them. */
  predicate WriteFits(pos: nat, count: nat) { pos + count < U32 || (pos + count) % U32 > MAX_SIZE }

  /** The test on the new length rejects what is too large, and nothing else, exactly when the length fits;
      otherwise a write that is too large is accepted. */
  lemma WriteTestExactly(pos: nat, count: nat)
    ensures (NewSize(pos, count) > MAX_SIZE <==> pos + count > MAX_SIZE) <==> WriteFits(pos, count)
    ensures !WriteFits(pos, count) ==> NewSize(pos, count) <= MAX_SIZE < pos + count
  {
    NewSizeIs(pos + count);
    if pos + count < U32 { DivIs(pos + count, U32, 0, pos + count); }
  }

  lemma AcceptedSize(pos: nat, count: nat)
    requires WriteFits(pos, count)
    ensures NewSize(pos, count) <= MAX_SIZE ==> NewSize(pos, count) == pos + count
  {
    NewSizeIs(pos + count);
    if pos + count < U32 { DivIs(pos + count, U32, 0, pos + count); }
  }

  lemma NewSizeIs(x: nat)
    ensures x % U64 % U32 == x % U32
  {
    var q, r := x / U64, x % U64;
    assert x == q * U64 + r;
    assert U64 == U32 * U32;
    assert x == (q * U32 + r / U32) * U32 + r % U32;
    DivIs(x, U32, q * U32 + r / U32, r % U32);
  }

  /** The sizes at which the two tests fail: at position 1 of four bytes a read of 2^64 - 1 bytes copies all of
      them, and a write of 2^32 bytes at position 0 is accepted. */
  lemma WrapInputs()
    ensures ReadCount(1, 4, U64 - 1) == U64 - 1 && !ReadFits(1, 4, U64 - 1)
    ensures NewSize(0, U32) == 0 && !WriteFits(0, U32)
  {
    ReadCountExactly(1, 4, U64 - 1);
    WriteTestExactly(0, U32);
    DivIs(U32, U32, 1, 0);
    NewSizeIs(U32);
  }

  predicate CanWrite(fs: Fs, h: nat, data: seq<byte>) {
    h in fs.handles && WriteFits(fs.handles[h].pos, |data|)
  }

  /** ramfs_write */
  function Write(fs: Fs, h: nat, data: seq<byte>): (Fs, bool)
    requires Inv(fs) && CanWrite(fs, h, data)
  {
    var Handle(d, p) := fs.handles[h];
    var n, end := fs.table[d], p + |data|;
    WriteTestExactly(p, |data|);
    if NewSize(p, |data|) > MAX_SIZE then (fs, false)
    else
      assert NodeOk(fs.table, d);
      var buffer := n.buffer[..p] + data + n.buffer[end..];
      var n' := if end > n.size then n.(buffer := buffer, size := end, inodeSize := end) else n.(buffer := buffer);
      (Fs(fs.table[d := n'], fs.handles[h := Handle(d, end)]), true)
  }

  /** A write fails exactly when the file would grow past 4096 bytes, and then changes nothing; otherwise it
      overwrites or extends the contents of its own file and of no other, and leaves all names alone. */
  lemma WriteTheorem(fs: Fs, h: nat, data: seq<byte>)
    requires Inv(fs) && CanWrite(fs, h, data)
    ensures var (fs', ok) := Write(fs, h, data);
            && var d, p := fs.handles[h].node, fs.handles[h].pos;
            && NodeOk(fs.table, d) && |fs'.table| == |fs.table| && Inv(fs')
            && (ok <==> p + |data| <= MAX_SIZE) && (!ok ==> fs' == fs)
            && (ok ==>
                  && NodeOk(fs'.table, d) && p <= |Content(fs.table[d])|
                  && Content(fs'.table[d]) == Overwrite(Content(fs.table[d]), p, data)
                  && SameEntry(fs'.table[d], fs.table[d])
                  && (forall i | 0 <= i < |fs.table| && i != d :: fs'.table[i] == fs.table[i])
                  && fs'.handles == fs.handles[h := Handle(d, p + |data|)])
  {
    var (fs', ok) := Write(fs, h, data);
    var d, p := fs.handles[h].node, fs.handles[h].pos;
    assert HandleOk(fs.table, fs.handles[h]) && NodeOk(fs.table, d);
    WriteTestExactly(p, |data|);
    if ok {
      WrittenBuffer(fs.table[d], p, data);
      forall i | 0 <= i < |fs'.table| ensures NodeOk(fs'.table, i) { assert NodeOk(fs.table, i); }
      forall g | g in fs'.handles ensures HandleOk(fs'.table, fs'.handles[g]) {
        if g != h { assert HandleOk(fs.table, fs.handles[g]); }
      }
    }
  }

  lemma WrittenBuffer(n: Node, p: nat, data: seq<byte>)
    requires |n.buffer| == MAX_SIZE && p <= n.size <= MAX_SIZE && p + |data| <= MAX_SIZE
    ensures var end := p + |data|;
            var b := n.buffer[..p] + data + n.buffer[end..];
            && |b| == MAX_SIZE
            && b[..if end > n.size then end else n.size] == Overwrite(n.buffer[..n.size], p, data)
  {}

  /** What one handle writes, another handle on the same file reads back. */
  lemma WriteThenRead(fs: Fs, h: nat, g: nat, data: seq<byte>)
    requires Inv(fs) && h in fs.handles && g in fs.handles && g != h && fs.handles[g] == fs.handles[h]
    requires fs.handles[h].pos + |data| <= MAX_SIZE
    ensures var (fs', ok) := Write(fs, h, data);
            ok && Inv(fs') && CanRead(fs', g, |data|) && Read(fs', g, |data|).1 == data
  {
    WriteTheorem(fs, h, data);
    var fs' := Write(fs, h, data).0;
    ReadTheorem(fs', g, |data|);
  }

  // ----- open and runs

  /** vfs_open without O_TRUNC; memory says whether a handle can be allocated, buffer is the unused data
      buffer of the next slot.  O_APPEND goes by the inode's size. */
  function Open(fs: Fs, h: nat, path: seq<char>, create: bool, append: bool, memory: bool, buffer: seq<byte>): Fs
    requires TreeOk(fs.table) && |buffer| == MAX_SIZE
  {
    var made := if Lookup(fs.table, path).None? && create then Mkdir(fs.table, path, buffer).0 else fs.table;
    MkdirKeeps(fs.table, path, buffer);
    match Lookup(made, path)
    case None => fs.(table := made)
    case Some(d) =>
      if !memory then fs.(table := made)
      else Fs(made, fs.handles[h := Handle(d, if append then made[d].inodeSize else 0)])
  }

  /** O_TRUNC clears the size in the inode; the size in the file stays, because the call that would clear it looks
      for a mount point of the empty path. */
  function ClearInode(t: Table, d: nat): Table
    requires d < |t|
  {
    t[d := t[d].(inodeSize := 0)]
  }

  /** vfs_open with O_TRUNC. */
  function OpenTrunc(fs: Fs, h: nat, path: seq<char>, create: bool, append: bool, memory: bool, buffer: seq<byte>): Fs
    requires TreeOk(fs.table) && |buffer| == MAX_SIZE && h !in fs.handles
  {
    var fs' := Open(fs, h, path, create, append, memory, buffer);
    if h in fs'.handles && fs'.handles[h].node < |fs'.table|
    then fs'.(table := ClearInode(fs'.table, fs'.handles[h].node)) else fs'
  }

  /** Opening what exists only adds a handle. */
  lemma OpenFound(fs: Fs, h: nat, path: seq<char>, create: bool, append: bool, buffer: seq<byte>)
    requires Inv(fs) && |buffer| == MAX_SIZE && Lookup(fs.table, path).Some?
    ensures var d := Lookup(fs.table, path).value;
            var fs' := fs.(handles := fs.handles[h := Handle(d, if append then fs.table[d].inodeSize else 0)]);
            NodeOk(fs.table, d) && Open(fs, h, path, create, append, true, buffer) == fs' && Inv(fs')
  {
    var d := Lookup(fs.table, path).value;
    assert NodeOk(fs.table, d);
    HandleAdded(fs, h, Handle(d, if append then fs.table[d].inodeSize else 0));
  }

  /** Opening a file and reading gives its contents from the beginning, all of them if enough is asked for. */
  lemma OpenThenRead(fs: Fs, h: nat, path: seq<char>, create: bool, count: nat, buffer: seq<byte>)
    requires Inv(fs) && |buffer| == MAX_SIZE && Lookup(fs.table, path).Some? && count < U64
    ensures var d, fs' := Lookup(fs.table, path).value, Open(fs, h, path, create, false, true, buffer);
            && NodeOk(fs.table, d) && Inv(fs') && CanRead(fs', h, count) && fs'.table == fs.table
            && var c := Content(fs.table[d]);
            && Read(fs', h, count).1 == c[..Min(count, |c|)]
            && (count >= MAX_SIZE ==> Read(fs', h, count).1 == c)
  {
    OpenFound(fs, h, path, create, false, buffer);
    ReadTheorem(Open(fs, h, path, create, false, true, buffer), h, count);
  }

  /** Opening with O_APPEND and writing, as long as 4096 bytes hold it: the data goes to where the inode says the
      file ends.  It is added to the end exactly when that is the size of the file, or there is no data.  The path
      still leads to the file. */
  lemma OpenThenAppend(fs: Fs, h: nat, path: seq<char>, create: bool, data: seq<byte>, buffer: seq<byte>)
    requires Inv(fs) && |buffer| == MAX_SIZE && Lookup(fs.table, path).Some?
    requires WriteFits(fs.table[Lookup(fs.table, path).value].inodeSize, |data|)
    ensures var d, fs1 := Lookup(fs.table, path).value, Open(fs, h, path, create, true, true, buffer);
            && NodeOk(fs.table, d) && Inv(fs1) && CanWrite(fs1, h, data)
            && var (n, c, (fs2, ok)) := (fs.table[d], Content(fs.table[d]), Write(fs1, h, data));
            && Inv(fs2) && Lookup(fs2.table, path) == Some(d) && NodeOk(fs2.table, d)
            && (ok <==> n.inodeSize + |data| <= MAX_SIZE)
            && Content(fs2.table[d]) == (if ok then Overwrite(c, n.inodeSize, data) else c)
            && (ok ==> (Content(fs2.table[d]) == c + data <==> n.inodeSize == n.size || data == []))
  {
    var d, fs1 := Lookup(fs.table, path).value, Open(fs, h, path, create, true, true, buffer);
    OpenFound(fs, h, path, create, true, buffer);
    WriteTheorem(fs1, h, data);
    WriteKeepsPaths(fs1, h, data);
    AppendsExactly(Content(fs.table[d]), fs.table[d].inodeSize, data);
  }

  lemma AppendsExactly(c: seq<byte>, pos: nat, data: seq<byte>)
    requires pos <= |c|
    ensures Overwrite(c, pos, data) == c + data <==> pos == |c| || data == []
  {
    assert data == [] ==> c[..pos] + c[pos..] == c;
  }

  lemma WriteKeepsPaths(fs: Fs, h: nat, data: seq<byte>)
    requires Inv(fs) && CanWrite(fs, h, data)
    ensures var fs' := Write(fs, h, data).0;
            && Inv(fs') && |fs'.table| == |fs.table| && (forall i | 0 <= i < |fs'.table| :: NodeOk(fs'.table, i))
            && forall p | Lookup(fs.table, p).Some? :: Lookup(fs'.table, p) == Lookup(fs.table, p)
  {
    WriteTheorem(fs, h, data);
    var fs' := Write(fs, h, data).0;
    forall i | 0 <= i < |fs.table| ensures SameEntry(fs.table[i], fs'.table[i]) {}
    LookupsKept(fs.table, fs'.table);
  }

  /** Opening a path that does not exist, with O_CREAT, when the entry can be made: the call gives a handle on a
      new empty file exactly when vfs_mkdir's path would lead to it; all other files are as they were. */
  lemma OpenCreates(fs: Fs, h: nat, path: seq<char>, append: bool, buffer: seq<byte>)
    requires Inv(fs) && |buffer| == MAX_SIZE && h !in fs.handles
    requires Lookup(fs.table, path).None? && CanMkdir(fs.table, path)
    ensures var fs', n := Open(fs, h, path, true, append, true, buffer), |fs.table|;
            && fs.table < fs'.table && |fs'.table| == n + 1 && fs'.table[n].size == 0 && TreeOk(fs'.table)
            && (Plain(LastPart(path)) && ParentHolds(fs.table, path) <==>
                  Lookup(fs'.table, path) == Some(n) && fs'.handles == fs.handles[h := Handle(n, 0)])
  {
    MkdirResolves(fs.table, path, buffer);
  }

  datatype Event =
    | DoMkdir(path: seq<char>, buffer: seq<byte>)
    | DoOpen(h: nat, path: seq<char>, create: bool, append: bool, memory: bool, buffer: seq<byte>)
    | DoTrunc(h: nat, path: seq<char>, create: bool, append: bool, memory: bool, buffer: seq<byte>)
    | DoRead(h: nat, count: nat) | DoWrite(h: nat, data: seq<byte>) | DoClose(h: nat)

  predicate Enabled(fs: Fs, e: Event) {
    match e
    case DoMkdir(_, buffer) => |buffer| == MAX_SIZE
    case DoOpen(h, _, _, _, _, buffer) => h !in fs.handles && |buffer| == MAX_SIZE
    case DoTrunc(h, _, _, _, _, buffer) => h !in fs.handles && |buffer| == MAX_SIZE
    case DoRead(h, count) => CanRead(fs, h, count)
    case DoWrite(h, data) => CanWrite(fs, h, data)
    case DoClose(h) => h in fs.handles
  }

  function Step(fs: Fs, e: Event): Fs
    requires Inv(fs) && Enabled(fs, e)
  {
    match e
    case DoMkdir(path, buffer) => fs.(table := Mkdir(fs.table, path, buffer).0)
    case DoOpen(h, path, create, append, memory, buffer) => Open(fs, h, path, create, append, memory, buffer)
    case DoTrunc(h, path, create, append, memory, buffer) => OpenTrunc(fs, h, path, create, append, memory, buffer)
    case DoRead(h, count) => Read(fs, h, count).0
    case DoWrite(h, data) => Write(fs, h, data).0
    case DoClose(h) => fs.(handles := fs.handles - {h})
  }

  /** Making a node keeps the invariant and all contents. */
  lemma MkdirInv(fs: Fs, path: seq<char>, buffer: seq<byte>)
    requires Inv(fs) && |buffer| == MAX_SIZE
    ensures Inv(fs.(table := Mkdir(fs.table, path, buffer).0))
    ensures fs.table <= Mkdir(fs.table, path, buffer).0
  {
    var t' := Mkdir(fs.table, path, buffer).0;
    MkdirKeeps(fs.table, path, buffer);
    forall h | h in fs.handles ensures HandleOk(t', fs.handles[h]) { assert HandleOk(fs.table, fs.handles[h]); }
  }

  lemma StepInv(fs: Fs, e: Event)
    requires Inv(fs) && Enabled(fs, e)
    ensures Inv(Step(fs, e))
  {
    match e
    case DoMkdir(path, buffer) => MkdirInv(fs, path, buffer);
    case DoOpen(h, path, create, append, memory, buffer) => OpenInv(fs, h, path, create, append, memory, buffer);
    case DoTrunc(h, path, create, append, memory, buffer) => TruncInv(fs, h, path, create, append, memory, buffer);
    case DoRead(h, count) => ReadTheorem(fs, h, count);
    case DoWrite(h, data) => WriteTheorem(fs, h, data);
    case DoClose(h) =>
  }

  lemma OpenInv(fs: Fs, h: nat, path: seq<char>, create: bool, append: bool, memory: bool, buffer: seq<byte>)
    requires Inv(fs) && |buffer| == MAX_SIZE
    ensures Inv(Open(fs, h, path, create, append, memory, buffer))
  {
    var fs' := if Lookup(fs.table, path).None? && create then fs.(table := Mkdir(fs.table, path, buffer).0) else fs;
    if Lookup(fs.table, path).None? && create { MkdirInv(fs, path, buffer); }
    assert Inv(fs');
    match Lookup(fs'.table, path)
    case None =>
    case Some(d) =>
      assert NodeOk(fs'.table, d);
      HandleAdded(fs', h, Handle(d, if append then fs'.table[d].inodeSize else 0));
  }

  /** O_TRUNC changes no name, no place and no contents. */
  lemma ClearInodeKeeps(t: Table, d: nat)
    requires TreeOk(t) && d < |t|
    ensures var t' := ClearInode(t, d);
            && TreeOk(t') && |t'| == |t| && Extends(t, t')
            && (forall i | 0 <= i < |t| :: NodeOk(t, i) && NodeOk(t', i) && Content(t'[i]) == Content(t[i]))
            && (forall p | Lookup(t, p).Some? :: Lookup(t', p) == Lookup(t, p))
  {
    var t' := ClearInode(t, d);
    forall i | 0 <= i < |t| ensures NodeOk(t', i) && NodeOk(t, i) { assert NodeOk(t, i); }
    forall i | 0 <= i < |t| ensures SameEntry(t[i], t'[i]) {}
    LookupsKept(t, t');
  }

  lemma TruncInv(fs: Fs, h: nat, path: seq<char>, create: bool, append: bool, memory: bool, buffer: seq<byte>)
    requires Inv(fs) && |buffer| == MAX_SIZE && h !in fs.handles
    ensures Inv(OpenTrunc(fs, h, path, create, append, memory, buffer))
  {
    var fs1 := Open(fs, h, path, create, append, memory, buffer);
    OpenInv(fs, h, path, create, append, memory, buffer);
    if h in fs1.handles {
      assert HandleOk(fs1.table, fs1.handles[h]);
      var t' := ClearInode(fs1.table, fs1.handles[h].node);
      ClearInodeKeeps(fs1.table, fs1.handles[h].node);
      forall g | g in fs1.handles ensures HandleOk(t', fs1.handles[g]) { assert HandleOk(fs1.table, fs1.handles[g]); }
    }
  }

  lemma HandleAdded(fs: Fs, h: nat, handle: Handle)
    requires Inv(fs) && HandleOk(fs.table, handle)
    ensures Inv(fs.(handles := fs.handles[h := handle]))
  {}

  ghost predicate Reaches(fs: Fs, es: seq<Event>, fs': Fs)
    requires Inv(fs)
    decreases |es|
  {
    if es == [] then fs' == fs
    else Enabled(fs, es[0]) && (StepInv(fs, es[0]); Reaches(Step(fs, es[0]), es[1..], fs'))
  }

  /** ramfs_mount */
  function Mounted(buffer: seq<byte>): Fs { Fs([Node("/", None, 0, buffer, 0)], map[]) }

  /** Over any interleaving of operations on any handles the table is a tree, no handle is past the end of its
      file, and a path that leads to a node goes on leading there. */
  lemma {:induction false} RunTheorem(fs: Fs, es: seq<Event>, fs': Fs, path: seq<char>)
    requires Inv(fs) && Reaches(fs, es, fs')
    ensures Inv(fs') && |fs.table| <= |fs'.table|
    ensures Lookup(fs.table, path).Some? ==> Lookup(fs'.table, path) == Lookup(fs.table, path)
    decreases |es|
  {
    if es != [] {
      StepInv(fs, es[0]);
      StepLookup(fs, es[0], path);
      RunTheorem(Step(fs, es[0]), es[1..], fs', path);
    }
  }

  lemma StepLookup(fs: Fs, e: Event, path: seq<char>)
    requires Inv(fs) && Enabled(fs, e)
    ensures var fs' := Step(fs, e);
            && Inv(fs') && |fs.table| <= |fs'.table|
            && (Lookup(fs.table, path).Some? ==> Lookup(fs'.table, path) == Lookup(fs.table, path))
  {
    StepInv(fs, e);
    var fs' := Step(fs, e);
    match e
    case DoMkdir(p, buffer) => MkdirKeeps(fs.table, p, buffer);
    case DoOpen(h, p, create, append, memory, buffer) => MkdirKeeps(fs.table, p, buffer);
    case DoTrunc(h, p, create, append, memory, buffer) =>
      MkdirKeeps(fs.table, p, buffer);
      OpenInv(fs, h, p, create, append, memory, buffer);
      TruncLookup(Open(fs, h, p, create, append, memory, buffer), h, path);
    case DoRead(h, count) =>
    case DoWrite(h, data) =>
      WriteTheorem(fs, h, data);
      forall i | 0 <= i < |fs.table| ensures SameEntry(fs.table[i], fs'.table[i]) {}
      LookupsKept(fs.table, fs'.table);
    case DoClose(h) =>
  }

  lemma TruncLookup(fs: Fs, h: nat, path: seq<char>)
    requires Inv(fs)
    ensures h in fs.handles ==>
              && fs.handles[h].node < |fs.table|
              && var t' := ClearInode(fs.table, fs.handles[h].node);
              TreeOk(t') && (Lookup(fs.table, path).Some? ==> Lookup(t', path) == Lookup(fs.table, path))
  {
    if h in fs.handles {
      assert HandleOk(fs.table, fs.handles[h]);
      ClearInodeKeeps(fs.table, fs.handles[h].node);
    }
  }

  lemma MountedInv(buffer: seq<byte>)
    requires |buffer| == MAX_SIZE
    ensures Inv(Mounted(buffer))
  {
    assert NodeOk(Mounted(buffer).table, 0);
  }

  // ----- unique names

  /** An entry this event would make is not cut off to a name its directory already holds. */
  predicate SafeName(t: Table, e: Event)
    requires TreeOk(t)
  {
    (e.DoMkdir? || e.DoOpen? || e.DoTrunc?) && CanMkdir(t, e.path) ==>
      var (dir, name) := Target(t, e.path);
      |name| <= NAME_MAX || FindFile(t, dir.value, Truncate(name), 0).None?
  }

  /** Names stay unique in a step whose new name, if it makes one, is safe. */
  lemma StepUnique(fs: Fs, e: Event)
    requires Inv(fs) && Enabled(fs, e) && Unique(fs.table) && SafeName(fs.table, e)
    ensures Unique(Step(fs, e).table)
  {
    match e
    case DoMkdir(path, buffer) => MkdirUnique(fs.table, path, buffer);
    case DoOpen(h, path, create, append, memory, buffer) => MkdirUnique(fs.table, path, buffer);
    case DoTrunc(h, path, create, append, memory, buffer) =>
      MkdirUnique(fs.table, path, buffer);
      TruncUnique(Open(fs, h, path, create, append, memory, buffer), h);
    case DoRead(h, count) =>
    case DoWrite(h, data) =>
      WriteTheorem(fs, h, data);
      SameNamesUnique(fs.table, Step(fs, e).table);
    case DoClose(h) =>
  }

  lemma TruncUnique(fs: Fs, h: nat)
    requires Unique(fs.table)
    ensures h in fs.handles && fs.handles[h].node < |fs.table| ==> Unique(ClearInode(fs.table, fs.handles[h].node))
  {
    if h in fs.handles && fs.handles[h].node < |fs.table| {
      SameNamesUnique(fs.table, ClearInode(fs.table, fs.handles[h].node));
    }
  }

  lemma SameNamesUnique(t: Table, t': Table)
    requires Unique(t) && |t'| == |t| && forall i | 0 <= i < |t| :: SameEntry(t'[i], t[i])
    ensures Unique(t')
  {
    forall i, j | 0 <= i < j < |t'| ensures !SameEntry(t'[i], t'[j]) {
      assert !SameEntry(t[i], t[j]) && SameEntry(t'[i], t[i]) && SameEntry(t'[j], t[j]);
    }
  }

  lemma MkdirUnique(t: Table, path: seq<char>, buffer: seq<byte>)
    requires TreeOk(t) && Unique(t) && SafeName(t, DoMkdir(path, buffer))
    ensures Unique(Mkdir(t, path, buffer).0)
  {
    if CanMkdir(t, path) { MakeUniqueExactly(t, Target(t, path).0.value, Target(t, path).1, buffer); }
  }

  /** Each step of the run is safe in this sense. */
  ghost predicate SafeRun(fs: Fs, es: seq<Event>)
    requires Inv(fs)
    decreases |es|
  {
    es != [] ==>
      Enabled(fs, es[0]) && SafeName(fs.table, es[0]) && (StepInv(fs, es[0]); SafeRun(Step(fs, es[0]), es[1..]))
  }

  /** Names are unique throughout such a run. */
  lemma {:induction false} RunUnique(fs: Fs, es: seq<Event>, fs': Fs)
    requires Inv(fs) && Reaches(fs, es, fs') && Unique(fs.table) && SafeRun(fs, es)
    ensures Unique(fs'.table)
    decreases |es|
  {
    if es != [] {
      StepInv(fs, es[0]);
      StepUnique(fs, es[0]);
      RunUnique(Step(fs, es[0]), es[1..], fs');
    }
  }

  // ----- O_TRUNC

  /** Opening an existing file with O_TRUNC leaves all contents as they are: the file is empty afterwards exactly
      when it was before. */
  lemma TruncExactly(fs: Fs, h: nat, path: seq<char>, create: bool, append: bool, buffer: seq<byte>)
    requires Inv(fs) && |buffer| == MAX_SIZE && h !in fs.handles && Lookup(fs.table, path).Some?
    ensures var d, fs' := Lookup(fs.table, path).value, OpenTrunc(fs, h, path, create, append, true, buffer);
            && Inv(fs') && h in fs'.handles && |fs'.table| == |fs.table| && Lookup(fs'.table, path) == Some(d)
            && (forall i | 0 <= i < |fs.table| ::
                  NodeOk(fs.table, i) && NodeOk(fs'.table, i) && Content(fs'.table[i]) == Content(fs.table[i]))
            && fs'.table[d].inodeSize == 0 && (Content(fs'.table[d]) == [] <==> Content(fs.table[d]) == [])
  {
    OpenFound(fs, h, path, create, append, buffer);
    TruncInv(fs, h, path, create, append, true, buffer);
    ClearInodeKeeps(fs.table, Lookup(fs.table, path).value);
  }

  /** After O_TRUNC an append overwrites the file from its beginning. */
  lemma TruncThenAppend(fs: Fs, h: nat, g: nat, path: seq<char>, data: seq<byte>, buffer: seq<byte>)
    requires Inv(fs) && |buffer| == MAX_SIZE && h !in fs.handles && g !in fs.handles && g != h
    requires Lookup(fs.table, path).Some? && |data| <= MAX_SIZE
    ensures var d, fs1 := Lookup(fs.table, path).value, OpenTrunc(fs, h, path, false, false, true, buffer);
            && Inv(fs1) && NodeOk(fs.table, d)
            && var fs2 := Open(fs1, g, path, false, true, true, buffer);
            && Inv(fs2) && CanWrite(fs2, g, data)
            && var (fs3, ok) := Write(fs2, g, data);
            && ok && Inv(fs3) && d < |fs3.table| && NodeOk(fs3.table, d)
            && Content(fs3.table[d]) == Overwrite(Content(fs.table[d]), 0, data)
  {
    TruncExactly(fs, h, path, false, false, buffer);
    OpenThenAppend(OpenTrunc(fs, h, path, false, false, true, buffer), g, path, false, data, buffer);
  }

  /** The sizes in files and inodes agree. */
  ghost predicate Sized(t: Table) { forall i {:trigger t[i].inodeSize} | 0 <= i < |t| :: t[i].inodeSize == t[i].size }

  /** A step keeps them alike unless it opens a file that is not empty with O_TRUNC. */
  lemma StepSizedExactly(fs: Fs, e: Event)
    requires Inv(fs) && Enabled(fs, e) && Sized(fs.table)
    ensures var fs' := Step(fs, e);
            Sized(fs'.table) <==> !(e.DoTrunc? && e.h in fs'.handles && fs'.handles[e.h].node < |fs'.table|
                                    && fs'.table[fs'.handles[e.h].node].size > 0)
  {
    match e
    case DoMkdir(path, buffer) => MkdirSized(fs.table, path, buffer);
    case DoOpen(h, path, create, append, memory, buffer) => MkdirSized(fs.table, path, buffer);
    case DoTrunc(h, path, create, append, memory, buffer) =>
      MkdirSized(fs.table, path, buffer);
      OpenInv(fs, h, path, create, append, memory, buffer);
      TruncSizedExactly(Open(fs, h, path, create, append, memory, buffer), h);
    case DoRead(h, count) =>
    case DoWrite(h, data) => WriteTheorem(fs, h, data);
    case DoClose(h) =>
  }

  lemma MkdirSized(t: Table, path: seq<char>, buffer: seq<byte>)
    requires TreeOk(t) && Sized(t)
    ensures Sized(Mkdir(t, path, buffer).0)
  {}

  lemma TruncSizedExactly(fs: Fs, h: nat)
    requires Inv(fs) && Sized(fs.table)
    ensures h in fs.handles ==>
              && fs.handles[h].node < |fs.table|
              && (Sized(ClearInode(fs.table, fs.handles[h].node)) <==> fs.table[fs.handles[h].node].size == 0)
  {
    if h in fs.handles {
      assert HandleOk(fs.table, fs.handles[h]);
      ClearedSizedExactly(fs.table, fs.handles[h].node);
    }
  }

  lemma ClearedSizedExactly(t: Table, d: nat)
    requires Sized(t) && d < |t|
    ensures Sized(ClearInode(t, d)) <==> t[d].size == 0
  {
    assert ClearInode(t, d)[d].inodeSize == 0;
  }

  /** Over a run without O_TRUNC they stay alike, so that O_APPEND finds the end of the file. */
  lemma {:induction false} RunSized(fs: Fs, es: seq<Event>, fs': Fs)
    requires Inv(fs) && Reaches(fs, es, fs') && Sized(fs.table) && forall e | e in es :: !e.DoTrunc?
    ensures Sized(fs'.table)
    decreases |es|
  {
    if es != [] {
      StepInv(fs, es[0]);
      StepSizedExactly(fs, es[0]);
      RunSized(Step(fs, es[0]), es[1..], fs');
    }
  }

  // ----- paths that do not lead to the node made for them

  /** vfs_mkdir of "/" succeeds on a fresh file system: it makes an entry with an empty name, and "/" still
      leads to the root. */
  lemma RootMade(buffer: seq<byte>)
    requires |buffer| == MAX_SIZE
    ensures var t := Mounted(buffer).table;
            TreeOk(t) && Mkdir(t, "/", buffer) == (t + [Node([], Some(ROOT), 0, buffer, 0)], true)
    ensures var t' := Mkdir(Mounted(buffer).table, "/", buffer).0; TreeOk(t') && Lookup(t', "/") == Some(ROOT)
  {
    var t := Mounted(buffer).table;
    MountedInv(buffer);
    assert LastSlash("/", 1) == 0;
    assert FindFile(t, ROOT, [], 0).None?;
    MkdirKeeps(t, "/", buffer);
    assert "/"[1..] == [];
    NoComponents();
  }

  /** A new entry in the directory its path names. */
  lemma MakeIn(t: Table, parent: seq<char>, d: nat, name: Name, buffer: seq<byte>)
    requires TreeOk(t) && |buffer| == MAX_SIZE && |t| < MAX_FILES && |parent| <= COMPONENT_MAX && Plain(name)
             && NoSlash(name)
    requires if parent == [] then d == ROOT else Lookup(t, parent) == Some(d)
    requires FindFile(t, d, name, 0).None?
    ensures var path := parent + ['/'] + name;
            && LastSlash(path, |path|) == |parent| && Mkdir(t, path, buffer) == (t + [NewNode(name, d, buffer)], true)
            && TreeOk(t + [NewNode(name, d, buffer)]) && Lookup(t + [NewNode(name, d, buffer)], path) == Some(|t|)
  {
    var path := parent + ['/'] + name;
    TargetIs(t, parent, name);
    assert Mkdir(t, path, buffer) == (t + [NewNode(name, d, buffer)], true);
    MkdirResolves(t, path, buffer);
    ParentHoldsExactly(t, path, buffer);
  }

  /** How a path is taken apart that names an entry of a parent. */
  lemma TargetIs(t: Table, parent: seq<char>, name: Name)
    requires TreeOk(t) && NoSlash(name) && |name| <= COMPONENT_MAX && (parent == [] || parent[0] == '/')
    ensures var path := parent + ['/'] + name;
            && path != [] && path[0] == '/' && LastSlash(path, |path|) == |parent|
            && path[..|parent|] == parent && LastPart(path) == name
            && Target(t, path) == (if parent == [] then Some(ROOT) else Lookup(t, Cut(parent)), name)
  {
    var path := parent + ['/'] + name;
    assert path[0] == if parent == [] then '/' else parent[0];
    LastSlashIs(path, |path|, |parent|);
    assert path[..|parent|] == parent && path[|parent| + 1..] == name;
  }

  /** Whenever the buffer cuts the parent's path off to the path of another directory, that one receives the
      entry and the path does not lead to it. */
  lemma CutElsewhere(t: Table, parent: seq<char>, d: nat, e: nat, name: Name, buffer: seq<byte>)
    requires TreeOk(t) && |buffer| == MAX_SIZE && |t| < MAX_FILES && Plain(name) && NoSlash(name) && parent != []
    requires Lookup(t, parent) == Some(e) && Lookup(t, Cut(parent)) == Some(d) && d != e
             && FindFile(t, d, name, 0).None?
    ensures var path, t' := parent + ['/'] + name, t + [NewNode(name, d, buffer)];
            Mkdir(t, path, buffer) == (t', true) && TreeOk(t') && Lookup(t', path) != Some(|t|)
  {
    var path := parent + ['/'] + name;
    TargetIs(t, parent, name);
    assert Mkdir(t, path, buffer) == (t + [NewNode(name, d, buffer)], true);
    MkdirResolves(t, path, buffer);
    ParentHoldsExactly(t, path, buffer);
  }

  lemma {:induction false} LastSlashIs(path: seq<char>, i: nat, k: nat)
    requires k < i <= |path| && path[k] == '/' && forall j | k < j < i :: path[j] != '/'
    ensures LastSlash(path, i) == k
  {
    if k < i - 1 { LastSlashIs(path, i - 1, k); }
  }

  /** The newest node has no entries. */
  lemma Childless(t: Table, name: Name)
    requires TreeOk(t)
    ensures FindFile(t, |t| - 1, name, 0).None?
  {
    forall i | 0 <= i < |t| ensures t[i].parent != Some(|t| - 1) { assert NodeOk(t, i); }
  }

  function Fill(c: char, n: nat): Name { seq(n, _ => c) }

  /** Directories nested in each other whose path of 255 characters fits the buffer exactly. */
  function Nest(i: nat): Name {
    if i == 0 then Fill('a', 63) else if i == 1 then Fill('b', 63) else if i == 2 then Fill('c', 63)
    else if i == 3 then Fill('d', 62) else "e"
  }

  function NestPath(i: nat): seq<char> { if i == 0 then [] else NestPath(i - 1) + ['/'] + Nest(i - 1) }

  function NestTable(i: nat, buffer: seq<byte>): Table {
    if i == 0 then Mounted(buffer).table else NestTable(i - 1, buffer) + [NewNode(Nest(i - 1), i - 1, buffer)]
  }

  lemma NestLength(i: nat)
    requires i <= 5
    ensures |NestPath(i)| == (if i <= 3 then 64 * i else if i == 4 then 255 else 257)
            && (i > 0 ==> NestPath(i)[0] == '/')
  {
    if i > 0 {
      NestLength(i - 1);
      assert NestPath(i)[0] == if i == 1 then '/' else NestPath(i - 1)[0];
    }
  }

  lemma PlainNest(i: nat)
    ensures Plain(Nest(i)) && NoSlash(Nest(i)) && Nest(i) != "x"
  {
    assert Nest(i)[0] != '.';
    assert |Nest(i)| == 1 ==> Nest(i)[0] == 'e';
  }

  /** The directories come about by vfs_mkdir, one in the other, and each path leads to its directory. */
  lemma {:induction false} NestMade(i: nat, buffer: seq<byte>)
    requires i <= 5 && |buffer| == MAX_SIZE
    ensures TreeOk(NestTable(i, buffer)) && |NestTable(i, buffer)| == i + 1
    ensures i > 0 ==> Lookup(NestTable(i, buffer), NestPath(i)) == Some(i)
    ensures i > 0 ==>
              && TreeOk(NestTable(i - 1, buffer))
              && Mkdir(NestTable(i - 1, buffer), NestPath(i), buffer) == (NestTable(i, buffer), true)
  {
    if i == 0 {
      MountedInv(buffer);
    } else {
      NestMade(i - 1, buffer);
      NestStep(i - 1, NestTable(i - 1, buffer), NestPath(i - 1), buffer);
    }
  }

  lemma NestStep(i: nat, t: Table, parent: seq<char>, buffer: seq<byte>)
    requires i < 5 && TreeOk(t) && |t| == i + 1 && |buffer| == MAX_SIZE && parent == NestPath(i)
    requires i > 0 ==> Lookup(t, parent) == Some(i)
    ensures var path, t' := parent + ['/'] + Nest(i), t + [NewNode(Nest(i), i, buffer)];
            Mkdir(t, path, buffer) == (t', true) && TreeOk(t') && Lookup(t', path) == Some(i + 1)
  {
    Childless(t, Nest(i));
    PlainNest(i);
    NestLength(i);
    MakeIn(t, parent, i, Nest(i), buffer);
  }

  /** Five directories deep, the path of the parent is 257 characters long and is cut off to the path of the
      fourth: vfs_mkdir of an entry in the fifth reports success, makes the entry in the fourth, and the path
      does not lead to it. */
  lemma DeepPathLost(buffer: seq<byte>)
    requires |buffer| == MAX_SIZE
    ensures var t, path := NestTable(5, buffer), NestPath(5) + ['/'] + "x";
            && path[0] == '/' && TreeOk(t) && Mkdir(t, path, buffer) == (t + [NewNode("x", 4, buffer)], true)
            && TreeOk(t + [NewNode("x", 4, buffer)]) && Lookup(t + [NewNode("x", 4, buffer)], path) != Some(6)
  {
    NestMade(5, buffer);
    NestCut();
    NestKept(buffer);
    NestFree(5, buffer);
    CutElsewhere(NestTable(5, buffer), NestPath(5), 4, 5, "x", buffer);
  }

  lemma NestCut()
    ensures NestPath(5) != [] && NestPath(5)[0] == '/' && Cut(NestPath(5)) == NestPath(4)
  {
    NestLength(5);
    NestLength(4);
    assert NestPath(5) == NestPath(4) + ['/'] + Nest(4);
  }

  lemma NestKept(buffer: seq<byte>)
    requires |buffer| == MAX_SIZE
    ensures TreeOk(NestTable(5, buffer)) && Lookup(NestTable(5, buffer), NestPath(4)) == Some(4)
  {
    NestMade(4, buffer);
    NestMade(5, buffer);
    MkdirKeeps(NestTable(4, buffer), NestPath(5), buffer);
  }

  lemma NestFree(n: nat, buffer: seq<byte>)
    requires 0 < n <= 5 && |buffer| == MAX_SIZE
    ensures FindFile(NestTable(n, buffer), n - 1, "x", 0).None?
  {
    var t, node := NestTable(n - 1, buffer), NewNode(Nest(n - 1), n - 1, buffer);
    NestTree(n - 1, buffer);
    PlainNest(n - 1);
    OtherName(t, node, "x");
  }

  lemma NestTree(n: nat, buffer: seq<byte>)
    requires n <= 5 && |buffer| == MAX_SIZE
    ensures TreeOk(NestTable(n, buffer)) && |NestTable(n, buffer)| == n + 1
  {
    NestMade(n, buffer);
  }

  /** The last node has no entries, and a new node of another name does not change that for this name. */
  lemma OtherName(t: Table, node: Node, name: Name)
    requires TreeOk(t) && node.name != name
    ensures FindFile(t + [node], |t| - 1, name, 0).None?
  {
    forall i | 0 <= i < |t| ensures (t + [node])[i].parent != Some(|t| - 1) { assert NodeOk(t, i); }
  }

  // ----- a read whose sum wraps

  lemma Continue(fs: Fs, e: Event, es: seq<Event>, fs': Fs)
    requires Inv(fs) && Enabled(fs, e) && Inv(Step(fs, e)) && Reaches(Step(fs, e), es, fs')
    ensures Reaches(fs, [e] + es, fs')
  {
    assert ([e] + es)[0] == e && ([e] + es)[1..] == es;
  }

  /** A fresh file system after the first file has been created and opened. */
  lemma FirstFile(buffer: seq<byte>, name: Name, path: seq<char>)
    requires |buffer| == MAX_SIZE && Plain(name) && NoSlash(name) && path == [] + ['/'] + name
    ensures var fs, t := Mounted(buffer), Mounted(buffer).table + [NewNode(name, ROOT, buffer)];
            && Inv(fs) && Open(fs, 0, path, true, false, true, buffer) == Fs(t, map[0 := Handle(1, 0)])
            && Inv(Fs(t, map[0 := Handle(1, 0)])) && Lookup(t, path) == Some(1)
  {
    var t := Mounted(buffer).table;
    var t' := t + [NewNode(name, ROOT, buffer)];
    MountedInv(buffer);
    MakeIn(t, [], ROOT, name, buffer);
    NotYet(t, t', path);
    OpenInv(Mounted(buffer), 0, path, true, false, true, buffer);
  }

  /** A path that leads to the newest node led nowhere before. */
  lemma NotYet(t: Table, t': Table, path: seq<char>)
    requires TreeOk(t) && TreeOk(t') && |t'| == |t| + 1 && t'[..|t|] == t && Lookup(t', path) == Some(|t|)
    ensures Lookup(t, path).None?
  {
    forall i | 0 <= i < |t| ensures SameEntry(t[i], t'[i]) { assert t'[i] == t'[..|t|][i]; }
    LookupsKept(t, t');
  }

  /** Opening a file of four bytes and reading one of them. */
  lemma ReopenAndRead(fs2: Fs, path: seq<char>, buffer: seq<byte>) returns (fs: Fs)
    requires Inv(fs2) && |buffer| == MAX_SIZE && 1 !in fs2.handles
    requires Lookup(fs2.table, path) == Some(1) && |fs2.table| == 2 && fs2.table[1].size == 4
    ensures Reaches(fs2, [DoOpen(1, path, false, false, true, buffer)] + [DoRead(1, 1)], fs) && Inv(fs)
    ensures fs.table == fs2.table && fs.handles == fs2.handles[1 := Handle(1, 1)]
  {
    OpenFound(fs2, 1, path, false, false, buffer);
    fs := ReadOne(fs2, DoOpen(1, path, false, false, true, buffer), fs2.(handles := fs2.handles[1 := Handle(1, 0)]));
  }

  lemma ReadOne(fs2: Fs, e: Event, fs3: Fs) returns (fs: Fs)
    requires Inv(fs2) && Inv(fs3) && Enabled(fs2, e) && Step(fs2, e) == fs3
    requires |fs3.table| == 2 && fs3.table[1].size == 4 && 1 in fs3.handles && fs3.handles[1] == Handle(1, 0)
    ensures Reaches(fs2, [e] + [DoRead(1, 1)], fs) && Inv(fs)
    ensures fs.table == fs3.table && fs.handles == fs3.handles[1 := Handle(1, 1)]
  {
    ReadTheorem(fs3, 1, 1);
    fs := Read(fs3, 1, 1).0;
    Continue(fs3, DoRead(1, 1), [], fs);
    Continue(fs2, e, [DoRead(1, 1)], fs);
  }

  lemma FirstWrite(fs1: Fs, path: seq<char>, data: seq<byte>)
    requires Inv(fs1) && |fs1.table| == 2 && fs1.table[1].size == 0 && fs1.handles == map[0 := Handle(1, 0)]
    requires |data| == 4 && Lookup(fs1.table, path) == Some(1)
    ensures CanWrite(fs1, 0, data)
    ensures var fs2 := Write(fs1, 0, data).0;
            && Inv(fs2) && |fs2.table| == 2 && fs2.table[1].size == 4 && 1 !in fs2.handles
            && Lookup(fs2.table, path) == Some(1)
  {
    WriteTheorem(fs1, 0, data);
    WriteKeepsPaths(fs1, 0, data);
  }

  /** Four bytes written, the file opened once more and one byte read: a run after which the second handle is at
      position 1, where a read of 2^64 - 1 bytes does not fit. */
  lemma WrapReached(buffer: seq<byte>, name: Name, data: seq<byte>) returns (es: seq<Event>, fs: Fs)
    requires |buffer| == MAX_SIZE && Plain(name) && NoSlash(name) && |data| == 4
    ensures Inv(Mounted(buffer)) && Reaches(Mounted(buffer), es, fs) && Inv(fs)
    ensures 1 in fs.handles && fs.handles[1] == Handle(1, 1) && |fs.table| == 2 && fs.table[1].size == 4
    ensures !CanRead(fs, 1, U64 - 1) && ReadCount(1, fs.table[1].size, U64 - 1) == U64 - 1
  {
    var path := [] + ['/'] + name;
    FirstFile(buffer, name, path);
    var fs1 := Open(Mounted(buffer), 0, path, true, false, true, buffer);
    FirstWrite(fs1, path, data);
    fs := ReopenAndRead(Write(fs1, 0, data).0, path, buffer);
    WrapInputs();
    es := [DoOpen(1, path, false, false, true, buffer)] + [DoRead(1, 1)];
    Continue(fs1, DoWrite(0, data), es, fs);
    es := [DoWrite(0, data)] + es;
    Continue(Mounted(buffer), DoOpen(0, path, true, false, true, buffer), es, fs);
    es := [DoOpen(0, path, true, false, true, buffer)] + es;
  }
}
