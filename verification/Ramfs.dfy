/** ramfs and the VFS calls above it as the kernel runs them: string loops, table scans and in-place updates,
    proved against RamfsSpec. */
module Ramfs {
  import opened Lists
  import opened Paths
  import opened RamfsSpec

  /** ramfs_file_t with the size its inode carries.  data says that the file has been given its buffer. */
  datatype File = File(name: Name, parent: Option<nat>, size: nat, data: bool, capacity: nat, inodeSize: nat)

  /** The node of a slot. */
  function ToNode(f: File, buffer: seq<byte>): Node { Node(f.name, f.parent, f.size, buffer, f.inodeSize) }

  function Lift(files: seq<File>, buffers: seq<seq<byte>>, count: nat): (t: Table)
    requires count <= |files| && count <= |buffers|
    ensures |t| == count && forall i {:trigger t[i]} | 0 <= i < count :: t[i] == ToNode(files[i], buffers[i])
  {
    if count == 0 then [] else Lift(files, buffers, count - 1) + [ToNode(files[count - 1], buffers[count - 1])]
  }

  /** The inode's size is at most the file's; a file without a buffer is empty. */
  predicate FileOk(f: File) {
    f.inodeSize <= f.size && f.capacity == (if f.data then MAX_SIZE else 0) && (!f.data ==> f.size == 0)
  }

  ghost predicate FilesOk(files: seq<File>, buffers: seq<seq<byte>>, count: nat) {
    && |files| == MAX_FILES == |buffers| && 1 <= count <= MAX_FILES
    && (forall i {:trigger FileOk(files[i])} | 0 <= i < count :: FileOk(files[i]))
    && (forall i {:trigger buffers[i]} | 0 <= i < MAX_FILES :: |buffers[i]| == MAX_SIZE)
  }

  /** The comparison loop of ramfs_find_file. */
  method StrEq(a: seq<char>, b: seq<char>) returns (eq: bool)
    ensures eq <==> a == b
  {
    var i := 0;
    while i < |a| && i < |b| && a[i] == b[i]
      invariant i <= |a| && i <= |b| && a[..i] == b[..i]
    {
      i := i + 1;
    }
    eq := i == |a| && i == |b|;
    assert eq ==> a == a[..i] && b == b[..i];
  }

  /** vfs_find_mount: the longest mount point that is a prefix of the path. */
  method FindMount(mounts: seq<seq<char>>, path: seq<char>) returns (best: int)
    ensures -1 <= best < |mounts|
    ensures best >= 0 ==> mounts[best] <= path && mounts[best] != []
    ensures forall i | 0 <= i < |mounts| && mounts[i] <= path && mounts[i] != [] ::
              best >= 0 && |mounts[i]| <= |mounts[best]|
  {
    best := -1;
    var bestLen := 0;
    var i := 0;
    while i < |mounts|
      invariant 0 <= i <= |mounts| && -1 <= best < i && bestLen == (if best >= 0 then |mounts[best]| else 0)
      invariant best >= 0 ==> mounts[best] <= path && mounts[best] != []
      invariant forall j | 0 <= j < i && mounts[j] <= path :: |mounts[j]| <= bestLen
    {
      var len := 0;
      while len < |mounts[i]| && len < |path| && mounts[i][len] == path[len]
        invariant 0 <= len <= |mounts[i]| && len <= |path| && mounts[i][..len] == path[..len]
      {
        len := len + 1;
      }
      assert len == |mounts[i]| ==> mounts[i][..len] == mounts[i];
      if len == |mounts[i]| && len > bestLen { best, bestLen := i, len; }
      i := i + 1;
    }
  }

  /** With ramfs mounted on "/" alone, every absolute path is under a mount point and no other path is. */
  method UnderRoot(path: seq<char>) returns (under: bool)
    ensures under <==> path != [] && path[0] == '/'
  {
    var mount := FindMount(["/"], path);
    under := mount >= 0;
    assert ["/"][0] == "/" && (path != [] && path[0] == '/' <==> "/" <= path);
  }

  method SkipLeading(path: seq<char>) returns (i: nat)
    ensures i == SkipSlashes(path, 0)
  {
    i := 0;
    while i < |path| && path[i] == '/'
      invariant 0 <= i <= |path| && SkipSlashes(path, 0) == SkipSlashes(path, i)
    {
      i := i + 1;
    }
  }

  /** parse_path_component */
  method ParsePathComponent(path: seq<char>) returns (component: Name, rest: seq<char>)
    ensures (component, rest) == Parse(path)
  {
    var start := SkipLeading(path);
    var i := start;
    component := [];
    while i < |path| && path[i] != '/' && |component| < COMPONENT_MAX
      invariant start <= i <= |path| && component == path[start..i] && |component| <= COMPONENT_MAX
      invariant RunEnd(path, start, start + COMPONENT_MAX) == RunEnd(path, i, start + COMPONENT_MAX)
    {
      assert path[start..i + 1] == path[start..i] + [path[i]];
      component := component + [path[i]];
      i := i + 1;
    }
    rest := path[i..];
  }

  /** Copying a string into a 256-byte buffer. */
  method CopyCut(s: seq<char>) returns (r: seq<char>)
    ensures r == Cut(s)
  {
    r := [];
    var i := 0;
    while i < |s| && i < COMPONENT_MAX
      invariant 0 <= i <= |s| && i <= COMPONENT_MAX && r == s[..i]
    {
      r := r + [s[i]];
      i := i + 1;
    }
  }

  lemma WalkCons(t: Table, dir: nat, s: seq<char>, c: Name, rest: seq<char>)
    requires TreeOk(t) && dir < |t| && Parse(s) == (c, rest) && c != []
    ensures Walk(t, dir, Components(s)) ==
            match Go(t, dir, c) case None => None case Some(d) => Walk(t, d, Components(rest))
  {}

  method FindLastSlash(path: seq<char>) returns (k: nat)
    ensures k == LastSlash(path, |path|)
  {
    var i := 0;
    k := 0;
    while i < |path|
      invariant 0 <= i <= |path| && k == LastSlash(path, i)
    {
      if path[i] == '/' { k := i; }
      i := i + 1;
    }
  }

  /** A file after a write that ends at end: its buffer is attached, its size and the inode's are raised. */
  function Extended(f: File, newSize: nat, end: nat): (r: File)
    requires FileOk(f) && newSize == end <= MAX_SIZE
    ensures FileOk(r) && r.name == f.name && r.parent == f.parent
    ensures r.size == (if end > f.size then end else f.size) && r.inodeSize == if end > f.size then end else f.inodeSize
  {
    var g := if newSize > f.capacity && !f.data then f.(data := true, capacity := MAX_SIZE) else f;
    if end > g.size then g.(size := end, inodeSize := end) else g
  }

  /** A file without data is empty. */
  method BytesToRead(f: File, pos: nat, count: nat) returns (toRead: nat)
    requires FileOk(f)
    ensures toRead == ReadCount(pos, f.size, count)
  {
    if !f.data { return 0; }
    if pos >= f.size { return 0; }
    toRead := count;
    if (pos + toRead) % U64 > f.size { toRead := f.size - pos; }
  }

  class RamFs {
    const files: array<File>
    const buffers: array<seq<byte>>
    var count: nat
    var handles: map<nat, Handle>

    ghost predicate Valid()
      reads this, files, buffers
    {
      FilesOk(files[..], buffers[..], count)
    }

    ghost function View(): Fs
      requires Valid()
      reads this, files, buffers
    {
      Fs(Lift(files[..], buffers[..], count), handles)
    }

    /** The buffer that belongs to the next slot. */
    ghost function NextBuffer(): (b: seq<byte>)
      requires Valid()
      reads this, files, buffers
      ensures |b| == MAX_SIZE
    {
      buffers[..][if count < MAX_FILES then count else ROOT]
    }

    /** ramfs_mount on static buffers, which hold zeros. */
    constructor ()
      ensures Valid() && Inv(View()) && View() == Mounted(seq(MAX_SIZE, _ => 0)) && fresh(files) && fresh(buffers)
    {
      files := new File[MAX_FILES](_ => File("/", None, 0, false, 0, 0));
      buffers := new seq<byte>[MAX_FILES](_ => seq(MAX_SIZE, _ => 0));
      count, handles := 1, map[];
      new;
      assert buffers[..][0] == seq(MAX_SIZE, _ => 0);
      assert Lift(files[..], buffers[..], 1) == Mounted(seq(MAX_SIZE, _ => 0)).table;
      MountedInv(seq(MAX_SIZE, _ => 0));
    }

    /** ramfs_find_file */
    method RamfsFindFile(dir: nat, name: Name) returns (r: Option<nat>)
      requires Valid()
      ensures r == FindFile(View().table, dir, name, 0)
    {
      ghost var t := View().table;
      var i := 0;
      while i < count
        invariant 0 <= i <= count && FindFile(t, dir, name, 0) == FindFile(t, dir, name, i)
      {
        assert t[i] == ToNode(files[i], buffers[i]);
        if files[i].parent == Some(dir) {
          var eq := StrEq(files[i].name, name);
          if eq { return Some(i); }
        }
        i := i + 1;
      }
      return None;
    }

    /** vfs_lookup_path */
    method VfsLookupPath(path: seq<char>) returns (r: Option<nat>)
      requires Valid() && TreeOk(View().table)
      ensures r == Lookup(View().table, path)
    {
      var mounted := UnderRoot(path);
      if !mounted { return None; }
      var p := path[1..];
      if p == [] || p == "/" {
        OnlySlashes(|p|);
        assert p == Slashes(|p|);
        return Some(ROOT);
      }
      r := WalkPath(p);
    }

    /** The loop of vfs_lookup_path over the components. */
    method WalkPath(path: seq<char>) returns (r: Option<nat>)
      requires Valid() && TreeOk(View().table)
      ensures r == Walk(View().table, ROOT, Components(path))
    {
      ghost var t := View().table;
      var p, cur: nat := path, ROOT;
      while p != []
        invariant cur < count && Walk(t, ROOT, Components(path)) == Walk(t, cur, Components(p))
        decreases |p|
      {
        ghost var q := p;
        var c;
        c, p := ParsePathComponent(p);
        if c == [] { break; }
        WalkCons(t, cur, q, c, p);
        var next := Descend(cur, c);
        if next.None? { return None; }
        cur := next.value;
      }
      assert p == [] ==> Components(p) == [];
      return Some(cur);
    }

    /** One component: "." is skipped, ".." goes up unless at the root, a name is looked up. */
    method Descend(cur: nat, c: Name) returns (r: Option<nat>)
      requires Valid() && TreeOk(View().table) && cur < count
      ensures r == Go(View().table, cur, c)
    {
      ghost var t := View().table;
      assert t[cur] == ToNode(files[cur], buffers[cur]);
      if c == "." { return Some(cur); }
      if c == ".." { return if files[cur].parent.Some? then files[cur].parent else Some(cur); }
      r := RamfsFindFile(cur, c);
    }

    /** ramfs_mkdir */
    method RamfsMkdir(dir: nat, name: Name) returns (ok: bool)
      requires Valid() && TreeOk(View().table) && dir < count
      modifies this`count, files
      ensures Valid() && handles == old(handles) && ok == CanMake(old(View().table), dir, name)
      ensures View().table == MakeNode(old(View().table), dir, name, old(NextBuffer()))
    {
      ghost var t := View().table;
      if count >= MAX_FILES { return false; }
      var existing := RamfsFindFile(dir, name);
      if existing.Some? { return false; }
      var copy: Name, i := [], 0;
      while i < |name| && i < NAME_MAX
        invariant 0 <= i <= |name| && i <= NAME_MAX && copy == name[..i]
      {
        copy := copy + [name[i]];
        i := i + 1;
      }
      assert copy == Truncate(name);
      ghost var was := files[..];
      files[count] := File(copy, Some(dir), 0, false, 0, 0);
      count := count + 1;
      forall j | 0 <= j < count ensures FileOk(files[..][j]) { assert j < count - 1 ==> FileOk(was[j]); }
      assert View().table == t + [NewNode(name, dir, buffers[count - 1])];
      return true;
    }

    /** vfs_mkdir */
    method VfsMkdir(path: seq<char>) returns (ok: bool)
      requires Valid() && TreeOk(View().table)
      modifies this`count, files
      ensures Valid() && handles == old(handles)
      ensures (View().table, ok) == Mkdir(old(View().table), path, old(NextBuffer()))
    {
      var mounted := UnderRoot(path);
      if !mounted { return false; }
      var dir, name := SplitPath(path);
      if dir.None? { return false; }
      ok := RamfsMkdir(dir.value, name);
    }

    /** The parent directory and the name of a new entry. */
    method SplitPath(path: seq<char>) returns (dir: Option<nat>, name: Name)
      requires Valid() && TreeOk(View().table) && path != [] && path[0] == '/'
      ensures (dir, name) == Target(View().table, path)
    {
      var k := FindLastSlash(path);
      dir := Some(ROOT);
      if k > 0 {
        var parent := CopyCut(path[..k]);
        dir := VfsLookupPath(parent);
      }
      name := CopyCut(path[k + 1..]);
    }

    /** ramfs_read */
    method RamfsRead(h: nat, count: nat) returns (buf: seq<byte>)
      requires Valid() && Inv(View()) && CanRead(View(), h, count)
      modifies this`handles
      ensures Valid() && (View(), buf) == Read(old(View()), h, count)
    {
      var d, pos := handles[h].node, handles[h].pos;
      ghost var t := View().table;
      assert HandleOk(t, handles[h]) && NodeOk(t, d) && t[d] == ToNode(files[d], buffers[d]) && FileOk(files[..][d]);
      ReadCountFits(pos, files[d].size, count);
      var toRead := BytesToRead(files[d], pos, count);
      handles := handles[h := Handle(d, pos + toRead)];
      return buffers[d][pos..pos + toRead];
    }

    /** ramfs_write; the buffer is attached to the file when the first byte is written. */
    method RamfsWrite(h: nat, data: seq<byte>) returns (ok: bool)
      requires Valid() && Inv(View()) && CanWrite(View(), h, data)
      modifies this`handles, files, buffers
      ensures Valid() && count == old(count) && (View(), ok) == Write(old(View()), h, data)
    {
      var d, pos := handles[h].node, handles[h].pos;
      ghost var t := View().table;
      assert HandleOk(t, handles[h]) && NodeOk(t, d) && t[d] == ToNode(files[d], buffers[d]) && FileOk(files[..][d]);
      WriteTestExactly(pos, |data|);
      AcceptedSize(pos, |data|);
      var newSize := (pos + |data|) % U64 % U32;
      if newSize > MAX_SIZE { return false; }
      var end := pos + |data|;
      var f := Extended(files[d], newSize, end);
      Put(d, f, buffers[d][..pos] + data + buffers[d][end..]);
      handles := handles[h := Handle(d, end)];
      return true;
    }

    method Put(d: nat, f: File, buffer: seq<byte>)
      requires Valid() && d < count && FileOk(f) && |buffer| == MAX_SIZE
      modifies files, buffers
      ensures Valid() && View().table == old(View().table)[d := ToNode(f, buffer)]
    {
      ghost var was := files[..];
      ghost var t := View().table;
      files[d] := f;
      buffers[d] := buffer;
      forall j | 0 <= j < count ensures FileOk(files[..][j]) { assert j != d ==> FileOk(was[j]); }
      assert View().table == t[d := ToNode(f, buffer)];
    }

    /** vfs_open; id names the new handle, memory says whether it can be allocated. */
    method VfsOpen(id: nat, path: seq<char>, create: bool, append: bool, trunc: bool, memory: bool) returns (ok: bool)
      requires Valid() && TreeOk(View().table) && id !in handles
      modifies this, files
      ensures Valid()
      ensures View() == if trunc then OpenTrunc(old(View()), id, path, create, append, memory, old(NextBuffer()))
                        else Open(old(View()), id, path, create, append, memory, old(NextBuffer()))
      ensures ok <==> id in handles
    {
      ok := OpenHandle(id, path, create, append, memory);
      if ok && trunc { ClearInodeSize(handles[id].node); }
    }

    /** vfs_open up to the handling of O_TRUNC. */
    method OpenHandle(id: nat, path: seq<char>, create: bool, append: bool, memory: bool) returns (ok: bool)
      requires Valid() && TreeOk(View().table) && id !in handles
      modifies this, files
      ensures Valid() && View() == Open(old(View()), id, path, create, append, memory, old(NextBuffer()))
      ensures ok <==> id in handles
      ensures ok ==> handles[id].node < |View().table|
    {
      MkdirKeeps(View().table, path, NextBuffer());
      var node := LookupOrCreate(path, create);
      if node.None? || !memory { return false; }
      AddHandle(id, node.value, append);
      return true;
    }

    /** The end of vfs_open with O_TRUNC: no mount point is a prefix of the empty path, so that the file is not told. */
    method ClearInodeSize(d: nat)
      requires Valid() && d < |View().table|
      modifies files
      ensures Valid() && View() == old(View()).(table := ClearInode(old(View()).table, d))
    {
      ghost var t := View().table;
      ghost var was := files[..];
      assert t[d] == ToNode(files[d], buffers[d]) && FileOk(was[d]);
      files[d] := files[d].(inodeSize := 0);
      forall j | 0 <= j < count ensures FileOk(files[..][j]) { assert j != d ==> FileOk(was[j]); }
      var mount := FindMount(["/"], []);
      assert mount == -1;
      assert View().table == ClearInode(t, d);
    }

    method AddHandle(id: nat, d: nat, append: bool)
      requires Valid() && d < |View().table|
      modifies this`handles
      ensures Valid() && View().table == old(View().table)
      ensures handles == old(handles)[id := Handle(d, if append then View().table[d].inodeSize else 0)]
    {
      var size := InodeSize(d);
      handles := handles[id := Handle(d, if append then size else 0)];
    }

    method InodeSize(d: nat) returns (size: nat)
      requires Valid() && d < |View().table|
      ensures size == View().table[d].inodeSize
    {
      assert View().table[d] == ToNode(files[d], buffers[d]) && FileOk(files[..][d]);
      return files[d].inodeSize;
    }

    method LookupOrCreate(path: seq<char>, create: bool) returns (node: Option<nat>)
      requires Valid() && TreeOk(View().table)
      modifies this`count, files
      ensures Valid() && handles == old(handles) && TreeOk(View().table) && node == Lookup(View().table, path)
      ensures View().table == if old(Lookup(View().table, path)).None? && create
                              then Mkdir(old(View().table), path, old(NextBuffer())).0 else old(View().table)
    {
      MkdirKeeps(View().table, path, NextBuffer());
      node := VfsLookupPath(path);
      if node.None? && create {
        var made := VfsMkdir(path);
        if !made { return None; }
        node := VfsLookupPath(path);
      }
    }
  }
}
