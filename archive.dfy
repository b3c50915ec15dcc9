/** The archive and restore code of util/file/file.go. `Tar` walks a tree
    as `filepath.Walk` does and writes one entry per regular file; `Untar`
    applies a stream of entries to the filesystem. The gzip and tar byte
    encodings are not modelled: an archive is its sequence of entries. */
module Archive {
  import opened Outcomes
  import opened FileSystem
  import Lexical

  /** The tar type flags the code writes and dispatches on (`tar.TypeReg`
      and `tar.TypeDir`). */
  const TypeReg: char := '0'
  const TypeDir: char := '5'

  datatype Header = Header(name: Path, mode: nat, size: nat, typeflag: char)

  /** An entry as the tar reader sees it: its header and the bytes that
      follow it in the stream. */
  datatype Entry = Entry(header: Header, body: seq<byte>)

  /** The header `Tar` writes for a regular file found at `p`: the walk
      path as the name, the mode and size from `Lstat`. */
  function RegHeader(p: Path, n: Node): Header
    requires n.Reg?
  {
    Header(p, n.mode, |n.data|, TypeReg)
  }

  // ---------------------------------------------------------------------
  // Tar

  /** What a walk wrote and how it ended. */
  datatype Walked = Walked(entries: seq<Entry>, err: Option<Error>)

  lemma SortedChildren(m: map<Path, Node>, p: Path)
    ensures forall i :: 0 <= i < |Lexical.Sorted(Names(m, p))| ==> p + [Lexical.Sorted(Names(m, p))[i]] in m
    ensures forall i, j :: 0 <= i < j < |Lexical.Sorted(Names(m, p))| ==>
      Lexical.Sorted(Names(m, p))[i] != Lexical.Sorted(Names(m, p))[j]
    ensures forall n :: n in Lexical.Sorted(Names(m, p)) <==> p + [n] in m
  {
    var names := Lexical.Sorted(Names(m, p));
    Lexical.SortedIsListing(Names(m, p));
    forall n ensures n in names <==> p + [n] in m {
      ChildName(m, p, n);
    }
  }

  /** The walk of the node at `p` with the callback of `Tar`: a regular file
      gets its header, then is opened (an open that fails ends the walk after
      the header), and its bytes follow; a directory is listed, and each entry
      is walked in lexical order; anything else is passed over. */
  ghost function WalkSpec(m: map<Path, Node>, denied: set<Path>, p: Path): Walked
    requires p in m
    decreases Subtree(m, p), 1, 0
  {
    match m[p]
    case Reg(_, data) =>
      if p in denied then Walked([Entry(RegHeader(p, m[p]), [])], Some(Denied(p)))
      else Walked([Entry(RegHeader(p, m[p]), data)], None)
    case Other(_) => Walked([], None)
    case Dir(_) =>
      if p in denied then Walked([], Some(Denied(p)))
      else
        SortedChildren(m, p);
        WalkChildren(m, denied, p, Lexical.Sorted(Names(m, p)))
  }

  /** The walk of the entries `names` of the directory `p`, one after the
      other, up to the first that fails. */
  ghost function WalkChildren(m: map<Path, Node>, denied: set<Path>, p: Path, names: seq<string>): Walked
    requires p in m
    requires forall i :: 0 <= i < |names| ==> p + [names[i]] in m
    decreases Subtree(m, p), 0, |names|
  {
    if names == [] then Walked([], None)
    else
      SubtreeShrinks(m, p, names[0]);
      var first := WalkSpec(m, denied, p + [names[0]]);
      if first.err.Some? then first
      else
        var rest := WalkChildren(m, denied, p, names[1..]);
        Walked(first.entries + rest.entries, rest.err)
  }

  /** `Tar(path)`: the walk of `path`, or the `Lstat` error when it does not
      exist. */
  ghost function TarSpec(m: map<Path, Node>, denied: set<Path>, root: Path): Walked
  {
    if root !in m then Walked([], Some(NotExist(root)))
    else WalkSpec(m, denied, root)
  }

  /** The tar writer `Tar` writes through, as the entries written to it. */
  class TarWriter {
    var entries: seq<Entry>

    constructor ()
      ensures entries == []
    {
      entries := [];
    }

    /** `tw.WriteHeader`: starts a new entry with no bytes yet. */
    method WriteHeader(h: Header)
      modifies this
      ensures entries == old(entries) + [Entry(h, [])]
    {
      entries := entries + [Entry(h, [])];
    }

    /** `tw.Write`: the bytes go to the body of the current entry. */
    method Write(data: seq<byte>)
      requires entries != []
      modifies this
      ensures var last := old(entries)[|old(entries)| - 1];
        entries == old(entries)[..|old(entries)| - 1] + [Entry(last.header, last.body + data)]
    {
      var last := entries[|entries| - 1];
      entries := entries[..|entries| - 1] + [Entry(last.header, last.body + data)];
    }
  }

  /** `Tar(path, w)`: walks `root` and writes what `TarSpec` says. */
  method Tar(disk: Disk, root: Path, tw: TarWriter) returns (err: Option<Error>)
    requires disk.Valid()
    modifies tw
    ensures tw.entries == old(tw.entries) + TarSpec(disk.nodes, disk.denied, root).entries
    ensures err == TarSpec(disk.nodes, disk.denied, root).err
  {
    var fi := disk.Stat(root);
    if fi.Err? {
      return Some(fi.error);
    }
    err := Walk(disk, root, fi.value, tw);
  }

  /** `filepath.Walk` from the node `info` found at `p`, with the callback
      of `Tar`. */
  method Walk(disk: Disk, p: Path, info: Node, tw: TarWriter) returns (err: Option<Error>)
    requires disk.Valid() && p in disk.nodes && info == disk.nodes[p]
    modifies tw
    ensures tw.entries == old(tw.entries) + WalkSpec(disk.nodes, disk.denied, p).entries
    ensures err == WalkSpec(disk.nodes, disk.denied, p).err
    decreases Subtree(disk.nodes, p), 1, 0
  {
    match info {
      case Reg(mode, data) =>
        ghost var start := tw.entries;
        var h := Header(p, mode, |data|, TypeReg);
        tw.WriteHeader(h);
        var bytes := disk.ReadFile(p);
        if bytes.Err? {
          return Some(bytes.error);
        }
        tw.Write(bytes.value);
        assert tw.entries == start + [Entry(h, bytes.value)] by {
          assert (start + [Entry(h, [])])[..|start|] == start;
          assert [] + bytes.value == bytes.value;
        }
        err := None;
      case Dir(_) =>
        var names := disk.ReadDirNames(p);
        if names.Err? {
          return Some(names.error);
        }
        assert Listing(disk.nodes, p).Keys == Names(disk.nodes, p);
        SortedChildren(disk.nodes, p);
        err := WalkEntries(disk, p, names.value, tw);
      case Other(_) =>
        err := None;
    }
  }

  /** The loop of `filepath.Walk` over the sorted names of the directory
      `p`. */
  method WalkEntries(disk: Disk, p: Path, names: seq<string>, tw: TarWriter) returns (err: Option<Error>)
    requires disk.Valid() && p in disk.nodes
    requires forall i :: 0 <= i < |names| ==> p + [names[i]] in disk.nodes
    modifies tw
    ensures tw.entries == old(tw.entries) + WalkChildren(disk.nodes, disk.denied, p, names).entries
    ensures err == WalkChildren(disk.nodes, disk.denied, p, names).err
    decreases Subtree(disk.nodes, p), 0, |names|
  {
    ghost var m, d := disk.nodes, disk.denied;
    var i := 0;
    ghost var done: seq<Entry> := [];
    while i < |names|
      invariant 0 <= i <= |names|
      invariant tw.entries == old(tw.entries) + done
      invariant WalkChildren(m, d, p, names) == Prefixed(done, WalkChildren(m, d, p, names[i..]))
    {
      var child := p + [names[i]];
      var fi := disk.Stat(child);
      SubtreeShrinks(m, p, names[i]);
      WalkChildrenStep(m, d, p, names, i);
      match fi {
        case Err(e) =>
          assert false;
          return Some(e);
        case Ok(info) =>
          err := Walk(disk, child, info, tw);
      }
      if err.Some? {
        return;
      }
      ghost var first := WalkSpec(m, d, child).entries;
      Associative(old(tw.entries), done, first);
      Associative(done, first, WalkChildren(m, d, p, names[i + 1..]).entries);
      done := done + first;
      i := i + 1;
    }
    assert names[i..] == [] && done + [] == done;
    err := None;
  }

  /** `w` after the entries `done` were written. */
  function Prefixed(done: seq<Entry>, w: Walked): Walked
  {
    Walked(done + w.entries, w.err)
  }

  lemma Associative<T>(a: seq<T>, b: seq<T>, c: seq<T>)
    ensures a + (b + c) == (a + b) + c
  {
  }

  lemma WalkChildrenStep(m: map<Path, Node>, d: set<Path>, p: Path, names: seq<string>, i: nat)
    requires p in m && i < |names|
    requires forall k :: 0 <= k < |names| ==> p + [names[k]] in m
    ensures
      var first := WalkSpec(m, d, p + [names[i]]);
      WalkChildren(m, d, p, names[i..]) ==
        if first.err.Some? then first else Prefixed(first.entries, WalkChildren(m, d, p, names[i + 1..]))
  {
    assert names[i..][0] == names[i] && names[i..][1..] == names[i + 1..];
  }

  // ---------------------------------------------------------------------
  // What the archive holds

  /** `e` is the entry `Tar` writes for a regular file of `m` in the tree of
      `root`. */
  ghost predicate EntryOf(m: map<Path, Node>, root: Path, e: Entry)
  {
    var q := e.header.name;
    q in m && InTree(root, q) && m[q].Reg? && e.header == RegHeader(q, m[q])
  }

  /** Each entry of `w` is that of a regular file of the tree of `root` and
      carries the file's bytes, except that a file that could not be opened
      ends the walk with its header and no bytes; and no two entries name the
      same file. */
  ghost predicate WrittenFrom(m: map<Path, Node>, root: Path, w: Walked)
  {
    && (forall i :: 0 <= i < |w.entries| ==>
          && EntryOf(m, root, w.entries[i])
          && (|| w.entries[i].body == m[w.entries[i].header.name].data
              || (&& i == |w.entries| - 1 && w.entries[i].body == []
                  && w.err == Some(Denied(w.entries[i].header.name)))))
    && (forall i, j :: 0 <= i < j < |w.entries| ==> w.entries[i].header.name != w.entries[j].header.name)
    && (forall q :: w.err == Some(Denied(q)) && q in m && m[q].Reg? ==>
          |w.entries| > 0 && w.entries[|w.entries| - 1] == Entry(RegHeader(q, m[q]), []))
  }

  /** Every entry of `w` names a path below `p` inside one of `names`. */
  ghost predicate Below(p: Path, names: seq<string>, w: Walked)
  {
    forall i :: 0 <= i < |w.entries| ==>
      var q := w.entries[i].header.name;
      InTree(p, q) && q != p && q[|p|] in names
  }

  lemma {:induction false} WalkWritten(m: map<Path, Node>, d: set<Path>, p: Path)
    requires p in m
    ensures WrittenFrom(m, p, WalkSpec(m, d, p))
    decreases Subtree(m, p), 1, 0
  {
    assert InTree(p, p);
    if m[p].Dir? && p !in d {
      SortedChildren(m, p);
      ChildrenWritten(m, d, p, Lexical.Sorted(Names(m, p)));
    }
  }

  lemma {:induction false} ChildrenWritten(m: map<Path, Node>, d: set<Path>, p: Path, names: seq<string>)
    requires p in m
    requires forall i :: 0 <= i < |names| ==> p + [names[i]] in m
    requires forall i, j :: 0 <= i < j < |names| ==> names[i] != names[j]
    ensures WrittenFrom(m, p, WalkChildren(m, d, p, names))
    ensures Below(p, names, WalkChildren(m, d, p, names))
    decreases Subtree(m, p), 0, |names|
  {
    if names != [] {
      SubtreeShrinks(m, p, names[0]);
      var c := p + [names[0]];
      WalkWritten(m, d, c);
      var first := WalkSpec(m, d, c);
      forall i | 0 <= i < |first.entries|
        ensures var q := first.entries[i].header.name; InTree(p, q) && q != p && q[|p|] == names[0]
      {
        InChildTree(p, names[0], first.entries[i].header.name);
      }
      if first.err.None? {
        ChildrenWritten(m, d, p, names[1..]);
        var rest := WalkChildren(m, d, p, names[1..]);
        JoinWritten(m, p, names, first, rest);
      }
    }
  }

  /** The entries of the first child followed by those of the others. */
  lemma JoinWritten(m: map<Path, Node>, p: Path, names: seq<string>, first: Walked, rest: Walked)
    requires names != [] && first.err.None?
    requires forall i, j :: 0 <= i < j < |names| ==> names[i] != names[j]
    requires WrittenFrom(m, p + [names[0]], first)
    requires forall i :: 0 <= i < |first.entries| ==>
      var q := first.entries[i].header.name; InTree(p, q) && q != p && q[|p|] == names[0]
    requires WrittenFrom(m, p, rest) && Below(p, names[1..], rest)
    ensures WrittenFrom(m, p, Walked(first.entries + rest.entries, rest.err))
    ensures Below(p, names, Walked(first.entries + rest.entries, rest.err))
  {
    var w := Walked(first.entries + rest.entries, rest.err);
    var k := |first.entries|;
    forall i | 0 <= i < |w.entries|
      ensures EntryOf(m, p, w.entries[i])
    {
      if i >= k { assert w.entries[i] == rest.entries[i - k]; }
    }
    forall i, j | 0 <= i < j < |w.entries|
      ensures w.entries[i].header.name != w.entries[j].header.name
    {
      if i < k && j >= k {
        assert w.entries[j] == rest.entries[j - k];
        var n := rest.entries[j - k].header.name[|p|];
        assert n in names[1..];
        var l :| 1 <= l < |names| && names[l] == n;
      } else if i >= k {
        assert w.entries[i] == rest.entries[i - k] && w.entries[j] == rest.entries[j - k];
      }
    }
    forall i | 0 <= i < |w.entries| && i >= k
      ensures var q := w.entries[i].header.name; InTree(p, q) && q != p && q[|p|] in names
    {
      assert w.entries[i] == rest.entries[i - k];
    }
  }

  /** The regular files of the tree of `root`. */
  ghost function FilesUnder(m: map<Path, Node>, root: Path): set<Path>
  {
    set q | q in m && InTree(root, q) && m[q].Reg?
  }

  /** The regular files below `p` inside one of `names`. */
  ghost function FilesBelow(m: map<Path, Node>, p: Path, names: seq<string>): set<Path>
  {
    set q | q in m && InTree(p, q) && q != p && q[|p|] in names && m[q].Reg?
  }

  /** The paths the entries name. */
  ghost function Named(es: seq<Entry>): set<Path>
  {
    set i | 0 <= i < |es| :: es[i].header.name
  }

  /** Every directory and regular file of the tree of `root` can be
      opened. */
  ghost predicate Openable(m: map<Path, Node>, d: set<Path>, root: Path)
  {
    forall q :: q in m && InTree(root, q) && !m[q].Other? ==> q !in d
  }

  /** The same below `p`, inside one of `names`. */
  ghost predicate OpenableBelow(m: map<Path, Node>, d: set<Path>, p: Path, names: seq<string>)
  {
    forall q :: q in m && InTree(p, q) && q != p && q[|p|] in names && !m[q].Other? ==> q !in d
  }

  /** The walk succeeds exactly when everything in the tree can be opened,
      and then it has written an entry for every regular file of the tree. */
  lemma {:induction false} WalkCovers(m: map<Path, Node>, d: set<Path>, p: Path)
    requires WellFormed(m) && p in m
    ensures WalkSpec(m, d, p).err.None? <==> Openable(m, d, p)
    ensures WalkSpec(m, d, p).err.None? ==> Named(WalkSpec(m, d, p).entries) == FilesUnder(m, p)
    decreases Subtree(m, p), 1, 0
  {
    if m[p].Dir? {
      DirectoryCover(m, d, p);
      if p !in d {
        SortedChildren(m, p);
        ChildrenCover(m, d, p, Lexical.Sorted(Names(m, p)));
      }
    } else {
      LeafCover(m, d, p);
      if m[p].Reg? && p !in d {
        assert Named(WalkSpec(m, d, p).entries) == {p} by {
          assert WalkSpec(m, d, p).entries[0].header.name == p;
        }
      }
    }
  }

  lemma {:induction false} ChildrenCover(m: map<Path, Node>, d: set<Path>, p: Path, names: seq<string>)
    requires WellFormed(m) && p in m
    requires forall i :: 0 <= i < |names| ==> p + [names[i]] in m
    ensures WalkChildren(m, d, p, names).err.None? <==> OpenableBelow(m, d, p, names)
    ensures WalkChildren(m, d, p, names).err.None? ==>
      Named(WalkChildren(m, d, p, names).entries) == FilesBelow(m, p, names)
    decreases Subtree(m, p), 0, |names|
  {
    if names == [] {
      assert Named([]) == {};
    } else {
      SubtreeShrinks(m, p, names[0]);
      var c := p + [names[0]];
      WalkCovers(m, d, c);
      ChildrenCover(m, d, p, names[1..]);
      FirstAndRest(m, d, p, names);
      var first := WalkSpec(m, d, c);
      if first.err.None? {
        NamedJoin(first.entries, WalkChildren(m, d, p, names[1..]).entries);
      }
    }
  }

  /** A directory's tree is the directory and the trees of its entries. */
  lemma DirectoryCover(m: map<Path, Node>, d: set<Path>, p: Path)
    requires WellFormed(m) && p in m && m[p].Dir?
    ensures FilesUnder(m, p) == FilesBelow(m, p, Lexical.Sorted(Names(m, p)))
    ensures Openable(m, d, p) <==> p !in d && OpenableBelow(m, d, p, Lexical.Sorted(Names(m, p)))
  {
    var names := Lexical.Sorted(Names(m, p));
    SortedChildren(m, p);
    forall q | q in m && InTree(p, q) && q != p
      ensures q[|p|] in names
    {
      PrefixExists(m, q, |p| + 1);
      assert q[..|p| + 1] == p + [q[|p|]];
    }
    assert InTree(p, p);
  }

  /** Nothing lies below a node that is not a directory. */
  lemma LeafCover(m: map<Path, Node>, d: set<Path>, p: Path)
    requires WellFormed(m) && p in m && !m[p].Dir?
    ensures FilesUnder(m, p) == if m[p].Reg? then {p} else {}
    ensures Openable(m, d, p) <==> m[p].Other? || p !in d
  {
    forall q | q in m && InTree(p, q)
      ensures q == p
    {
      OnlyDirsHaveChildren(m, p, q);
    }
    assert InTree(p, p);
  }

  /** The part of a directory's tree inside `names` is the tree of the first
      name and the part inside the others. */
  lemma FirstAndRest(m: map<Path, Node>, d: set<Path>, p: Path, names: seq<string>)
    requires names != []
    ensures FilesBelow(m, p, names) == FilesUnder(m, p + [names[0]]) + FilesBelow(m, p, names[1..])
    ensures OpenableBelow(m, d, p, names) <==> Openable(m, d, p + [names[0]]) && OpenableBelow(m, d, p, names[1..])
  {
    var c := p + [names[0]];
    forall q ensures InTree(c, q) <==> InTree(p, q) && q != p && q[|p|] == names[0] {
      if InTree(c, q) {
        InChildTree(p, names[0], q);
      }
    }
    assert forall n :: n in names <==> n == names[0] || n in names[1..] by {
      assert names == [names[0]] + names[1..];
    }
  }

  lemma NamedJoin(a: seq<Entry>, b: seq<Entry>)
    ensures Named(a + b) == Named(a) + Named(b)
  {
    forall q | q in Named(a + b) ensures q in Named(a) + Named(b) {
      var i :| 0 <= i < |a + b| && (a + b)[i].header.name == q;
      if i >= |a| { assert b[i - |a|] == (a + b)[i]; }
    }
    forall q | q in Named(a) ensures q in Named(a + b) {
      var i :| 0 <= i < |a| && a[i].header.name == q;
      assert (a + b)[i] == a[i];
    }
    forall q | q in Named(b) ensures q in Named(a + b) {
      var i :| 0 <= i < |b| && b[i].header.name == q;
      assert (a + b)[|a| + i] == b[i];
    }
  }

  /** What `Tar(root)` writes: nothing and the `Lstat` error when `root`
      does not exist; otherwise one entry per regular file reached, in walk
      order, named by its walk path, with the file's mode, size and bytes,
      and none for directories or other nodes. It succeeds exactly when every
      directory and regular file of the tree can be opened, and then every
      regular file has its entry. */
  lemma TarArchive(m: map<Path, Node>, d: set<Path>, root: Path)
    requires WellFormed(m)
    ensures root !in m ==> TarSpec(m, d, root) == Walked([], Some(NotExist(root)))
    ensures root in m ==> WrittenFrom(m, root, TarSpec(m, d, root))
    ensures TarSpec(m, d, root).err.None? <==> root in m && Openable(m, d, root)
    ensures TarSpec(m, d, root).err.None? ==> Named(TarSpec(m, d, root).entries) == FilesUnder(m, root)
  {
    if root in m {
      WalkWritten(m, d, root);
      WalkCovers(m, d, root);
    }
  }

  // ---------------------------------------------------------------------
  // Untar

  /** The bytes the tar reader delivers for an entry: as many as its header
      promises, or all there are when the stream ends first. */
  function Delivered(e: Entry): (b: seq<byte>)
    ensures |b| == if |e.body| < e.header.size then |e.body| else e.header.size
    ensures b == e.body[..|b|]
  {
    if |e.body| <= e.header.size then e.body else e.body[..e.header.size]
  }

  /** One entry of `Untar`: a directory entry is `os.MkdirAll` of its name
      with its mode; a regular file entry is `os.Create` of its name (no
      parents are made, and its mode is not applied) and receives the body,
      with `io.ErrUnexpectedEOF` when the body is short; any other type flag
      is an error. `ro` holds the paths the process may not write. */
  ghost function ApplySpec(m: map<Path, Node>, ro: set<Path>, e: Entry): Effect
  {
    var h := e.header;
    if h.typeflag == TypeDir then
      MkdirAllSpec(m, ro, h.name, h.mode)
    else if h.typeflag == TypeReg then
      match CreateSpec(m, ro, h.name)
      case Err(err) => Effect(m, Some(err))
      case Ok(m') =>
        Effect(m'[h.name := Reg(m'[h.name].mode, Delivered(e))],
               if |e.body| < h.size then Some(UnexpectedEof(h.name)) else None)
    else
      Effect(m, Some(UnhandledType(h.typeflag, h.name)))
  }

  /** The entries applied in order, up to the first that fails. */
  ghost function Restore(m: map<Path, Node>, ro: set<Path>, es: seq<Entry>): Effect
    decreases |es|
  {
    if es == [] then Effect(m, None)
    else
      var step := ApplySpec(m, ro, es[0]);
      if step.err.Some? then step else Restore(step.nodes, ro, es[1..])
  }

  /** `Untar(dst, r)`: every entry is applied at its own name; `dst` plays
      no part. */
  method Untar(disk: Disk, dst: Path, entries: seq<Entry>) returns (err: Option<Error>)
    requires disk.Valid()
    modifies disk`nodes
    ensures disk.Valid()
    ensures Restore(old(disk.nodes), disk.readOnly, entries) == Effect(disk.nodes, err)
  {
    var i := 0;
    while i < |entries|
      invariant 0 <= i <= |entries| && disk.Valid()
      invariant Restore(old(disk.nodes), disk.readOnly, entries) == Restore(disk.nodes, disk.readOnly, entries[i..])
    {
      var e := entries[i];
      var h := e.header;
      assert entries[i..][0] == e && entries[i..][1..] == entries[i + 1..];
      if h.typeflag == TypeDir {
        err := disk.MkdirAll(h.name, h.mode);
        if err.Some? {
          return;
        }
      } else if h.typeflag == TypeReg {
        CreateMeaning(disk.nodes, disk.readOnly, h.name);
        err := disk.Create(h.name);
        if err.Some? {
          return;
        }
        var body := Delivered(e);
        disk.Write(h.name, body);
        assert [] + body == body;
        if |e.body| < h.size {
          return Some(UnexpectedEof(h.name));
        }
      } else {
        return Some(UnhandledType(h.typeflag, h.name));
      }
      i := i + 1;
    }
    return None;
  }

  /** Restoring `a` and then `b` is restoring `a + b`; a failure in `a`
      ends the restore there. */
  lemma {:induction false} RestoreAppend(m: map<Path, Node>, ro: set<Path>, a: seq<Entry>, b: seq<Entry>)
    ensures Restore(m, ro, a + b) ==
      if Restore(m, ro, a).err.Some? then Restore(m, ro, a) else Restore(Restore(m, ro, a).nodes, ro, b)
    decreases |a|
  {
    if a == [] {
      assert a + b == b;
    } else {
      assert (a + b)[0] == a[0] && (a + b)[1..] == a[1..] + b;
      var step := ApplySpec(m, ro, a[0]);
      if step.err.None? {
        RestoreAppend(step.nodes, ro, a[1..], b);
      }
    }
  }

  /** `Untar` stops at the first entry whose type flag is neither a
      directory nor a regular file, with an error naming it, and later
      entries have no effect. */
  lemma UnknownTypeStops(m: map<Path, Node>, ro: set<Path>, es: seq<Entry>, k: nat)
    requires k < |es| && Restore(m, ro, es[..k]).err.None?
    requires es[k].header.typeflag != TypeReg && es[k].header.typeflag != TypeDir
    ensures Restore(m, ro, es) ==
      Effect(Restore(m, ro, es[..k]).nodes, Some(UnhandledType(es[k].header.typeflag, es[k].header.name)))
  {
    assert es == es[..k] + es[k..];
    RestoreAppend(m, ro, es[..k], es[k..]);
    assert es[k..][0] == es[k];
  }

  /** A directory entry makes its directory exactly when every existing
      prefix of its name is a directory and every missing one may be made;
      whether or not it succeeds, it changes no existing node and adds only
      missing prefixes of its name, as directories with the entry's mode. */
  lemma RestoreDirectory(m: map<Path, Node>, ro: set<Path>, e: Entry)
    requires WellFormed(m) && e.header.typeflag == TypeDir
    ensures ApplySpec(m, ro, e).err.None? <==> MkdirOk(m, ro, e.header.name)
    ensures
      var r, q := ApplySpec(m, ro, e).nodes, e.header.name;
      && WellFormed(r)
      && (forall p :: p in m ==> p in r && r[p] == m[p])
      && (forall p :: p in r && p !in m ==> InTree(p, q) && r[p] == Dir(e.header.mode))
      && (ApplySpec(m, ro, e).err.None? ==> q in r && r[q].Dir?)
  {
    MkdirAllSucceeds(m, ro, e.header.name, e.header.mode);
    MkdirAllResult(m, ro, e.header.name, e.header.mode);
  }

  /** A regular file entry is written to its own name: an existing regular
      file the process may write is truncated and keeps its mode, a new one
      in a directory it may write gets `CreateMode` (the entry's mode is not
      applied), a missing parent is not made, and a short body leaves what
      arrived and reports `UnexpectedEof`. Otherwise nothing changes, and the
      error says why. */
  lemma RestoreRegular(m: map<Path, Node>, ro: set<Path>, e: Entry)
    requires WellFormed(m) && e.header.typeflag == TypeReg
    ensures
      var r, q := ApplySpec(m, ro, e), e.header.name;
      var fits := if q in m then m[q].Reg? && q !in ro
                  else q != [] && Parent(q) in m && m[Parent(q)].Dir? && Parent(q) !in ro;
      && (!fits ==> r.nodes == m && r.err.Some?)
      && (q in m && m[q].Reg? && q in ro ==> r.err == Some(Denied(q)))
      && (q !in m && q != [] && Parent(q) in m && m[Parent(q)].Dir? && Parent(q) in ro ==> r.err == Some(Denied(q)))
      && (q !in m && q != [] && Parent(q) !in m ==>
            r.err == if exists i :: 0 <= i < |q| && q[..i] in m && !m[q[..i]].Dir?
                     then Some(NotDir(q)) else Some(NotExist(q)))
      && (fits ==>
            && r.nodes == m[q := Reg(if q in m then m[q].mode else CreateMode, Delivered(e))]
            && WellFormed(r.nodes)
            && (r.err.None? <==> |e.body| >= e.header.size)
            && (r.err.Some? ==> r.err == Some(UnexpectedEof(q))))
  {
    var q := e.header.name;
    CreateMeaning(m, ro, q);
    if q !in m && q != [] && Parent(q) !in m {
      var pq := Parent(q);
      BlockedMeaning(m, pq);
      forall i | 0 <= i < |q| ensures q[..i] == pq[..i] { }
      assert pq[..|pq|] == pq;
    }
  }

  /** The entries can all be restored as regular files into `m`: full
      bodies, distinct names, each in an existing directory the process may
      write and not over a node other than a regular file it may write. */
  ghost predicate Restorable(m: map<Path, Node>, ro: set<Path>, es: seq<Entry>)
  {
    && (forall i :: 0 <= i < |es| ==> es[i].header.typeflag == TypeReg && |es[i].body| >= es[i].header.size)
    && (forall i, j :: 0 <= i < j < |es| ==> es[i].header.name != es[j].header.name)
    && (forall i :: 0 <= i < |es| ==>
          var q := es[i].header.name;
          && q != [] && Parent(q) in m && m[Parent(q)].Dir? && Parent(q) !in ro
          && (q in m ==> m[q].Reg? && q !in ro))
  }

  /** Restoring such entries succeeds; each name then holds the bytes of
      its entry, with the mode already there or `CreateMode`; nothing else
      changes. */
  lemma {:induction false} RestoreFiles(m: map<Path, Node>, ro: set<Path>, es: seq<Entry>)
    requires Restorable(m, ro, es)
    ensures Restore(m, ro, es).err.None?
    ensures forall i :: 0 <= i < |es| ==>
      var q, r := es[i].header.name, Restore(m, ro, es).nodes;
      q in r && r[q] == Reg(if q in m then m[q].mode else CreateMode, Delivered(es[i]))
    ensures forall q :: q !in Named(es) ==>
      (q in Restore(m, ro, es).nodes <==> q in m) && (q in m ==> Restore(m, ro, es).nodes[q] == m[q])
    decreases |es|
  {
    if es == [] {
      assert Named(es) == {};
    } else {
      var q0 := es[0].header.name;
      var m1 := RestoreFirstFile(m, ro, es);
      var rest := es[1..];
      RestoreFiles(m1, ro, rest);
      var r := Restore(m1, ro, rest).nodes;
      NamedCons(es);
      forall i | 0 <= i < |es|
        ensures var q := es[i].header.name; q in r && r[q] == Reg(if q in m then m[q].mode else CreateMode, Delivered(es[i]))
      {
        if i > 0 {
          assert es[i] == rest[i - 1];
        }
      }
    }
  }

  /** The first of restorable entries is written, and the others stay
      restorable. */
  lemma RestoreFirstFile(m: map<Path, Node>, ro: set<Path>, es: seq<Entry>) returns (m1: map<Path, Node>)
    requires Restorable(m, ro, es) && es != []
    ensures var q0 := es[0].header.name;
      m1 == m[q0 := Reg(if q0 in m then m[q0].mode else CreateMode, Delivered(es[0]))]
    ensures ApplySpec(m, ro, es[0]) == Effect(m1, None)
    ensures Restorable(m1, ro, es[1..])
    ensures es[0].header.name !in Named(es[1..])
  {
    var e := es[0];
    var q0 := e.header.name;
    m1 := m[q0 := Reg(if q0 in m then m[q0].mode else CreateMode, Delivered(e))];
    var rest := es[1..];
    forall i | 0 <= i < |rest|
      ensures var q := rest[i].header.name;
        && q != q0 && Parent(q) in m1 && m1[Parent(q)].Dir? && Parent(q) !in ro
        && (q in m1 ==> m1[q].Reg? && q !in ro)
    {
      assert rest[i] == es[i + 1];
    }
  }

  lemma NamedCons(es: seq<Entry>)
    requires es != []
    ensures Named(es) == {es[0].header.name} + Named(es[1..])
  {
    assert es == [es[0]] + es[1..];
    NamedJoin([es[0]], es[1..]);
    assert Named([es[0]]) == {es[0].header.name};
  }

  /** The archive of a tree that `Tar` wrote in full, restored into a
      filesystem `m0` where the directory of every file exists and may be
      written (and nothing but a regular file the process may write sits at
      its name, `ro0` being the paths it may not write): the restore
      succeeds and every
      regular file gets back its bytes, but not its mode, which is the one
      already at that name or `CreateMode`. */
  lemma RoundTrip(m: map<Path, Node>, d: set<Path>, root: Path, m0: map<Path, Node>, ro0: set<Path>)
    requires WellFormed(m) && TarSpec(m, d, root).err.None?
    requires forall q :: q in FilesUnder(m, root) ==>
      && q != [] && Parent(q) in m0 && m0[Parent(q)].Dir? && Parent(q) !in ro0
      && (q in m0 ==> m0[q].Reg? && q !in ro0)
    ensures Restore(m0, ro0, TarSpec(m, d, root).entries).err.None?
    ensures forall q :: q in FilesUnder(m, root) ==>
      var r := Restore(m0, ro0, TarSpec(m, d, root).entries).nodes;
      q in r && r[q] == Reg(if q in m0 then m0[q].mode else CreateMode, m[q].data)
  {
    TarArchive(m, d, root);
    var es := TarSpec(m, d, root).entries;
    forall i | 0 <= i < |es|
      ensures es[i].header.typeflag == TypeReg && |es[i].body| >= es[i].header.size
      ensures es[i].header.name in FilesUnder(m, root) && Delivered(es[i]) == m[es[i].header.name].data
    {
    }
    RestoreFiles(m0, ro0, es);
    forall q | q in FilesUnder(m, root)
      ensures var r := Restore(m0, ro0, es).nodes;
        q in r && r[q] == Reg(if q in m0 then m0[q].mode else CreateMode, m[q].data)
    {
      assert q in Named(es);
      var i :| 0 <= i < |es| && es[i].header.name == q;
    }
  }
}
