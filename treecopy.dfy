/** Recursive duplication of a directory tree: `Copy`, `copyDir` and
    `copyFile` of util/file/file.go. Directories are recreated with their
    permission bits, regular files get their bytes and then their permission
    bits, and every other kind of node is skipped. The copy fails fast and
    never rolls back what it already made. */
module TreeCopy {
  import opened Outcomes
  import opened FileSystem

  /** Neither tree contains the other. */
  predicate Disjoint(a: Path, b: Path)
  {
    !InTree(a, b) && !InTree(b, a)
  }

  /** The source path that the copy of `src` into `dst` reads for the
      target path `p`. */
  function Source(src: Path, dst: Path, p: Path): Path
    requires InTree(dst, p)
  {
    src + p[|dst|..]
  }

  /** The target path that the copy writes for the source path `q`. */
  function Target(src: Path, dst: Path, q: Path): Path
    requires InTree(src, q)
  {
    dst + q[|src|..]
  }

  /** `p` is a path that copying `src` into `dst` writes: `dst` itself, or
      the counterpart of a directory or regular file below `src`. */
  ghost predicate Planned(m: map<Path, Node>, src: Path, dst: Path, p: Path)
  {
    InTree(dst, p) && Source(src, dst, p) in m && (p == dst || !m[Source(src, dst, p)].Other?)
  }

  /** The node the copy leaves at a planned path: a directory with the
      source's permission bits, unless a directory is already there (then it
      is kept as it is), or the source file with its bytes and bits. */
  ghost function CopyOf(m: map<Path, Node>, src: Path, dst: Path, p: Path): Node
    requires Planned(m, src, dst, p)
  {
    var n := m[Source(src, dst, p)];
    if p == dst || n.Dir? then
      (if p in m && m[p].Dir? then m[p] else Dir(n.mode))
    else n
  }

  /** Going from `before` to `after`, nothing was removed and every node
      that changed is the copy of its source: what a copy leaves behind even
      when it stops at an error (there is no rollback). */
  ghost predicate CopiedPart(before: map<Path, Node>, after: map<Path, Node>, src: Path, dst: Path)
  {
    && (forall p :: p in before ==> p in after)
    && (forall p :: p in after ==>
          (p in before && after[p] == before[p]) ||
          (Planned(before, src, dst, p) && after[p] == CopyOf(before, src, dst, p)))
  }

  /** Every planned path holds its copy, and nothing else changed. */
  ghost predicate CopiedAll(before: map<Path, Node>, after: map<Path, Node>, src: Path, dst: Path)
  {
    && CopiedPart(before, after, src, dst)
    && forall p :: Planned(before, src, dst, p) ==> p in after && after[p] == CopyOf(before, src, dst, p)
  }

  /** The first error met when `copyDir` reaches the directory `q` (or,
      for the root of the copy, whatever node `q` is) with the target `t`:
      `os.MkdirAll(t)` refuses a node that is not a directory or a new
      directory in a directory of `ro`, then `os.Open(q)` refuses a path of
      `denied`, and listing a node that is not a directory fails. */
  ghost function DirError(m: map<Path, Node>, denied: set<Path>, ro: set<Path>, q: Path, t: Path): Option<Error>
    requires q in m
  {
    if t in m && !m[t].Dir? then Some(NotDir(t))
    else if t !in m && t != [] && Parent(t) in ro then Some(Denied(t))
    else if q in denied then Some(Denied(q))
    else if !m[q].Dir? then Some(NotDir(q))
    else None
  }

  /** The error `copyFile` returns for the regular file `q` and the target
      `t` in an existing directory: `os.Open(q)` refuses a path of `denied`;
      `os.Create(t)` refuses a directory, a node that is neither a directory
      nor a regular file, a regular file of `ro`, or a new file in a
      directory of `ro`. */
  ghost function FileError(m: map<Path, Node>, denied: set<Path>, ro: set<Path>, q: Path, t: Path): Option<Error>
  {
    if q in denied then Some(Denied(q))
    else if t in m then
      match m[t]
      case Dir(_) => Some(IsDir(t))
      case Other(_) => Some(NotRegular(t))
      case Reg(_, _) => if t in ro then Some(Denied(t)) else None
    else if t != [] && Parent(t) in ro then Some(Denied(t))
    else None
  }

  /** The error copying the source node `q` meets, if any: the root and
      every directory as `copyDir` reaches them, a regular file as
      `copyFile` does, and nothing for a node that is skipped. */
  ghost function ErrorAt(m: map<Path, Node>, denied: set<Path>, ro: set<Path>, src: Path, dst: Path, q: Path): Option<Error>
    requires q in m && InTree(src, q)
  {
    var t := Target(src, dst, q);
    if q == src then DirError(m, denied, ro, q, t)
    else match m[q]
      case Dir(_) => DirError(m, denied, ro, q, t)
      case Reg(_, _) => FileError(m, denied, ro, q, t)
      case Other(_) => None
  }

  /** The source node `q` can be copied. */
  ghost predicate CopyableAt(m: map<Path, Node>, denied: set<Path>, ro: set<Path>, src: Path, dst: Path, q: Path)
    requires q in m && InTree(src, q)
  {
    ErrorAt(m, denied, ro, src, dst, q).None?
  }

  /** The condition under which copying `src` into the directory `dst`,
      whose parent exists, succeeds: every node of the source tree can be
      copied. */
  ghost predicate Copyable(m: map<Path, Node>, denied: set<Path>, ro: set<Path>, src: Path, dst: Path)
  {
    && src in m
    && forall q :: q in m && InTree(src, q) ==> CopyableAt(m, denied, ro, src, dst, q)
  }

  /** `e` is an error the copy can stop with: a missing source, or the
      error of some node of the source tree. */
  ghost predicate FailedAt(m: map<Path, Node>, denied: set<Path>, ro: set<Path>, src: Path, dst: Path, e: Error)
  {
    if src !in m then e == NotExist(src)
    else exists q :: q in m && InTree(src, q) && ErrorAt(m, denied, ro, src, dst, q) == Some(e)
  }

  /** The target tree of the child `n` holds every copy planned in it. */
  ghost predicate ChildDone(before: map<Path, Node>, after: map<Path, Node>, src: Path, dst: Path, n: string)
  {
    forall p :: Planned(before, src, dst, p) && InTree(dst + [n], p) ==>
      p in after && after[p] == CopyOf(before, src, dst, p)
  }

  /** The target tree of the child `n` is as it was. */
  ghost predicate ChildUntouched(before: map<Path, Node>, after: map<Path, Node>, dst: Path, n: string)
  {
    forall p :: InTree(dst + [n], p) ==> (p in after <==> p in before) && (p in before ==> after[p] == before[p])
  }

  /** Every child of `src` other than `f` was copied in full or not at all:
      the copy stopped inside the child `f`, if inside any. */
  ghost predicate OthersSettled(before: map<Path, Node>, after: map<Path, Node>, src: Path, dst: Path, f: string)
  {
    forall n :: n != f && src + [n] in before ==>
      ChildDone(before, after, src, dst, n) || ChildUntouched(before, after, dst, n)
  }

  /** The copy stopped with the error `e`: it is the error of a node that
      cannot be copied, and the copy stopped there, inside one child at
      most. */
  ghost predicate Stopped(before: map<Path, Node>, after: map<Path, Node>, denied: set<Path>, ro: set<Path>,
                          src: Path, dst: Path, e: Error)
  {
    && FailedAt(before, denied, ro, src, dst, e)
    && exists f :: OthersSettled(before, after, src, dst, f)
  }

  /** What copying `src` into `dst` leaves, going from `before` to `after`
      with the result `err`: only copies were made; the copy succeeds
      exactly when it is possible; when it succeeds every planned path holds
      its copy, and when it fails it stopped where it failed. */
  ghost predicate CopyOutcome(before: map<Path, Node>, after: map<Path, Node>, denied: set<Path>, ro: set<Path>,
                              src: Path, dst: Path, err: Option<Error>)
  {
    && CopiedPart(before, after, src, dst)
    && (err.None? <==> Copyable(before, denied, ro, src, dst))
    && (err.None? ==> CopiedAll(before, after, src, dst))
    && (err.Some? ==> Stopped(before, after, denied, ro, src, dst, err.value))
  }

  /** After a complete copy, the counterpart of every regular file below
      `src` is that file, bytes and permission bits, and the counterpart of
      every directory is a directory, with the source's bits when the copy
      made it. */
  lemma CopyFidelity(before: map<Path, Node>, after: map<Path, Node>, src: Path, dst: Path, rel: Path)
    requires CopiedAll(before, after, src, dst)
    requires src + rel in before
    ensures before[src + rel].Reg? && rel != [] ==> dst + rel in after && after[dst + rel] == before[src + rel]
    ensures before[src + rel].Dir? ==>
      && dst + rel in after && after[dst + rel].Dir?
      && (dst + rel !in before ==> after[dst + rel].mode == before[src + rel].mode)
  {
    var p := dst + rel;
    assert InTree(dst, p) && Source(src, dst, p) == src + rel by {
      assert p[..|dst|] == dst && p[|dst|..] == rel;
    }
  }

  /** A copy, complete or not, leaves the counterpart of a node that is
      neither a directory nor a regular file as it was. */
  lemma OtherSkipped(before: map<Path, Node>, after: map<Path, Node>, src: Path, dst: Path, rel: Path)
    requires CopiedPart(before, after, src, dst)
    requires src + rel in before && before[src + rel].Other? && rel != []
    ensures dst + rel in after <==> dst + rel in before
    ensures dst + rel in before ==> after[dst + rel] == before[dst + rel]
  {
    var p := dst + rel;
    assert p != dst && Source(src, dst, p) == src + rel by {
      assert p[..|dst|] == dst && p[|dst|..] == rel;
    }
  }

  // ---------------------------------------------------------------------
  // Facts about paths

  lemma TreesMeet(a: Path, b: Path, q: Path)
    requires InTree(a, q) && InTree(b, q)
    ensures InTree(a, b) || InTree(b, a)
  {
    if |a| <= |b| {
      assert b[..|a|] == q[..|a|];
    } else {
      assert a[..|b|] == q[..|b|];
    }
  }

  lemma ChildInTree(a: Path, b: Path, n: string)
    ensures InTree(a + [n], b + [n]) ==> InTree(a, b)
  {
    if InTree(a + [n], b + [n]) {
      assert b[..|a|] == (b + [n])[..|a + [n]|][..|a|];
    }
  }

  lemma ChildrenDisjoint(src: Path, dst: Path, n: string)
    requires Disjoint(src, dst)
    ensures Disjoint(src + [n], dst + [n])
  {
    ChildInTree(src, dst, n);
    ChildInTree(dst, src, n);
  }

  /** A path strictly below `d` lies in the tree of the child of `d` it
      passes through, and copying that child reads and writes the same paths
      as copying `d`'s tree does. */
  lemma InChild(s: Path, d: Path, p: Path)
    requires InTree(d, p) && p != d
    ensures InTree(d + [p[|d|]], p)
    ensures Source(s + [p[|d|]], d + [p[|d|]], p) == Source(s, d, p)
  {
    assert p[..|d| + 1] == p[..|d|] + [p[|d|]];
    assert p[|d|..] == [p[|d|]] + p[|d| + 1..];
  }

  lemma FromChild(s: Path, d: Path, n: string, p: Path)
    requires InTree(d + [n], p)
    ensures InTree(d, p) && p != d && p[|d|] == n
    ensures Source(s + [n], d + [n], p) == Source(s, d, p)
  {
    InChildTree(d, n, p);
    InChild(s, d, p);
  }

  lemma TargetOfChild(s: Path, d: Path, n: string, q: Path)
    requires InTree(s + [n], q)
    ensures InTree(s, q) && q != s && q[|s|] == n
    ensures Target(s + [n], d + [n], q) == Target(s, d, q)
  {
    FromChild(d, s, n, q);
  }

  lemma ChildSubtreeSmaller(before: map<Path, Node>, now: map<Path, Node>, src: Path, dst: Path, n: string)
    requires Disjoint(src, dst) && src in before
    requires forall p :: p in now && !InTree(dst, p) ==> p in before
    ensures Subtree(now, src + [n]) < Subtree(before, src)
  {
    forall q | q in Subtree(now, src + [n]) ensures q in Subtree(before, src) {
      TargetOfChild(src, dst, n, q);
      if InTree(dst, q) { TreesMeet(src, dst, q); }
    }
    assert src in Subtree(before, src);
  }

  // ---------------------------------------------------------------------
  // Moving the copy's facts between the state a child's copy starts from
  // and the state the whole directory's copy started from

  /** The two states agree on the source tree and on the target tree of the
      child `n`. */
  ghost predicate AgreeOnChild(b: map<Path, Node>, a: map<Path, Node>, src: Path, dst: Path, n: string)
  {
    && (forall q :: InTree(src, q) ==> (q in a <==> q in b) && (q in b ==> a[q] == b[q]))
    && (forall p :: InTree(dst + [n], p) ==> (p in a <==> p in b) && (p in b ==> a[p] == b[p]))
  }

  lemma PlannedInChild(b: map<Path, Node>, a: map<Path, Node>, src: Path, dst: Path, n: string, p: Path)
    requires AgreeOnChild(b, a, src, dst, n)
    requires src + [n] in b && b[src + [n]].Dir?
    requires InTree(dst + [n], p)
    ensures Planned(a, src + [n], dst + [n], p) <==> Planned(b, src, dst, p)
    ensures Planned(b, src, dst, p) ==> CopyOf(a, src + [n], dst + [n], p) == CopyOf(b, src, dst, p)
  {
    FromChild(src, dst, n, p);
    assert InTree(src, Source(src, dst, p));
    if p == dst + [n] {
      assert Source(src, dst, p) == src + [n] by { assert p[|dst|..] == [n]; }
    }
  }

  lemma ErrorInChild(b: map<Path, Node>, a: map<Path, Node>, denied: set<Path>, ro: set<Path>,
                     src: Path, dst: Path, n: string, q: Path)
    requires AgreeOnChild(b, a, src, dst, n)
    requires InTree(src + [n], q) && q in b
    requires q != src + [n] || b[q].Dir?
    ensures InTree(src, q) && q in a
    ensures ErrorAt(a, denied, ro, src + [n], dst + [n], q) == ErrorAt(b, denied, ro, src, dst, q)
  {
    TargetOfChild(src, dst, n, q);
    var t := Target(src, dst, q);
    assert InTree(dst + [n], t) by {
      assert t == dst + [n] + q[|src| + 1..] by {
        assert q[|src|..] == [n] + q[|src| + 1..];
      }
    }
  }

  /** The error copying a regular child meets is the one `copyFile` meets
      on it. */
  lemma FileErrorInChild(b: map<Path, Node>, a: map<Path, Node>, denied: set<Path>, ro: set<Path>,
                         src: Path, dst: Path, n: string)
    requires AgreeOnChild(b, a, src, dst, n)
    requires src + [n] in b && b[src + [n]].Reg?
    ensures InTree(src, src + [n])
    ensures ErrorAt(b, denied, ro, src, dst, src + [n]) == FileError(a, denied, ro, src + [n], dst + [n])
  {
    var s', d' := src + [n], dst + [n];
    assert InTree(src, s') && InTree(s', s') && InTree(d', d');
    assert Target(src, dst, s') == d' by { assert s'[|src|..] == [n]; }
  }

  // ---------------------------------------------------------------------
  // The copy

  /** `copyFile`: open the source, create or truncate the target, copy the
      bytes, then give the target the source's permission bits. */
  method CopyFile(disk: Disk, src: Path, dst: Path) returns (err: Option<Error>)
    requires disk.Valid()
    requires src in disk.nodes && disk.nodes[src].Reg? && src != dst
    requires dst != [] && Parent(dst) in disk.nodes && disk.nodes[Parent(dst)].Dir?
    modifies disk`nodes
    ensures disk.Valid()
    ensures err == FileError(old(disk.nodes), disk.denied, disk.readOnly, src, dst)
    ensures err.None? ==> disk.nodes == old(disk.nodes)[dst := old(disk.nodes)[src]]
    ensures err.Some? ==> disk.nodes == old(disk.nodes)
  {
    ghost var before := disk.nodes;
    var data := disk.ReadFile(src);
    if data.Err? {
      return Some(data.error);
    }
    CreateMeaning(disk.nodes, disk.readOnly, dst);
    err := disk.Create(dst);
    if err.Some? {
      return;
    }
    disk.Write(dst, data.value);
    var fi := disk.Stat(src);
    match fi {
      case Err(e) =>
        assert false;
        err := Some(e);
      case Ok(info) =>
        err := disk.Chmod(dst, info.mode);
    }
    FileCopied(before, disk.readOnly, src, dst);
  }

  /** Creating the target, writing the source's bytes to it and giving it
      the source's mode leaves the source node at the target. */
  lemma FileCopied(m: map<Path, Node>, ro: set<Path>, src: Path, dst: Path)
    requires src in m && m[src].Reg? && src != dst && CreateSpec(m, ro, dst).Ok?
    ensures var c := CreateSpec(m, ro, dst).value;
      var w := c[dst := Reg(c[dst].mode, c[dst].data + m[src].data)];
      src in w && w[src] == m[src] &&
      w[dst := WithMode(w[dst], w[src].mode)] == m[dst := m[src]]
  {
    var c := CreateSpec(m, ro, dst).value;
    assert c[dst].data == [];
    assert [] + m[src].data == m[src].data;
  }

  /** `Copy(dst, src)`: `src` must exist; `dst` is made with all missing
      parents, taking the permission bits of `src`; then the tree is copied
      with `CopyDir`. The copy is judged against the filesystem that
      `MkdirAll` left, whose new parent directories are not part of it. */
  method Copy(disk: Disk, dst: Path, src: Path) returns (err: Option<Error>)
    requires disk.Valid()
    requires Disjoint(src, dst)
    modifies disk`nodes
    ensures disk.Valid()
    ensures src !in old(disk.nodes) ==> err == Some(NotExist(src)) && disk.nodes == old(disk.nodes)
    ensures src in old(disk.nodes) ==>
      var made := MkdirAllSpec(old(disk.nodes), disk.readOnly, dst, old(disk.nodes)[src].mode);
      && (made.err.Some? ==> err == made.err && disk.nodes == made.nodes)
      && (made.err.None? ==> CopyOutcome(made.nodes, disk.nodes, disk.denied, disk.readOnly, src, dst, err))
    ensures err.None? <==>
      && src in old(disk.nodes) && MkdirOk(old(disk.nodes), disk.readOnly, dst)
      && Copyable(old(disk.nodes), disk.denied, disk.readOnly, src, dst)
  {
    ghost var before := disk.nodes;
    var sfi := disk.Stat(src);
    if sfi.Err? {
      return Some(sfi.error);
    }
    MkdirAllSucceeds(before, disk.readOnly, dst, sfi.value.mode);
    err := disk.MkdirAll(dst, sfi.value.mode);
    if err.Some? {
      return;
    }
    MkdirKeepsCopyable(before, disk.nodes, disk.denied, disk.readOnly, src, dst, sfi.value.mode);
    err := CopyDir(disk, src, dst);
  }

  lemma InTreeTransitive(a: Path, b: Path, c: Path)
    requires InTree(a, b) && InTree(b, c)
    ensures InTree(a, c)
  {
    assert c[..|a|] == c[..|b|][..|a|];
  }

  /** Making `dst` and its parents changes nothing the copy reads or
      depends on, and leaves `dst` a directory whose parent is one. */
  lemma MkdirKeepsCopyable(m: map<Path, Node>, m': map<Path, Node>, denied: set<Path>, ro: set<Path>,
                           src: Path, dst: Path, mode: nat)
    requires WellFormed(m) && Disjoint(src, dst)
    requires MkdirAllSpec(m, ro, dst, mode) == Effect(m', None) && MkdirOk(m, ro, dst)
    ensures WellFormed(m') && Parent(dst) in m' && m'[Parent(dst)].Dir?
    ensures Copyable(m', denied, ro, src, dst) <==> Copyable(m, denied, ro, src, dst)
  {
    MkdirAllResult(m, ro, dst, mode);
    assert dst[..|dst|] == dst;
    var pd := Parent(dst);
    assert InTree(pd, dst) && pd == dst[..|pd|];
    forall q | InTree(src, q)
      ensures (q in m' <==> q in m) && (q in m ==> m'[q] == m[q])
    {
      if InTree(q, dst) { InTreeTransitive(src, q, dst); }
    }
    assert InTree(src, src);
    if src in m {
      forall q | q in m && InTree(src, q)
        ensures CopyableAt(m', denied, ro, src, dst, q) == CopyableAt(m, denied, ro, src, dst, q)
      {
        MkdirKeepsCopyableAt(m, m', denied, ro, src, dst, mode, q);
      }
    }
  }

  lemma MkdirKeepsCopyableAt(m: map<Path, Node>, m': map<Path, Node>, denied: set<Path>, ro: set<Path>,
                             src: Path, dst: Path, mode: nat, q: Path)
    requires forall p :: p in m' <==> p in m || InTree(p, dst)
    requires forall p :: p in m' ==> m'[p] == if p in m then m[p] else Dir(mode)
    requires dst in m' && m'[dst].Dir? && (dst in m ==> m[dst].Dir?)
    requires dst !in m ==> dst != [] && Parent(dst) !in ro
    requires q in m && InTree(src, q) && src in m
    ensures q in m' && ErrorAt(m', denied, ro, src, dst, q) == ErrorAt(m, denied, ro, src, dst, q)
  {
    var t := Target(src, dst, q);
    if q != src {
      assert !InTree(t, dst) by { assert |t| > |dst|; }
    } else {
      assert t == dst by { assert q[|src|..] == []; }
    }
  }

  /** `copyDir`: create `dst` with the permission bits of `src`, list `src`,
      and copy each entry (directories recursively, regular files with
      `CopyFile`, anything else skipped) in whatever order the listing
      gives, stopping at the first error. */
  method CopyDir(disk: Disk, src: Path, dst: Path) returns (err: Option<Error>)
    requires disk.Valid()
    requires Disjoint(src, dst)
    requires Parent(dst) in disk.nodes && disk.nodes[Parent(dst)].Dir?
    modifies disk`nodes
    ensures disk.Valid()
    ensures CopyOutcome(old(disk.nodes), disk.nodes, disk.denied, disk.readOnly, src, dst, err)
    decreases Subtree(disk.nodes, src), 2
  {
    ghost var before := disk.nodes;
    var fi := disk.Stat(src);
    if fi.Err? {
      err := Some(fi.error);
      MissingSource(before, disk.denied, disk.readOnly, src, dst, err);
      return;
    }
    MkdirOneLevel(disk.nodes, disk.readOnly, dst, fi.value.mode);
    err := disk.MkdirAll(dst, fi.value.mode);
    if err.Some? {
      MkdirFailed(before, disk.denied, disk.readOnly, src, dst, fi.value.mode, err);
      return;
    }
    MadeTarget(before, disk.nodes, src, dst);
    var infos := disk.ReadDir(src);
    if infos.Err? {
      err := Some(infos.error);
      ReadDirFailed(before, disk.nodes, disk.denied, disk.readOnly, src, dst, err);
      return;
    }
    StartCopyDir(before, disk.nodes, disk.denied, disk.readOnly, src, dst, infos.value);
    err := CopyEntries(disk, src, dst, infos.value, before);
  }

  /** The loop of `copyDir` over the listing of `src`, started once `dst`
      exists; `before` is the state `copyDir` started from. */
  method CopyEntries(disk: Disk, src: Path, dst: Path, listing: map<string, Node>, ghost before: map<Path, Node>)
    returns (err: Option<Error>)
    requires disk.Valid()
    requires CopyDirInvariant(before, disk.nodes, disk.denied, disk.readOnly, src, dst, listing, listing.Keys)
    modifies disk`nodes
    ensures disk.Valid()
    ensures CopyOutcome(before, disk.nodes, disk.denied, disk.readOnly, src, dst, err)
    decreases Subtree(before, src), 1
  {
    var rest := listing.Keys;
    while rest != {}
      invariant disk.Valid()
      invariant CopyDirInvariant(before, disk.nodes, disk.denied, disk.readOnly, src, dst, listing, rest)
      decreases rest
    {
      var name :| name in rest;
      ghost var now := disk.nodes;
      BeforeChild(before, now, disk.denied, disk.readOnly, src, dst, listing, rest, name);
      err := CopyChild(disk, src, dst, name, listing[name]);
      AfterChild(before, now, disk.nodes, disk.denied, disk.readOnly, src, dst, listing, rest, name, err);
      if err.Some? {
        return;
      }
      rest := rest - {name};
    }
    FinishCopyDir(before, disk.nodes, disk.denied, disk.readOnly, src, dst, listing);
    err := None;
  }

  /** One entry of the listing: a directory is copied recursively, a regular
      file with `CopyFile`, and anything else is skipped. */
  method CopyChild(disk: Disk, src: Path, dst: Path, n: string, kind: Node) returns (err: Option<Error>)
    requires disk.Valid()
    requires Disjoint(src + [n], dst + [n])
    requires src + [n] in disk.nodes && disk.nodes[src + [n]] == kind
    requires dst in disk.nodes && disk.nodes[dst].Dir?
    modifies disk`nodes
    ensures disk.Valid()
    ensures ChildCopied(old(disk.nodes), disk.nodes, disk.denied, disk.readOnly, src, dst, n, kind, err)
    decreases Subtree(disk.nodes, src + [n]), 3
  {
    assert Parent(dst + [n]) == dst;
    match kind {
      case Dir(_) =>
        err := CopyDir(disk, src + [n], dst + [n]);
      case Reg(_, _) =>
        assert InTree(src + [n], src + [n]);
        err := CopyFile(disk, src + [n], dst + [n]);
      case Other(_) =>
        err := None;
    }
  }

  // ---------------------------------------------------------------------
  // The loop of CopyDir: its invariant and the steps that keep it, out of
  // the method to keep each proof small.

  /** The state of `CopyDir` when the names in `rest` are still to be
      copied: every other child is fully copied and copyable, the children
      still to come are untouched, and `dst` is a directory. */
  ghost predicate CopyDirInvariant(before: map<Path, Node>, now: map<Path, Node>, denied: set<Path>, ro: set<Path>,
                                   src: Path, dst: Path, listing: map<string, Node>, rest: set<string>)
  {
    && CopyDirStart(before, denied, ro, src, dst, listing)
    && rest <= listing.Keys
    && dst in now && now[dst].Dir?
    && CopiedPart(before, now, src, dst)
    && CopyDirDone(before, now, denied, ro, src, dst, rest)
    && (forall p :: InTree(dst, p) && p != dst && p[|dst|] in rest ==>
          (p in now <==> p in before) && (p in before ==> now[p] == before[p]))
  }

  /** What holds of the state `copyDir` started from once it has listed
      `src`. */
  ghost predicate CopyDirStart(before: map<Path, Node>, denied: set<Path>, ro: set<Path>,
                               src: Path, dst: Path, listing: map<string, Node>)
  {
    && WellFormed(before)
    && Disjoint(src, dst)
    && src in before && InTree(src, src) && CopyableAt(before, denied, ro, src, dst, src)
    && (forall n :: n in listing <==> src + [n] in before)
    && (forall n :: n in listing ==> listing[n] == before[src + [n]])
    && (dst in before ==> before[dst].Dir?)
  }

  /** The children not in `rest` are copied in full and could be copied. */
  ghost predicate CopyDirDone(before: map<Path, Node>, now: map<Path, Node>, denied: set<Path>, ro: set<Path>,
                              src: Path, dst: Path, rest: set<string>)
  {
    && (forall p :: Planned(before, src, dst, p) && p != dst && p[|dst|] !in rest ==>
          p in now && now[p] == CopyOf(before, src, dst, p))
    && (forall q :: q in before && InTree(src, q) && q != src && q[|src|] !in rest ==>
          CopyableAt(before, denied, ro, src, dst, q))
  }

  /** What copying the child `n` of kind `kind` did, going from `now` to
      `after`, as `CopyDir` and `CopyFile` promise it. */
  ghost predicate ChildCopied(now: map<Path, Node>, after: map<Path, Node>, denied: set<Path>, ro: set<Path>,
                              src: Path, dst: Path, n: string, kind: Node, err: Option<Error>)
  {
    var s', d' := src + [n], dst + [n];
    match kind
    case Dir(_) =>
      CopyOutcome(now, after, denied, ro, s', d', err)
    case Reg(_, _) =>
      && s' in now
      && err == FileError(now, denied, ro, s', d')
      && (err.None? ==> after == now[d' := now[s']])
      && (err.Some? ==> after == now)
    case Other(_) =>
      after == now && err.None?
  }

  /** The root of the copy is where `copyDir` starts: its error is met
      first. */
  lemma RootError(m: map<Path, Node>, denied: set<Path>, ro: set<Path>, src: Path, dst: Path)
    requires src in m
    ensures InTree(src, src) && Target(src, dst, src) == dst
    ensures ErrorAt(m, denied, ro, src, dst, src) == DirError(m, denied, ro, src, dst)
  {
    assert src[|src|..] == [];
  }

  /** `copyDir` stops where `src` does not exist: nothing changed. */
  lemma MissingSource(m: map<Path, Node>, denied: set<Path>, ro: set<Path>, src: Path, dst: Path, err: Option<Error>)
    requires src !in m && err == Some(NotExist(src))
    ensures CopyOutcome(m, m, denied, ro, src, dst, err)
  {
    assert OthersSettled(m, m, src, dst, []);
  }

  /** `copyDir` stops where `dst` cannot be made: nothing changed, and the
      error is that of the root. */
  lemma MkdirFailed(m: map<Path, Node>, denied: set<Path>, ro: set<Path>, src: Path, dst: Path, mode: nat, err: Option<Error>)
    requires src in m
    requires dst != [] && Parent(dst) in m && m[Parent(dst)].Dir?
    requires MkdirAllSpec(m, ro, dst, mode).err == err && err.Some?
    ensures CopyOutcome(m, m, denied, ro, src, dst, err)
  {
    MkdirOneLevel(m, ro, dst, mode);
    RootError(m, denied, ro, src, dst);
    assert OthersSettled(m, m, src, dst, []);
  }

  /** `copyDir` stops where `src` cannot be listed: the error is that of
      the root, and only `dst` was made. */
  lemma ReadDirFailed(before: map<Path, Node>, now: map<Path, Node>, denied: set<Path>, ro: set<Path>, src: Path, dst: Path,
                      err: Option<Error>)
    requires src in before && !InTree(dst, src)
    requires dst in before ==> before[dst].Dir?
    requires dst !in before ==> dst != [] && Parent(dst) !in ro
    requires now == if dst in before then before else before[dst := Dir(before[src].mode)]
    requires ReadDirSpec(now, denied, src).Err? && err == Some(ReadDirSpec(now, denied, src).error)
    ensures CopyOutcome(before, now, denied, ro, src, dst, err)
  {
    MadeTarget(before, now, src, dst);
    RootError(before, denied, ro, src, dst);
    forall n ensures ChildUntouched(before, now, dst, n) {
      forall p | InTree(dst + [n], p) ensures p != dst { }
    }
    assert OthersSettled(before, now, src, dst, []);
  }

  /** Making `dst` as the first step of `copyDir` is part of the copy. */
  lemma MadeTarget(before: map<Path, Node>, now: map<Path, Node>, src: Path, dst: Path)
    requires src in before && !InTree(dst, src)
    requires now == if dst in before then before else before[dst := Dir(before[src].mode)]
    ensures CopiedPart(before, now, src, dst)
    ensures src in now && now[src] == before[src]
  {
    assert Source(src, dst, dst) == src by { assert dst[|dst|..] == []; }
    assert InTree(dst, dst);
  }

  lemma StartCopyDir(before: map<Path, Node>, now: map<Path, Node>, denied: set<Path>, ro: set<Path>,
                     src: Path, dst: Path, listing: map<string, Node>)
    requires WellFormed(before) && Disjoint(src, dst)
    requires src in before && before[src].Dir? && src !in denied
    requires dst in before ==> before[dst].Dir?
    requires dst !in before ==> dst != [] && Parent(dst) !in ro
    requires now == if dst in before then before else before[dst := Dir(before[src].mode)]
    requires listing == Listing(now, src)
    ensures CopyDirInvariant(before, now, denied, ro, src, dst, listing, listing.Keys)
  {
    RootError(before, denied, ro, src, dst);
    assert CopyableAt(before, denied, ro, src, dst, src);
    ListingCovers(before, now, src, dst, listing);
    assert Source(src, dst, dst) == src by { assert dst[|dst|..] == []; }
    assert now[dst] == CopyOf(before, src, dst, dst);
    forall p | InTree(dst, p) && p != dst && p[|dst|] in listing.Keys
      ensures (p in now <==> p in before) && (p in before ==> now[p] == before[p])
    {
    }
  }

  /** The listing of `src` names every child of `src`, so every node below
      `src` and every planned path below `dst` passes through one of them. */
  lemma ListingCovers(before: map<Path, Node>, now: map<Path, Node>, src: Path, dst: Path, listing: map<string, Node>)
    requires WellFormed(before) && Disjoint(src, dst) && src in before
    requires now == if dst in before then before else before[dst := Dir(before[src].mode)]
    requires listing == Listing(now, src)
    ensures forall n :: n in listing <==> src + [n] in before
    ensures forall n :: n in listing ==> listing[n] == before[src + [n]]
    ensures forall p :: Planned(before, src, dst, p) && p != dst ==> p[|dst|] in listing.Keys
    ensures forall q :: q in before && InTree(src, q) && q != src ==> q[|src|] in listing.Keys
  {
    forall n ensures (n in listing <==> src + [n] in before) && (n in listing ==> listing[n] == before[src + [n]]) {
      assert (src + [n])[..|src|] == src;
    }
    forall q | q in before && InTree(src, q) && q != src
      ensures src + [q[|src|]] in before
    {
      ChildOnTheWay(before, src, q);
    }
    forall p | Planned(before, src, dst, p) && p != dst
      ensures src + [p[|dst|]] in before
    {
      InChild(src, dst, p);
      var q := Source(src, dst, p);
      ChildOnTheWay(before, src, q);
      assert q[|src|] == p[|dst|];
    }
  }

  /** A node strictly below `src` lies below the child of `src` it passes
      through, which exists. */
  lemma ChildOnTheWay(m: map<Path, Node>, src: Path, q: Path)
    requires WellFormed(m) && q in m && InTree(src, q) && q != src
    ensures src + [q[|src|]] in m
  {
    PrefixExists(m, q, |src| + 1);
    assert q[..|src| + 1] == src + [q[|src|]];
  }

  /** Before the child `n` is copied: the state agrees with `before` where
      the child's copy reads and writes, and the child's source tree is
      smaller than that of `src`. */
  lemma BeforeChild(before: map<Path, Node>, now: map<Path, Node>, denied: set<Path>, ro: set<Path>,
                    src: Path, dst: Path, listing: map<string, Node>, rest: set<string>, n: string)
    requires CopyDirInvariant(before, now, denied, ro, src, dst, listing, rest) && n in rest
    ensures AgreeOnChild(before, now, src, dst, n)
    ensures Disjoint(src + [n], dst + [n])
    ensures src + [n] in now && now[src + [n]] == listing[n]
    ensures dst in now && now[dst].Dir?
    ensures Subtree(now, src + [n]) < Subtree(before, src)
  {
    AgreeBeforeChild(before, now, denied, ro, src, dst, listing, rest, n);
    ChildrenDisjoint(src, dst, n);
    ChildSubtreeSmaller(before, now, src, dst, n);
    assert InTree(src, src + [n]);
  }

  /** After the child `n` is copied: a failure ends the copy of `src` with
      its outcome, and a success keeps the loop's invariant. */
  lemma AfterChild(before: map<Path, Node>, now: map<Path, Node>, after: map<Path, Node>, denied: set<Path>, ro: set<Path>,
                   src: Path, dst: Path, listing: map<string, Node>, rest: set<string>, n: string, err: Option<Error>)
    requires CopyDirInvariant(before, now, denied, ro, src, dst, listing, rest) && n in rest
    requires AgreeOnChild(before, now, src, dst, n)
    requires ChildCopied(now, after, denied, ro, src, dst, n, listing[n], err)
    ensures err.Some? ==> CopyOutcome(before, after, denied, ro, src, dst, err)
    ensures err.None? ==> CopyDirInvariant(before, after, denied, ro, src, dst, listing, rest - {n})
  {
    AfterChildPart(before, now, after, denied, ro, src, dst, listing, rest, n, err);
    if err.Some? {
      AfterChildFailed(before, now, after, denied, ro, src, dst, listing, rest, n, err);
    } else {
      AfterChildDone(before, now, after, denied, ro, src, dst, listing, rest, n, err);
    }
  }

  lemma AgreeBeforeChild(before: map<Path, Node>, now: map<Path, Node>, denied: set<Path>, ro: set<Path>,
                         src: Path, dst: Path, listing: map<string, Node>, rest: set<string>, n: string)
    requires CopyDirInvariant(before, now, denied, ro, src, dst, listing, rest) && n in rest
    ensures AgreeOnChild(before, now, src, dst, n)
    ensures forall p :: p in now && !InTree(dst, p) ==> p in before
  {
    forall q | InTree(src, q) ensures (q in now <==> q in before) && (q in before ==> now[q] == before[q]) {
      if InTree(dst, q) { TreesMeet(src, dst, q); }
    }
    forall p | InTree(dst + [n], p) ensures (p in now <==> p in before) && (p in before ==> now[p] == before[p]) {
      FromChild(src, dst, n, p);
    }
  }

  /** Copying a child changes nothing outside the child's target tree. */
  lemma ChildStaysInside(now: map<Path, Node>, after: map<Path, Node>, denied: set<Path>, ro: set<Path>,
                         src: Path, dst: Path, n: string, kind: Node, err: Option<Error>)
    requires ChildCopied(now, after, denied, ro, src, dst, n, kind, err)
    ensures forall p :: p in now ==> p in after
    ensures forall p :: !InTree(dst + [n], p) ==> (p in now <==> p in after) && (p in now ==> after[p] == now[p])
  {
    var d' := dst + [n];
    forall p | !InTree(d', p) ensures (p in now <==> p in after) && (p in now ==> after[p] == now[p]) {
      if kind.Reg? {
        assert InTree(d', d') by { assert d'[..|d'|] == d'; }
      }
    }
  }

  /** The nodes the child's copy changed are copies as seen from `before`. */
  lemma ChildChangesAreCopies(before: map<Path, Node>, now: map<Path, Node>, after: map<Path, Node>, denied: set<Path>, ro: set<Path>,
                              src: Path, dst: Path, listing: map<string, Node>, rest: set<string>, n: string, err: Option<Error>)
    requires CopyDirInvariant(before, now, denied, ro, src, dst, listing, rest) && n in rest
    requires AgreeOnChild(before, now, src, dst, n)
    requires ChildCopied(now, after, denied, ro, src, dst, n, listing[n], err)
    ensures forall p :: InTree(dst + [n], p) && p in after && !(p in now && after[p] == now[p]) ==>
      Planned(before, src, dst, p) && after[p] == CopyOf(before, src, dst, p)
  {
    var s', d' := src + [n], dst + [n];
    forall p | InTree(d', p) && p in after && !(p in now && after[p] == now[p])
      ensures Planned(before, src, dst, p) && after[p] == CopyOf(before, src, dst, p)
    {
      FromChild(src, dst, n, p);
      if listing[n].Dir? {
        PlannedInChild(before, now, src, dst, n, p);
      } else {
        assert p == d';
        assert p[|dst|..] == [n];
        assert Source(src, dst, p) == s';
      }
    }
  }

  lemma AfterChildPart(before: map<Path, Node>, now: map<Path, Node>, after: map<Path, Node>, denied: set<Path>, ro: set<Path>,
                       src: Path, dst: Path, listing: map<string, Node>, rest: set<string>, n: string, err: Option<Error>)
    requires CopyDirInvariant(before, now, denied, ro, src, dst, listing, rest) && n in rest
    requires AgreeOnChild(before, now, src, dst, n)
    requires ChildCopied(now, after, denied, ro, src, dst, n, listing[n], err)
    ensures CopiedPart(before, after, src, dst)
    ensures dst in after && after[dst].Dir?
  {
    var d' := dst + [n];
    ChildStaysInside(now, after, denied, ro, src, dst, n, listing[n], err);
    ChildChangesAreCopies(before, now, after, denied, ro, src, dst, listing, rest, n, err);
    ChildInTree(dst, dst, n);
    assert !InTree(d', dst);
  }

  lemma AfterChildFailed(before: map<Path, Node>, now: map<Path, Node>, after: map<Path, Node>, denied: set<Path>, ro: set<Path>,
                         src: Path, dst: Path, listing: map<string, Node>, rest: set<string>, n: string, err: Option<Error>)
    requires CopyDirInvariant(before, now, denied, ro, src, dst, listing, rest) && n in rest
    requires AgreeOnChild(before, now, src, dst, n)
    requires ChildCopied(now, after, denied, ro, src, dst, n, listing[n], err)
    requires err.Some? && CopiedPart(before, after, src, dst)
    ensures CopyOutcome(before, after, denied, ro, src, dst, err)
  {
    var s', d' := src + [n], dst + [n];
    if listing[n].Dir? {
      var q :| q in now && InTree(s', q) && ErrorAt(now, denied, ro, s', d', q) == err;
      TargetOfChild(src, dst, n, q);
      ErrorInChild(before, now, denied, ro, src, dst, n, q);
    } else if listing[n].Reg? {
      FileErrorInChild(before, now, denied, ro, src, dst, n);
    }
    SiblingsSettled(before, now, after, denied, ro, src, dst, listing, rest, n, err);
  }

  /** When the copy of the child `n` ends, every other child is settled:
      those already copied are copied in full, those still to come are
      untouched. */
  lemma SiblingsSettled(before: map<Path, Node>, now: map<Path, Node>, after: map<Path, Node>, denied: set<Path>, ro: set<Path>,
                        src: Path, dst: Path, listing: map<string, Node>, rest: set<string>, n: string, err: Option<Error>)
    requires CopyDirInvariant(before, now, denied, ro, src, dst, listing, rest) && n in rest
    requires ChildCopied(now, after, denied, ro, src, dst, n, listing[n], err)
    ensures OthersSettled(before, after, src, dst, n)
  {
    ChildStaysInside(now, after, denied, ro, src, dst, n, listing[n], err);
    forall c | c != n && src + [c] in before
      ensures ChildDone(before, after, src, dst, c) || ChildUntouched(before, after, dst, c)
    {
      if c in rest {
        forall p | InTree(dst + [c], p)
          ensures (p in after <==> p in before) && (p in before ==> after[p] == before[p])
        {
          OtherChild(src, dst, c, n, p);
        }
        assert ChildUntouched(before, after, dst, c);
      } else {
        forall p | Planned(before, src, dst, p) && InTree(dst + [c], p)
          ensures p in after && after[p] == CopyOf(before, src, dst, p)
        {
          OtherChild(src, dst, c, n, p);
        }
        assert ChildDone(before, after, src, dst, c);
      }
    }
  }

  /** A path in the target tree of the child `c` is below `dst`, passes
      through `c`, and is outside the target tree of any other child. */
  lemma OtherChild(src: Path, dst: Path, c: string, n: string, p: Path)
    requires InTree(dst + [c], p) && c != n
    ensures InTree(dst, p) && p != dst && p[|dst|] == c && !InTree(dst + [n], p)
  {
    FromChild(src, dst, c, p);
    if InTree(dst + [n], p) {
      FromChild(src, dst, n, p);
    }
  }

  lemma AfterChildDone(before: map<Path, Node>, now: map<Path, Node>, after: map<Path, Node>, denied: set<Path>, ro: set<Path>,
                       src: Path, dst: Path, listing: map<string, Node>, rest: set<string>, n: string, err: Option<Error>)
    requires CopyDirInvariant(before, now, denied, ro, src, dst, listing, rest) && n in rest
    requires AgreeOnChild(before, now, src, dst, n)
    requires ChildCopied(now, after, denied, ro, src, dst, n, listing[n], err)
    requires err.None?
    requires CopiedPart(before, after, src, dst) && dst in after && after[dst].Dir?
    ensures CopyDirInvariant(before, after, denied, ro, src, dst, listing, rest - {n})
  {
    var s', d' := src + [n], dst + [n];
    ChildStaysInside(now, after, denied, ro, src, dst, n, listing[n], err);
    forall p | Planned(before, src, dst, p) && p != dst && p[|dst|] !in rest - {n}
      ensures p in after && after[p] == CopyOf(before, src, dst, p)
    {
      InChild(src, dst, p);
      if p[|dst|] == n {
        if listing[n].Dir? {
          PlannedInChild(before, now, src, dst, n, p);
        } else {
          OnlyChildItself(before, src, dst, n, p);
          if listing[n].Other? {
            assert false;
          }
        }
      }
    }
    forall p | InTree(dst, p) && p != dst && p[|dst|] in rest - {n}
      ensures (p in after <==> p in before) && (p in before ==> after[p] == before[p])
    {
      InChild(src, dst, p);
      if InTree(d', p) { FromChild(src, dst, n, p); }
    }
    forall q | q in before && InTree(src, q) && q != src && q[|src|] !in rest - {n}
      ensures CopyableAt(before, denied, ro, src, dst, q)
    {
      InChild(dst, src, q);
      if q[|src|] == n {
        if listing[n].Dir? {
          ErrorInChild(before, now, denied, ro, src, dst, n, q);
        } else {
          OnlyDirsHaveChildren(before, s', q);
          if listing[n].Reg? {
            FileErrorInChild(before, now, denied, ro, src, dst, n);
          }
        }
      }
    }
  }

  /** Below a node that is not a directory nothing exists, so the only
      planned path in its target tree is its own target. */
  lemma OnlyChildItself(m: map<Path, Node>, src: Path, dst: Path, n: string, p: Path)
    requires WellFormed(m)
    requires src + [n] in m && !m[src + [n]].Dir?
    requires InTree(dst + [n], p) && Planned(m, src, dst, p) && p != dst
    ensures p == dst + [n] && Source(src, dst, p) == src + [n] && !m[src + [n]].Other?
  {
    FromChild(src, dst, n, p);
    var q := Source(src, dst, p);
    OnlyDirsHaveChildren(m, src + [n], q);
    assert p[|dst|..] == [n];
  }

  lemma FinishCopyDir(before: map<Path, Node>, after: map<Path, Node>, denied: set<Path>, ro: set<Path>,
                      src: Path, dst: Path, listing: map<string, Node>)
    requires CopyDirInvariant(before, after, denied, ro, src, dst, listing, {})
    ensures CopyOutcome(before, after, denied, ro, src, dst, None)
  {
    assert Source(src, dst, dst) == src by { assert dst[|dst|..] == []; }
    assert Target(src, dst, src) == dst by { assert src[|src|..] == []; }
  }
}
