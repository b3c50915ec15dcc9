/** An abstract filesystem: the state that the operating-system calls of the
    tree copy, archive and restore code read and change, as a map from paths to
    nodes, and one method per call the code makes (`os.Stat`, `os.MkdirAll`,
    `os.Open` with `Readdir`, `os.Create`, writes, `os.Chmod`). */
module FileSystem {
  import opened Outcomes
  import Lexical

  newtype byte = b: int | 0 <= b < 256

  /** The permission bits `os.Create` gives a file it makes (0666; the
      process umask is not modelled). */
  const CreateMode: nat := 0x1B6

  /** A filesystem node as `Lstat` reports it. */
  datatype Node =
    | Dir(mode: nat)
    | Reg(mode: nat, data: seq<byte>)
    | Other(mode: nat)    // symbolic link, device, socket or named pipe

  function WithMode(n: Node, mode: nat): Node
  {
    match n
    case Dir(_) => Dir(mode)
    case Reg(_, data) => Reg(mode, data)
    case Other(_) => Other(mode)
  }

  /** `p` lies in the tree rooted at `root` (it is `root` or below it). */
  predicate InTree(root: Path, p: Path)
  {
    |root| <= |p| && p[..|root|] == root
  }

  function Parent(p: Path): Path
    requires p != []
  {
    p[..|p| - 1]
  }

  /** The nodes of the tree rooted at `root`. */
  ghost function Subtree(m: map<Path, Node>, root: Path): set<Path>
  {
    set q | q in m && InTree(root, q)
  }

  /** The tree of an entry of `p` is smaller than the tree of `p`. */
  lemma SubtreeShrinks(m: map<Path, Node>, p: Path, n: string)
    requires p in m
    ensures Subtree(m, p + [n]) < Subtree(m, p)
  {
    forall q | q in Subtree(m, p + [n]) ensures q in Subtree(m, p) {
      assert q[..|p|] == q[..|p| + 1][..|p|];
    }
    assert p in Subtree(m, p) && p !in Subtree(m, p + [n]);
  }

  /** The root is a directory and every other node sits in a directory. */
  ghost predicate WellFormed(m: map<Path, Node>)
  {
    && [] in m && m[[]].Dir?
    && forall p :: p in m && p != [] ==> Parent(p) in m && m[Parent(p)].Dir?
  }

  /** The names of the nodes directly inside `p`. */
  function Names(m: map<Path, Node>, p: Path): set<string>
  {
    set q | q in m && |q| == |p| + 1 && q[..|p|] == p :: q[|p|]
  }

  lemma ChildName(m: map<Path, Node>, p: Path, n: string)
    ensures n in Names(m, p) <==> p + [n] in m
  {
    if n in Names(m, p) {
      var q :| q in m && |q| == |p| + 1 && q[..|p|] == p && q[|p|] == n;
      assert q == p + [n];
    }
    if p + [n] in m {
      assert (p + [n])[..|p|] == p;
    }
  }

  /** What `Readdir` reports for directory `p`: each name inside it with the
      node found there (in no particular order). */
  function Listing(m: map<Path, Node>, p: Path): (l: map<string, Node>)
    ensures forall n :: n in l <==> p + [n] in m
    ensures forall n :: n in l ==> l[n] == m[p + [n]]
  {
    forall n ensures n in Names(m, p) <==> p + [n] in m { ChildName(m, p, n); }
    map n | n in Names(m, p) :: m[p + [n]]
  }

  /** The filesystem an operation leaves, and the error it ended with. */
  datatype Effect = Effect(nodes: map<Path, Node>, err: Option<Error>)

  /** `os.MkdirAll(p)` succeeds: every existing prefix of `p` (the root
      included) is a directory, and every missing one lies in a directory the
      process may write. */
  ghost predicate MkdirOk(m: map<Path, Node>, ro: set<Path>, p: Path)
  {
    && (forall i :: 0 <= i <= |p| && p[..i] in m ==> m[p[..i]].Dir?)
    && (forall i :: 0 <= i < |p| && p[..i + 1] !in m ==> p[..i] !in ro)
  }

  /** `os.MkdirAll(p, mode)`: nothing to do when `p` is already a directory,
      an error when it is something else, and otherwise the parent first,
      then `p` itself with `mode`, which the process may not do inside a
      directory of `ro`. The parents made before a refusal stay. */
  ghost function MkdirAllSpec(m: map<Path, Node>, ro: set<Path>, p: Path, mode: nat): Effect
    decreases |p|
  {
    if p in m then
      (if m[p].Dir? then Effect(m, None) else Effect(m, Some(NotDir(p))))
    else if p == [] then
      Effect(m[p := Dir(mode)], None)
    else
      var up := MkdirAllSpec(m, ro, Parent(p), mode);
      if up.err.Some? then up
      else if Parent(p) in ro then Effect(up.nodes, Some(Denied(p)))
      else Effect(up.nodes[p := Dir(mode)], None)
  }

  /** `os.MkdirAll` succeeds exactly when every existing prefix is a
      directory and every missing one can be made. */
  lemma {:induction false} MkdirAllSucceeds(m: map<Path, Node>, ro: set<Path>, p: Path, mode: nat)
    requires WellFormed(m)
    ensures MkdirAllSpec(m, ro, p, mode).err.None? <==> MkdirOk(m, ro, p)
    decreases |p|
  {
    if p in m {
      assert p[..|p|] == p;
      if m[p].Dir? {
        PrefixesAreDirs(m, p);
        forall j | 0 < j <= |p| ensures p[..j] in m {
          if j == |p| { assert p[..j] == p; }
        }
      }
    } else {
      var pp := Parent(p);
      MkdirAllSucceeds(m, ro, pp, mode);
      forall i | 0 <= i <= |pp| ensures p[..i] == pp[..i] { }
      assert p[..|p|] == p;
      assert p[..|pp| + 1] == p;
    }
  }

  /** Every prefix of an existing path is a directory, since it has a node
      below it. */
  lemma PrefixesAreDirs(m: map<Path, Node>, p: Path)
    requires WellFormed(m) && p in m
    ensures forall i :: 0 <= i < |p| ==> p[..i] in m && m[p[..i]].Dir?
  {
    forall i | 0 <= i < |p| ensures p[..i] in m && m[p[..i]].Dir? {
      PrefixExists(m, p, i + 1);
      assert Parent(p[..i + 1]) == p[..i];
    }
  }

  /** `os.MkdirAll` only adds missing prefixes of `p`, as directories with
      `mode`, keeps every existing node and keeps the filesystem well formed;
      when it succeeds it has added all of them. */
  lemma {:induction false} MkdirAllResult(m: map<Path, Node>, ro: set<Path>, p: Path, mode: nat)
    requires WellFormed(m)
    ensures
      var r := MkdirAllSpec(m, ro, p, mode);
      && WellFormed(r.nodes)
      && (forall q :: q in m ==> q in r.nodes)
      && (forall q :: q in r.nodes ==> q in m || InTree(q, p))
      && (forall q :: q in r.nodes ==> r.nodes[q] == if q in m then m[q] else Dir(mode))
      && (r.err.None? ==> p in r.nodes && r.nodes[p].Dir? && forall q :: InTree(q, p) ==> q in r.nodes)
    decreases |p|
  {
    var r := MkdirAllSpec(m, ro, p, mode);
    if p in m {
      forall q | InTree(q, p) ensures q in m {
        PrefixExists(m, p, |q|);
      }
    } else {
      var pp := Parent(p);
      MkdirAllResult(m, ro, pp, mode);
      forall q | InTree(q, pp) ensures InTree(q, p) { }
      if r.err.None? {
        forall q | InTree(q, p) && q != p ensures InTree(q, pp) { }
      }
    }
  }

  /** `os.MkdirAll` of a path whose parent is a directory makes at most that
      one directory, and changes nothing when it fails. */
  lemma MkdirOneLevel(m: map<Path, Node>, ro: set<Path>, p: Path, mode: nat)
    requires p != [] && Parent(p) in m && m[Parent(p)].Dir?
    ensures MkdirAllSpec(m, ro, p, mode) ==
      if p in m then (if m[p].Dir? then Effect(m, None) else Effect(m, Some(NotDir(p))))
      else if Parent(p) in ro then Effect(m, Some(Denied(p)))
      else Effect(m[p := Dir(mode)], None)
  {
  }

  /** In a well-formed filesystem every prefix of an existing path exists. */
  lemma {:induction false} PrefixExists(m: map<Path, Node>, p: Path, i: nat)
    requires WellFormed(m) && p in m && i <= |p|
    ensures p[..i] in m
    decreases |p| - i
  {
    if i < |p| {
      PrefixExists(m, p, i + 1);
      assert Parent(p[..i + 1]) == p[..i];
    } else {
      assert p[..i] == p;
    }
  }

  /** A path inside the tree of the child `n` of `p` is inside the tree of
      `p`, below `p` itself, on the way through `n`. */
  lemma InChildTree(p: Path, n: string, q: Path)
    requires InTree(p + [n], q)
    ensures InTree(p, q) && q != p && q[|p|] == n
  {
    assert q[..|p|] == (p + [n])[..|p|];
    assert q[|p|] == (p + [n])[|p|];
  }

  /** In a well-formed filesystem only directories have nodes below them. */
  lemma OnlyDirsHaveChildren(m: map<Path, Node>, r: Path, q: Path)
    requires WellFormed(m) && r in m && q in m && InTree(r, q)
    ensures q != r ==> m[r].Dir?
  {
    if q != r {
      PrefixExists(m, q, |r| + 1);
      assert Parent(q[..|r| + 1]) == r;
    }
  }

  /** `os.Open(p)` followed by `Readdir(-1)`. */
  function ReadDirSpec(m: map<Path, Node>, denied: set<Path>, p: Path): Result<map<string, Node>>
  {
    if p !in m then Err(NotExist(p))
    else if p in denied then Err(Denied(p))
    else if !m[p].Dir? then Err(NotDir(p))
    else Ok(Listing(m, p))
  }

  /** `os.Open(p)` followed by reading the whole file. */
  function ReadFileSpec(m: map<Path, Node>, denied: set<Path>, p: Path): Result<seq<byte>>
  {
    if p !in m then Err(NotExist(p))
    else if p in denied then Err(Denied(p))
    else match m[p]
      case Reg(_, data) => Ok(data)
      case Dir(_) => Err(IsDir(p))
      case Other(_) => Err(NotRegular(p))
  }

  /** Some prefix of `q` is in the way of reaching inside it: the deepest
      prefix that exists (`q` itself included) is not a directory. */
  function Blocked(m: map<Path, Node>, q: Path): bool
    decreases |q|
  {
    if q in m then !m[q].Dir? else q != [] && Blocked(m, Parent(q))
  }

  /** In a well-formed filesystem, `q` is blocked exactly when one of its
      prefixes is a node other than a directory. */
  lemma {:induction false} BlockedMeaning(m: map<Path, Node>, q: Path)
    requires WellFormed(m)
    ensures Blocked(m, q) <==> exists i :: 0 <= i <= |q| && q[..i] in m && !m[q[..i]].Dir?
    decreases |q|
  {
    if q in m {
      assert q[..|q|] == q;
      PrefixesAreDirs(m, q);
    } else if q != [] {
      var pq := Parent(q);
      BlockedMeaning(m, pq);
      if Blocked(m, pq) {
        var i :| 0 <= i <= |pq| && pq[..i] in m && !m[pq[..i]].Dir?;
        assert q[..i] == pq[..i];
      } else {
        assert q[..|q|] == q;
        forall i | 0 <= i < |q| && q[..i] in m ensures m[q[..i]].Dir? {
          assert q[..i] == pq[..i];
        }
      }
    }
  }

  /** `os.Create(p)`: truncate an existing regular file, keeping its mode, or
      make an empty one with `CreateMode` inside an existing directory; the
      process may not truncate a file of `ro` nor make one inside a directory
      of `ro`. A missing directory on the way is not found, unless a node
      that is not a directory is in the way. */
  function CreateSpec(m: map<Path, Node>, ro: set<Path>, p: Path): Result<map<Path, Node>>
  {
    if p in m then
      match m[p]
      case Reg(mode, _) => if p in ro then Err(Denied(p)) else Ok(m[p := Reg(mode, [])])
      case Dir(_) => Err(IsDir(p))
      case Other(_) => Err(NotRegular(p))
    else if p == [] then Err(NotExist(p))
    else if Blocked(m, Parent(p)) then Err(NotDir(p))
    else if Parent(p) !in m then Err(NotExist(p))
    else if Parent(p) in ro then Err(Denied(p))
    else Ok(m[p := Reg(CreateMode, [])])
  }

  /** `os.Create` succeeds exactly on a regular file it may write or a new
      name inside a directory it may write, and the result is a well-formed
      filesystem with an empty regular file at `p`. */
  lemma CreateMeaning(m: map<Path, Node>, ro: set<Path>, p: Path)
    requires WellFormed(m)
    ensures CreateSpec(m, ro, p).Ok? <==>
      if p in m then m[p].Reg? && p !in ro
      else p != [] && Parent(p) in m && m[Parent(p)].Dir? && Parent(p) !in ro
    ensures CreateSpec(m, ro, p).Ok? ==>
      var m' := CreateSpec(m, ro, p).value;
      WellFormed(m') && m'.Keys == m.Keys + {p} && m'[p].Reg? && m'[p].data == []
      && m'[p].mode == (if p in m then m[p].mode else CreateMode)
      && forall q :: q in m && q != p ==> m'[q] == m[q]
  {
  }

  /** The operating system as the copy, archive and restore code see it:
      the nodes, the paths whose opening for reading is refused, and the
      paths the process may not write: nothing can be made inside a
      directory of `readOnly`, and a regular file of `readOnly` cannot be
      opened for writing. `readOnly` may name paths that do not exist yet,
      such as a directory a copy will make without write permission. */
  class Disk {
    var nodes: map<Path, Node>
    var denied: set<Path>
    var readOnly: set<Path>

    ghost predicate Valid()
      reads this
    {
      WellFormed(nodes)
    }

    constructor (nodes0: map<Path, Node>, denied0: set<Path>, readOnly0: set<Path>)
      requires WellFormed(nodes0)
      ensures Valid() && nodes == nodes0 && denied == denied0 && readOnly == readOnly0
    {
      nodes, denied, readOnly := nodes0, denied0, readOnly0;
    }

    /** `os.Stat` (and `os.Lstat`: links are never followed here). */
    method Stat(p: Path) returns (r: Result<Node>)
      ensures r.Ok? <==> p in nodes
      ensures r.Ok? ==> r.value == nodes[p]
      ensures r.Err? ==> r.error == NotExist(p)
    {
      if p in nodes {
        r := Ok(nodes[p]);
      } else {
        r := Err(NotExist(p));
      }
    }

    method MkdirAll(p: Path, mode: nat) returns (err: Option<Error>)
      requires Valid()
      modifies this`nodes
      ensures Valid()
      ensures MkdirAllSpec(old(nodes), readOnly, p, mode) == Effect(nodes, err)
      decreases |p|
    {
      MkdirAllResult(nodes, readOnly, p, mode);
      if p in nodes {
        if nodes[p].Dir? {
          return None;
        }
        return Some(NotDir(p));
      }
      err := MkdirAll(Parent(p), mode);
      if err.Some? {
        return;
      }
      if Parent(p) in readOnly {
        return Some(Denied(p));
      }
      nodes := nodes[p := Dir(mode)];
    }

    method ReadDir(p: Path) returns (r: Result<map<string, Node>>)
      ensures r == ReadDirSpec(nodes, denied, p)
    {
      if p !in nodes {
        return Err(NotExist(p));
      } else if p in denied {
        return Err(Denied(p));
      } else if !nodes[p].Dir? {
        return Err(NotDir(p));
      }
      return Ok(Listing(nodes, p));
    }

    /** `readDirNames` of `filepath.Walk`: the names inside `p`, sorted. */
    method ReadDirNames(p: Path) returns (r: Result<seq<string>>)
      ensures ReadDirSpec(nodes, denied, p).Err? ==> r == Err(ReadDirSpec(nodes, denied, p).error)
      ensures ReadDirSpec(nodes, denied, p).Ok? ==>
        r == Ok(Lexical.Sorted(ReadDirSpec(nodes, denied, p).value.Keys))
    {
      var l := ReadDir(p);
      if l.Err? {
        return Err(l.error);
      }
      var rest := l.value.Keys;
      var names: seq<string> := [];
      while rest != {}
        invariant names + Lexical.Sorted(rest) == Lexical.Sorted(l.value.Keys)
        decreases rest
      {
        Lexical.LeastExists(rest);
        var least :| Lexical.IsLeast(least, rest);
        Lexical.LeastUnique(least, Lexical.Least(rest), rest);
        names := names + [least];
        rest := rest - {least};
      }
      assert Lexical.Sorted(rest) == [] && names + [] == names;
      return Ok(names);
    }

    method ReadFile(p: Path) returns (r: Result<seq<byte>>)
      ensures r == ReadFileSpec(nodes, denied, p)
    {
      if p !in nodes {
        return Err(NotExist(p));
      } else if p in denied {
        return Err(Denied(p));
      }
      match nodes[p]
      case Reg(_, data) => return Ok(data);
      case Dir(_) => return Err(IsDir(p));
      case Other(_) => return Err(NotRegular(p));
    }

    method Create(p: Path) returns (err: Option<Error>)
      requires Valid()
      modifies this`nodes
      ensures Valid()
      ensures CreateSpec(old(nodes), readOnly, p) == if err.None? then Ok(nodes) else Err(err.value)
      ensures err.Some? ==> nodes == old(nodes)
    {
      CreateMeaning(nodes, readOnly, p);
      var c := CreateSpec(nodes, readOnly, p);
      if c.Err? {
        return Some(c.error);
      }
      nodes := c.value;
      return None;
    }

    /** A write through an open handle of the regular file `p`: the bytes
        go after those already there. */
    method Write(p: Path, data: seq<byte>)
      requires Valid() && p in nodes && nodes[p].Reg?
      modifies this`nodes
      ensures Valid()
      ensures nodes == old(nodes)[p := Reg(old(nodes)[p].mode, old(nodes)[p].data + data)]
    {
      nodes := nodes[p := Reg(nodes[p].mode, nodes[p].data + data)];
    }

    method Chmod(p: Path, mode: nat) returns (err: Option<Error>)
      requires Valid()
      modifies this`nodes
      ensures Valid()
      ensures p in old(nodes) ==> err == None && nodes == old(nodes)[p := WithMode(old(nodes)[p], mode)]
      ensures p !in old(nodes) ==> err == Some(NotExist(p)) && nodes == old(nodes)
    {
      if p !in nodes {
        return Some(NotExist(p));
      }
      nodes := nodes[p := WithMode(nodes[p], mode)];
      return None;
    }
  }
}
