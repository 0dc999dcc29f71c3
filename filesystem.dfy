/** The two filesystems the copy engine touches. The source tree is an
    immutable value read by `setup` and `copy_dir_recursive`; the destination
    is a map from paths to items, changed by `fs::create_dir_all` and
    `fs::copy`. This module gives the effect of those two primitives and of a
    sequence of them run until the first failure, the way `?` propagates it. */
module FileSystem {

  import opened Wrappers
  import opened Sequences

  newtype byte = x: int | 0 <= x < 256

  datatype ErrorKind = NotFound | PermissionDenied | AlreadyExists | IsADirectory | InvalidData | Other

  /** An `io::Error`: its kind and the text it displays. */
  datatype IoError = IoError(kind: ErrorKind, message: string)

  /** A file name as the OS reports it: `Utf` when `OsStr::to_str` succeeds,
      `Raw` (the UTF-16 units) when the name is not valid Unicode. */
  datatype OsName = Utf(text: string) | Raw(units: seq<int>)

  /** A path as its sequence of components. */
  type Path = seq<OsName>

  /** A source tree. `fault` is the error a file gives when it is opened
      (locked or unreadable); a `LockedDir` is a directory whose listing fails. */
  datatype Node =
    | File(data: seq<byte>, fault: Option<IoError>)
    | Dir(entries: seq<Entry>)
    | LockedDir(error: IoError)

  /** One item of a directory listing: `Ok(DirEntry)` or `Err(io::Error)`. */
  datatype Entry = Entry(name: OsName, node: Node) | Unreadable(error: IoError)

  /** A real directory never lists two entries under one name. */
  predicate WellFormed(n: Node)
    decreases n
  {
    match n
    case Dir(es) =>
      (forall i, j :: 0 <= i < j < |es| && es[i].Entry? && es[j].Entry? ==> es[i].name != es[j].name)
      && (forall i :: 0 <= i < |es| && es[i].Entry? ==> WellFormed(es[i].node))
    case _ => true
  }

  datatype Item = Folder | Blob(data: seq<byte>)

  /** The destination: what exists at each path. The root `[]` always exists
      and is not listed. */
  type Items = map<Path, Item>

  /** Paths at which the OS refuses to create a directory or a file, with the
      error it reports when it opens or creates the item there (permissions
      and the like). */
  type Denied = map<Path, IoError>

  predicate IsFolder(items: Items, p: Path) {
    p in items && items[p].Folder?
  }

  /** `p` is listed in the destination. */
  predicate Listed(items: Items, p: Path) {
    p in items
  }

  /** Every listed path hangs under an existing directory. */
  ghost predicate ValidItems(items: Items) {
    [] !in items
    && forall p {:trigger Listed(items, p)} :: Listed(items, p) && |p| > 1 ==> IsFolder(items, p[..|p| - 1])
  }

  /** The filesystem operations `copy_dir_recursive` issues. `Abort` is a
      failing `fs::read_dir` of the source. */
  datatype Op =
    | MakeDirs(path: Path)
    | CopyFile(path: Path, data: seq<byte>, fault: Option<IoError>)
    | Abort(error: IoError)

  datatype Effect = Effect(items: Items, outcome: Outcome<IoError>)

  const FileInTheWay := IoError(AlreadyExists, "a file exists where a directory is needed")
  const TargetIsDirectory := IoError(IsADirectory, "the copy target is a directory")
  const ParentMissing := IoError(NotFound, "the parent directory does not exist")

  /** `fs::create_dir_all(p)`, from component `k` on: each missing prefix is
      created, shortest first; an existing directory is accepted, an existing
      file or a refusal stops the call, and what was created before stays. */
  function MakeDirsFrom(items: Items, denied: Denied, p: Path, k: nat): Effect
    requires k <= |p|
    decreases |p| - k
  {
    if k == |p| then Effect(items, Pass)
    else
      var q := p[..k + 1];
      if q in items then
        if items[q].Folder? then MakeDirsFrom(items, denied, p, k + 1)
        else Effect(items, Fail(FileInTheWay))
      else if q in denied then Effect(items, Fail(denied[q]))
      else MakeDirsFrom(items[q := Folder], denied, p, k + 1)
  }

  /** `create_dir_all` never changes an existing item. */
  lemma {:induction false} MakeDirsKeeps(items: Items, denied: Denied, p: Path, k: nat)
    requires k <= |p|
    ensures var e := MakeDirsFrom(items, denied, p, k);
      forall q :: q in items ==> q in e.items && e.items[q] == items[q]
    decreases |p| - k
  {
    if k < |p| {
      var q := p[..k + 1];
      if q in items {
        if items[q].Folder? {
          MakeDirsKeeps(items, denied, p, k + 1);
        }
      } else if q !in denied {
        MakeDirsKeeps(items[q := Folder], denied, p, k + 1);
      }
    }
  }

  /** `create_dir_all` creates only directories on the way to `p`. */
  lemma {:induction false} MakeDirsCreates(items: Items, denied: Denied, p: Path, k: nat)
    requires k <= |p|
    ensures var e := MakeDirsFrom(items, denied, p, k);
      forall q :: q in e.items && q !in items ==> IsPrefix(q, p) && k < |q| && e.items[q] == Folder
    decreases |p| - k
  {
    if k < |p| {
      var q := p[..k + 1];
      if q in items {
        if items[q].Folder? {
          MakeDirsCreates(items, denied, p, k + 1);
        }
      } else if q !in denied {
        var next := items[q := Folder];
        MakeDirsCreates(next, denied, p, k + 1);
        MakeDirsKeeps(next, denied, p, k + 1);
        CreatedOnTheWay(items, q, MakeDirsFrom(next, denied, p, k + 1).items, p, k);
      }
    }
  }

  /** The bookkeeping step of `MakeDirsCreates`: the directory created at
      `p[..k + 1]` and those created after it are all on the way to `p`. */
  lemma CreatedOnTheWay(items: Items, q: Path, fin: Items, p: Path, k: nat)
    requires k < |p| && q == p[..k + 1]
    requires forall r :: r in items[q := Folder] ==> r in fin && fin[r] == items[q := Folder][r]
    requires forall r :: r in fin && r !in items[q := Folder] ==> IsPrefix(r, p) && k + 1 < |r| && fin[r] == Folder
    ensures forall r :: r in fin && r !in items ==> IsPrefix(r, p) && k < |r| && fin[r] == Folder
  {
    assert IsPrefix(q, p);
  }

  /** A successful `create_dir_all(p)` leaves every prefix of `p` a directory. */
  lemma {:induction false} MakeDirsSucceeds(items: Items, denied: Denied, p: Path, k: nat)
    requires k <= |p|
    requires MakeDirsFrom(items, denied, p, k).outcome.Pass?
    ensures forall j :: k < j <= |p| ==> IsFolder(MakeDirsFrom(items, denied, p, k).items, p[..j])
    decreases |p| - k
  {
    if k < |p| {
      var q := p[..k + 1];
      var next := if q in items then items else items[q := Folder];
      MakeDirsSucceeds(next, denied, p, k + 1);
      MakeDirsKeeps(next, denied, p, k + 1);
    }
  }

  /** `fs::copy(source, p)`: fails when the source cannot be read, when `p` is
      a directory, when `p`'s parent is not a directory, or when the OS refuses;
      otherwise `p` holds the source's bytes, replacing any file there. */
  function CopyInto(items: Items, denied: Denied, p: Path, data: seq<byte>, fault: Option<IoError>): (e: Effect)
    ensures e.outcome.Pass? ==> e.items == items[p := Blob(data)]
    ensures e.outcome.Fail? ==> e.items == items
    ensures e.outcome.Pass? <==>
      fault.None? && p != [] && !IsFolder(items, p)
      && (|p| > 1 ==> IsFolder(items, p[..|p| - 1])) && p !in denied
  {
    if fault.Some? then Effect(items, Fail(fault.value))
    else if p == [] || IsFolder(items, p) then Effect(items, Fail(TargetIsDirectory))
    else if |p| > 1 && !IsFolder(items, p[..|p| - 1]) then Effect(items, Fail(ParentMissing))
    else if p in denied then Effect(items, Fail(denied[p]))
    else Effect(items[p := Blob(data)], Pass)
  }

  function Step(op: Op, items: Items, denied: Denied): Effect {
    match op
    case MakeDirs(p) => MakeDirsFrom(items, denied, p, 0)
    case CopyFile(p, data, fault) => CopyInto(items, denied, p, data, fault)
    case Abort(e) => Effect(items, Fail(e))
  }

  /** `op` may create or change the item at `q`. */
  predicate Touches(op: Op, q: Path) {
    (op.MakeDirs? && IsPrefix(q, op.path)) || (op.CopyFile? && q == op.path)
  }

  /** The operations run in order until the first failure, which is returned
      with the state reached at that point. */
  function Run(ops: seq<Op>, items: Items, denied: Denied): Effect
    decreases |ops|
  {
    if ops == [] then Effect(items, Pass)
    else
      var e := Step(ops[0], items, denied);
      if e.outcome.Fail? then e else Run(ops[1..], e.items, denied)
  }

  /** Running `a + b` runs `a`, then `b` from where `a` left off unless `a`
      failed. */
  lemma {:induction false} RunAppend(a: seq<Op>, b: seq<Op>, items: Items, denied: Denied)
    ensures Run(a + b, items, denied)
         == (var e := Run(a, items, denied); if e.outcome.Fail? then e else Run(b, e.items, denied))
    decreases |a|
  {
    if a == [] {
      assert a + b == b;
    } else {
      assert (a + b)[1..] == a[1..] + b;
      var e := Step(a[0], items, denied);
      if e.outcome.Pass? {
        RunAppend(a[1..], b, e.items, denied);
      }
    }
  }

  /** The run of `ops` failed at operation `k`: the operations before `k`
      all succeeded, and the result is what `ops[k]` made of the state they
      left. */
  predicate FailsAt(ops: seq<Op>, items: Items, denied: Denied, k: nat) {
    k < |ops|
    && Run(ops[..k], items, denied).outcome.Pass?
    && Run(ops, items, denied) == Step(ops[k], Run(ops[..k], items, denied).items, denied)
  }

  /** A failed run stopped at its first failing operation: no work past it is
      done, and the work before it stays done. */
  lemma {:induction false} RunStopsAtFirstFailure(ops: seq<Op>, items: Items, denied: Denied)
    requires Run(ops, items, denied).outcome.Fail?
    ensures exists k: nat :: FailsAt(ops, items, denied, k)
    decreases |ops|
  {
    assert ops[..0] == [];
    var e := Step(ops[0], items, denied);
    if e.outcome.Fail? {
      assert FailsAt(ops, items, denied, 0);
    } else {
      RunStopsAtFirstFailure(ops[1..], e.items, denied);
      var k: nat :| FailsAt(ops[1..], e.items, denied, k);
      var done := ops[..k + 1];
      assert done == [ops[0]] + ops[1..][..k];
      assert done[0] == ops[0] && done[1..] == ops[1..][..k];
      assert Run(done, items, denied) == Run(ops[1..][..k], e.items, denied);
      assert ops[1..][k] == ops[k + 1];
      assert Run(ops, items, denied) == Run(ops[1..], e.items, denied);
      assert FailsAt(ops, items, denied, k + 1);
    }
  }

  /** A run never removes an item and never turns a directory into anything
      else: what a failed copy created before failing remains. */
  lemma {:induction false} RunKeeps(ops: seq<Op>, items: Items, denied: Denied)
    ensures var e := Run(ops, items, denied);
      (forall q :: q in items ==> q in e.items)
      && (forall q :: IsFolder(items, q) ==> IsFolder(e.items, q))
    decreases |ops|
  {
    if ops != [] {
      var s := Step(ops[0], items, denied);
      if ops[0].MakeDirs? {
        MakeDirsKeeps(items, denied, ops[0].path, 0);
      }
      if s.outcome.Pass? {
        RunKeeps(ops[1..], s.items, denied);
      }
    }
  }

  /** What a run changes: an item that existed is changed only by a copy to
      its path, and a new item is created by an operation that touches it. */
  lemma {:induction false} RunChanges(ops: seq<Op>, items: Items, denied: Denied)
    ensures var e := Run(ops, items, denied);
      (forall q :: q in items ==> q in e.items)
      && (forall q :: q in items && e.items[q] != items[q] ==>
         exists k :: 0 <= k < |ops| && ops[k].CopyFile? && ops[k].path == q)
      && (forall q :: q in e.items && q !in items ==>
         exists k :: 0 <= k < |ops| && Touches(ops[k], q))
    decreases |ops|
  {
    RunKeeps(ops, items, denied);
    if ops != [] {
      var s := Step(ops[0], items, denied);
      if ops[0].MakeDirs? {
        MakeDirsKeeps(items, denied, ops[0].path, 0);
        MakeDirsCreates(items, denied, ops[0].path, 0);
      }
      if s.outcome.Pass? {
        RunKeeps(ops[1..], s.items, denied);
        RunChanges(ops[1..], s.items, denied);
        var e := Run(ops[1..], s.items, denied);
        forall q | q in items && e.items[q] != items[q]
          ensures exists k :: 0 <= k < |ops| && ops[k].CopyFile? && ops[k].path == q
        {
          if e.items[q] != s.items[q] {
            var k :| 0 <= k < |ops[1..]| && ops[1..][k].CopyFile? && ops[1..][k].path == q;
            assert ops[k + 1] == ops[1..][k];
          } else {
            assert ops[0].CopyFile? && ops[0].path == q;
          }
        }
        forall q | q in e.items && q !in items
          ensures exists k :: 0 <= k < |ops| && Touches(ops[k], q)
        {
          if q !in s.items {
            var k :| 0 <= k < |ops[1..]| && Touches(ops[1..][k], q);
            assert ops[k + 1] == ops[1..][k];
          } else {
            assert Touches(ops[0], q);
          }
        }
      } else {
        forall q | q in s.items && q !in items
          ensures exists k :: 0 <= k < |ops| && Touches(ops[k], q)
        {
          assert Touches(ops[0], q);
        }
      }
    }
  }

  /** Putting an item at a path under an existing directory keeps the
      destination well formed, unless it turns a directory into a file. */
  lemma AddKeepsValid(items: Items, q: Path, it: Item)
    requires ValidItems(items) && q != []
    requires |q| > 1 ==> IsFolder(items, q[..|q| - 1])
    requires IsFolder(items, q) ==> it.Folder?
    ensures ValidItems(items[q := it])
  {
    var next := items[q := it];
    forall p | Listed(next, p) && |p| > 1
      ensures IsFolder(next, p[..|p| - 1])
    {
      if p != q {
        assert Listed(items, p);
      }
    }
  }

  /** Creating directories keeps every listed path under an existing
      directory. */
  lemma {:induction false} MakeDirsFromValid(items: Items, denied: Denied, p: Path, k: nat)
    requires k <= |p| && ValidItems(items)
    requires k > 0 ==> IsFolder(items, p[..k])
    ensures ValidItems(MakeDirsFrom(items, denied, p, k).items)
    decreases |p| - k
  {
    if k < |p| {
      var q := p[..k + 1];
      if q in items {
        if items[q].Folder? {
          MakeDirsFromValid(items, denied, p, k + 1);
        }
      } else if q !in denied {
        assert q[..|q| - 1] == p[..k];
        AddKeepsValid(items, q, Folder);
        var next := items[q := Folder];
        assert IsFolder(next, p[..k + 1]);
        MakeDirsFromValid(next, denied, p, k + 1);
      }
    }
  }

  /** Every run keeps the destination well formed. */
  lemma {:induction false} RunValid(ops: seq<Op>, items: Items, denied: Denied)
    requires ValidItems(items)
    ensures ValidItems(Run(ops, items, denied).items)
    decreases |ops|
  {
    if ops != [] {
      var s := Step(ops[0], items, denied);
      if ops[0].MakeDirs? {
        MakeDirsFromValid(items, denied, ops[0].path, 0);
      } else if ops[0].CopyFile? && s.outcome.Pass? {
        AddKeepsValid(items, ops[0].path, Blob(ops[0].data));
      }
      if s.outcome.Pass? {
        RunValid(ops[1..], s.items, denied);
      }
    }
  }

  /** Under a well-formed destination every ancestor of a directory is a
      directory. */
  lemma {:induction false} AncestorsAreFolders(items: Items, p: Path)
    requires ValidItems(items) && IsFolder(items, p)
    ensures forall j :: 0 < j <= |p| ==> IsFolder(items, p[..j])
    decreases |p|
  {
    assert p[..|p|] == p;
    if |p| > 1 {
      var up := p[..|p| - 1];
      assert Listed(items, p);
      AncestorsAreFolders(items, up);
      forall j | 0 < j < |p|
        ensures IsFolder(items, p[..j])
      {
        assert up[..j] == p[..j];
      }
    }
  }

  /** `create_dir_all` of a directory that already exists does nothing and
      succeeds. */
  lemma {:induction false} MakeDirsSettled(items: Items, denied: Denied, p: Path, k: nat)
    requires k <= |p| && ValidItems(items)
    requires forall j :: k < j <= |p| ==> IsFolder(items, p[..j])
    ensures MakeDirsFrom(items, denied, p, k) == Effect(items, Pass)
    decreases |p| - k
  {
    if k < |p| {
      assert IsFolder(items, p[..k + 1]);
      MakeDirsSettled(items, denied, p, k + 1);
    }
  }

  /** A run in which every operation, taken alone, leaves the state as it is
      and succeeds, leaves it as it is and succeeds. */
  lemma {:induction false} RunSettled(ops: seq<Op>, items: Items, denied: Denied)
    requires forall k :: 0 <= k < |ops| ==> Step(ops[k], items, denied) == Effect(items, Pass)
    ensures Run(ops, items, denied) == Effect(items, Pass)
    decreases |ops|
  {
    if ops != [] {
      assert Step(ops[0], items, denied) == Effect(items, Pass);
      forall k | 0 <= k < |ops| - 1
        ensures Step(ops[1..][k], items, denied) == Effect(items, Pass)
      {
        assert ops[1..][k] == ops[k + 1];
      }
      RunSettled(ops[1..], items, denied);
    }
  }

  /** A run that succeeded wrote no file where the OS refuses one. */
  lemma {:induction false} RunPassNotDenied(ops: seq<Op>, items: Items, denied: Denied)
    requires Run(ops, items, denied).outcome.Pass?
    ensures forall k :: 0 <= k < |ops| && ops[k].CopyFile? ==> ops[k].path !in denied
    decreases |ops|
  {
    if ops != [] {
      var e := Step(ops[0], items, denied);
      RunPassNotDenied(ops[1..], e.items, denied);
      forall k | 0 < k < |ops| && ops[k].CopyFile?
        ensures ops[k].path !in denied
      {
        assert ops[k] == ops[1..][k - 1];
      }
    }
  }
}
