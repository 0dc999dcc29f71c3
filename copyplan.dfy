/** What `copy_dir_recursive` does, as a plan: the filesystem operations it
    issues, in the order it issues them, for a given source tree and
    destination. Running the plan (`FileSystem.Run`) stops at the first
    failing operation, which is how `?` propagates an error out of every level
    of the recursion. The lemmas here state what a run of the plan leaves in
    the destination. */
module CopyPlan {

  import opened Wrappers
  import opened Sequences
  import opened Text
  import opened FileSystem

  const IndexerName := "IndexerVolumeGuid"
  const VolumeInfoName := "System Volume Information"

  /** An entry name the copy skips: one that is valid Unicode and equals one
      of the two Windows volume folders, ignoring ASCII case. A name that is
      not valid Unicode is never skipped. */
  predicate IsReserved(name: OsName) {
    name.Utf? && (EqIgnoreAsciiCase(name.text, IndexerName) || EqIgnoreAsciiCase(name.text, VolumeInfoName))
  }

  /** An entry the loop acts on: readable, and not skipped by name. */
  predicate Copied(e: Entry) {
    e.Entry? && !IsReserved(e.name)
  }

  /** A directory exists at `p` (the root always does). */
  predicate IsDirectory(items: Items, p: Path) {
    p == [] || IsFolder(items, p)
  }

  /** The operations `copy_dir_recursive(src, d)` issues. A plain file is
      copied to `d` itself; a directory is created (with its ancestors) and
      then every entry the loop acts on is handled in listing order; a
      directory that cannot be listed is created and then fails. */
  function Plan(n: Node, d: Path): seq<Op>
    decreases n, 1
  {
    match n
    case File(data, fault) => [CopyFile(d, data, fault)]
    case LockedDir(e) => [MakeDirs(d), Abort(e)]
    case Dir(_) => [MakeDirs(d)] + PlanEntries(n, 0, d)
  }

  /** The loop over the listing of `dir`, from entry `i` on. */
  function PlanEntries(dir: Node, i: nat, d: Path): seq<Op>
    requires dir.Dir? && i <= |dir.entries|
    decreases dir, 0, |dir.entries| - i
  {
    if i == |dir.entries| then []
    else
      EntryPlan(dir.entries[i], d) + PlanEntries(dir, i + 1, d)
  }

  /** One turn of the loop: an entry the loop acts on is copied (recursively
      for a directory) to its name under `d`; any other entry is passed
      over. */
  function EntryPlan(e: Entry, d: Path): seq<Op>
    decreases e
  {
    if Copied(e) then Plan(e.node, d + [e.name]) else []
  }

  /** No component of `rel` is a skipped name. */
  predicate NoReserved(rel: Path) {
    forall k :: 0 <= k < |rel| ==> !IsReserved(rel[k])
  }

  /** `p` lies at or below `d`, through names the copy does not skip. */
  predicate Within(d: Path, p: Path) {
    IsPrefix(d, p) && NoReserved(p[|d|..])
  }

  lemma WithinChild(d: Path, name: OsName, p: Path)
    requires !IsReserved(name) && Within(d + [name], p)
    ensures Within(d, p)
  {
    var rel := p[|d|..];
    assert rel == [name] + p[|d| + 1..];
  }

  /** Every operation of the plan targets a path at or below `d` whose
      components below `d` are never skipped names: nothing named
      `IndexerVolumeGuid` or `System Volume Information` is copied or
      descended into, at any depth. */
  lemma {:induction false} PlanTargets(n: Node, d: Path)
    ensures forall op :: op in Plan(n, d) && !op.Abort? ==> Within(d, op.path)
    decreases n, 1
  {
    match n
    case File(_, _) =>
      assert d[|d|..] == [];
    case LockedDir(_) =>
      assert d[|d|..] == [];
    case Dir(es) =>
      assert d[|d|..] == [];
      EntriesTargets(n, 0, d);
      forall op | op in PlanEntries(n, 0, d) && !op.Abort?
        ensures Within(d, op.path)
      {
        var j :| 0 <= j < |es| && Copied(es[j]) && Within(d + [es[j].name], op.path);
        WithinChild(d, es[j].name, op.path);
      }
  }

  /** `p` lies below one of the entries `i..` of `dir` that the loop acts on. */
  predicate BelowEntry(dir: Node, i: nat, d: Path, p: Path)
    requires dir.Dir?
  {
    exists j :: i <= j < |dir.entries| && Copied(dir.entries[j]) && Within(d + [dir.entries[j].name], p)
  }

  /** The operations for entries `i..` of `dir` each lie below the entry they
      come from. */
  lemma {:induction false} EntriesTargets(dir: Node, i: nat, d: Path)
    requires dir.Dir? && i <= |dir.entries|
    ensures forall op :: op in PlanEntries(dir, i, d) && !op.Abort? ==> BelowEntry(dir, i, d, op.path)
    decreases dir, 0, |dir.entries| - i
  {
    if i < |dir.entries| {
      var e := dir.entries[i];
      var head := EntryPlan(e, d);
      EntriesTargets(dir, i + 1, d);
      if Copied(e) {
        PlanTargets(e.node, d + [e.name]);
      }
      forall op | op in PlanEntries(dir, i, d) && !op.Abort?
        ensures BelowEntry(dir, i, d, op.path)
      {
        if op in head {
          assert Copied(dir.entries[i]) && Within(d + [dir.entries[i].name], op.path);
        } else {
          assert op in PlanEntries(dir, i + 1, d);
        }
      }
    }
  }

  /** An operation that lies within `d` creates or changes only paths on the
      way to `d` or within `d`. */
  lemma TouchWithin(op: Op, d: Path, q: Path)
    requires !op.Abort? && Within(d, op.path) && Touches(op, q)
    ensures IsPrefix(q, d) || Within(d, q)
  {
    var p := op.path;
    if |q| > |d| {
      assert q[..|d|] == p[..|d|];
      forall k | 0 <= k < |q| - |d|
        ensures !IsReserved(q[|d|..][k])
      {
        assert q[|d|..][k] == p[|d|..][k];
      }
    } else {
      assert d[..|q|] == p[..|q|];
    }
  }

  /** The copy changes nothing outside `d` except creating the missing
      directories on the way to it: every item it changes lies within `d`,
      every item it creates lies on the way to `d` or within `d`, and nothing
      is removed. */
  lemma CopyStaysWithin(n: Node, d: Path, items: Items, denied: Denied)
    ensures var e := Run(Plan(n, d), items, denied);
      (forall q :: q in items ==> q in e.items)
      && (forall q :: q in items && e.items[q] != items[q] ==> Within(d, q))
      && (forall q :: q in e.items && q !in items ==> IsPrefix(q, d) || Within(d, q))
  {
    var ops := Plan(n, d);
    RunChanges(ops, items, denied);
    PlanTargets(n, d);
    var e := Run(ops, items, denied);
    forall q | q in items && e.items[q] != items[q]
      ensures Within(d, q)
    {
      var k :| 0 <= k < |ops| && ops[k].CopyFile? && ops[k].path == q;
      assert ops[k] in ops;
    }
    forall q | q in e.items && q !in items
      ensures IsPrefix(q, d) || Within(d, q)
    {
      var k :| 0 <= k < |ops| && Touches(ops[k], q);
      assert ops[k] in ops;
      TouchWithin(ops[k], d, q);
    }
  }

  /** The source tree holds nothing that makes the copy fail by itself: every
      file the copy visits can be opened and every directory it visits can be
      listed. */
  predicate Clean(n: Node)
    decreases n
  {
    match n
    case File(_, fault) => fault.None?
    case LockedDir(_) => false
    case Dir(es) => forall i :: 0 <= i < |es| && Copied(es[i]) ==> Clean(es[i].node)
  }

  /** The destination at `d` mirrors `n`: a directory for every directory the
      copy visits (empty ones included) and a file with the same bytes for
      every file it visits, at the same relative path. */
  predicate Mirrors(items: Items, n: Node, d: Path)
    decreases n
  {
    match n
    case File(data, _) => d in items && items[d] == Blob(data)
    case LockedDir(_) => IsDirectory(items, d)
    case Dir(es) =>
      IsDirectory(items, d)
      && forall i :: 0 <= i < |es| && Copied(es[i]) ==> Mirrors(items, es[i].node, d + [es[i].name])
  }

  /** A mirror survives any change that leaves the paths at or below `d`
      alone. */
  lemma {:induction false} MirrorsStable(a: Items, b: Items, n: Node, d: Path)
    requires Mirrors(a, n, d)
    requires forall q :: IsPrefix(d, q) && q in a ==> q in b && b[q] == a[q]
    ensures Mirrors(b, n, d)
    decreases n
  {
    assert IsPrefix(d, d);
    match n
    case File(_, _) =>
    case LockedDir(_) =>
    case Dir(es) =>
      forall i | 0 <= i < |es| && Copied(es[i])
        ensures Mirrors(b, es[i].node, d + [es[i].name])
      {
        var c := d + [es[i].name];
        forall q | IsPrefix(c, q) && q in a
          ensures q in b && b[q] == a[q]
        {
          assert q[..|d|] == c[..|d|];
        }
        MirrorsStable(a, b, es[i].node, c);
      }
  }

  /** A successful copy of a well-formed tree leaves the destination
      mirroring it, and succeeds only when the tree is clean. */
  lemma {:induction false} CopyMirrors(n: Node, d: Path, items: Items, denied: Denied)
    requires WellFormed(n)
    requires Run(Plan(n, d), items, denied).outcome.Pass?
    ensures Clean(n) && Mirrors(Run(Plan(n, d), items, denied).items, n, d)
    decreases n, 1
  {
    match n
    case File(data, fault) =>
      assert Plan(n, d)[1..] == [];
    case LockedDir(e) =>
      assert false;
    case Dir(es) =>
      RunAppend([MakeDirs(d)], PlanEntries(n, 0, d), items, denied);
      assert [MakeDirs(d)][1..] == [];
      var mid := MakeDirsFrom(items, denied, d, 0);
      if d != [] {
        MakeDirsSucceeds(items, denied, d, 0);
        assert d[..|d|] == d;
      }
      EntriesMirror(n, 0, d, mid.items, denied);
      RunKeeps(PlanEntries(n, 0, d), mid.items, denied);
  }

  /** The loop part of `CopyMirrors`: each entry's copy survives the copies
      of its later siblings, because those lie under other names. */
  lemma {:induction false} EntriesMirror(dir: Node, i: nat, d: Path, items: Items, denied: Denied)
    requires dir.Dir? && i <= |dir.entries| && WellFormed(dir)
    requires Run(PlanEntries(dir, i, d), items, denied).outcome.Pass?
    ensures forall j :: i <= j < |dir.entries| && Copied(dir.entries[j]) ==>
      Clean(dir.entries[j].node) && Mirrors(Run(PlanEntries(dir, i, d), items, denied).items, dir.entries[j].node, d + [dir.entries[j].name])
    decreases dir, 0, |dir.entries| - i
  {
    if i < |dir.entries| {
      var es := dir.entries;
      var x := es[i];
      var head := EntryPlan(x, d);
      var rest := PlanEntries(dir, i + 1, d);
      RunAppend(head, rest, items, denied);
      var mid := Run(head, items, denied).items;
      var fin := Run(rest, mid, denied).items;
      EntriesMirror(dir, i + 1, d, mid, denied);
      if Copied(x) {
        var c := d + [x.name];
        CopyMirrors(x.node, c, items, denied);
        LaterSiblingsKeep(dir, i, d, mid, denied);
        MirrorsStable(mid, fin, x.node, c);
      }
    }
  }

  /** The copies of the entries after entry `i` leave everything below entry
      `i`'s own destination as it was: they lie under other names. */
  lemma LaterSiblingsKeep(dir: Node, i: nat, d: Path, items: Items, denied: Denied)
    requires dir.Dir? && i < |dir.entries| && WellFormed(dir) && Copied(dir.entries[i])
    ensures var fin := Run(PlanEntries(dir, i + 1, d), items, denied).items;
      forall q :: IsPrefix(d + [dir.entries[i].name], q) && q in items ==> q in fin && fin[q] == items[q]
  {
    var es := dir.entries;
    var x := es[i];
    var c := d + [x.name];
    var rest := PlanEntries(dir, i + 1, d);
    var fin := Run(rest, items, denied).items;
    RunChanges(rest, items, denied);
    EntriesTargets(dir, i + 1, d);
    forall q | IsPrefix(c, q) && q in items
      ensures q in fin && fin[q] == items[q]
    {
      forall k | 0 <= k < |rest| && rest[k].CopyFile?
        ensures rest[k].path != q
      {
        var p := rest[k].path;
        assert rest[k] in rest;
        var j :| i + 1 <= j < |es| && Copied(es[j]) && Within(d + [es[j].name], p);
        assert p[|d|] == (d + [es[j].name])[|d|] == es[j].name;
        assert q[|d|] == c[|d|] == x.name;
        assert es[j].name != x.name;
      }
    }
  }

  /** What a second copy finds for `op` in a destination that already holds
      the first copy's result: the directory exists, or the file holds the
      bytes the copy would write. */
  predicate Settled(items: Items, op: Op) {
    match op
    case MakeDirs(p) => IsDirectory(items, p)
    case CopyFile(p, data, fault) => fault.None? && p in items && items[p] == Blob(data)
    case Abort(_) => false
  }

  /** Every operation of the plan for a clean tree is settled in a
      destination that mirrors the tree. */
  lemma {:induction false} PlanSettled(n: Node, d: Path, items: Items)
    requires Clean(n) && Mirrors(items, n, d)
    ensures forall op :: op in Plan(n, d) ==> Settled(items, op)
    decreases n, 1
  {
    match n
    case File(_, _) =>
    case LockedDir(_) =>
      assert false;
    case Dir(_) =>
      EntriesSettled(n, 0, d, items);
  }

  lemma {:induction false} EntriesSettled(dir: Node, i: nat, d: Path, items: Items)
    requires dir.Dir? && i <= |dir.entries| && Clean(dir) && Mirrors(items, dir, d)
    ensures forall op :: op in PlanEntries(dir, i, d) ==> Settled(items, op)
    decreases dir, 0, |dir.entries| - i
  {
    if i < |dir.entries| {
      var e := dir.entries[i];
      EntriesSettled(dir, i + 1, d, items);
      if Copied(e) {
        PlanSettled(e.node, d + [e.name], items);
      }
    }
  }

  /** A settled operation the OS does not refuse succeeds and changes
      nothing. */
  lemma OpSettled(op: Op, items: Items, denied: Denied)
    requires ValidItems(items) && Settled(items, op)
    requires op.CopyFile? ==> op.path !in denied
    ensures Step(op, items, denied) == Effect(items, Pass)
  {
    match op
    case MakeDirs(p) =>
      if p != [] {
        AncestorsAreFolders(items, p);
      }
      MakeDirsSettled(items, denied, p, 0);
    case CopyFile(p, data, _) =>
      assert Listed(items, p);
      assert items[p := Blob(data)] == items;
    case Abort(_) =>
      assert false;
  }

  /** Copying again over the result of a successful copy succeeds and
      changes nothing. */
  lemma CopyAgainChangesNothing(n: Node, d: Path, items: Items, denied: Denied)
    requires WellFormed(n) && ValidItems(items)
    requires Run(Plan(n, d), items, denied).outcome.Pass?
    ensures var fin := Run(Plan(n, d), items, denied).items;
      Run(Plan(n, d), fin, denied) == Effect(fin, Pass)
  {
    var ops := Plan(n, d);
    var fin := Run(ops, items, denied).items;
    CopyMirrors(n, d, items, denied);
    RunValid(ops, items, denied);
    RunPassNotDenied(ops, items, denied);
    PlanSettled(n, d, fin);
    forall k | 0 <= k < |ops|
      ensures Step(ops[k], fin, denied) == Effect(fin, Pass)
    {
      assert ops[k] in ops;
      OpSettled(ops[k], fin, denied);
    }
    RunSettled(ops, fin, denied);
  }

  lemma {:induction false} SameTail(a: Node, i: nat, b: Node, j: nat, d: Path)
    requires a.Dir? && b.Dir? && i <= |a.entries| && j <= |b.entries|
    requires a.entries[i..] == b.entries[j..]
    ensures PlanEntries(a, i, d) == PlanEntries(b, j, d)
    decreases |a.entries| - i
  {
    if i < |a.entries| {
      assert a.entries[i] == a.entries[i..][0] == b.entries[j];
      assert a.entries[i + 1..] == a.entries[i..][1..];
      assert b.entries[j + 1..] == b.entries[j..][1..];
      SameTail(a, i + 1, b, j + 1, d);
    }
  }

  /** An entry the loop does not act on (an `Err` from the listing, or a
      skipped name) changes nothing: the plan for the directory is the plan
      without it. */
  lemma SkippedEntryIgnored(es: seq<Entry>, x: Entry, i: nat, d: Path)
    requires i <= |es| && !Copied(x)
    ensures Plan(Dir(es[..i] + [x] + es[i..]), d) == Plan(Dir(es), d)
  {
    InsertedEntries(es, x, i, 0, d);
  }

  lemma {:induction false} InsertedEntries(es: seq<Entry>, x: Entry, i: nat, k: nat, d: Path)
    requires k <= i <= |es| && !Copied(x)
    ensures PlanEntries(Dir(es[..i] + [x] + es[i..]), k, d) == PlanEntries(Dir(es), k, d)
    decreases i - k
  {
    var a := Dir(es[..i] + [x] + es[i..]);
    if k == i {
      assert a.entries[i] == x;
      assert a.entries[i + 1..] == es[i..];
      SameTail(a, i + 1, Dir(es), i, d);
    } else {
      assert a.entries[k] == es[k];
      InsertedEntries(es, x, i, k + 1, d);
    }
  }

  /** A source that is not a directory is copied straight to `d`: no
      directory is created, not even the parent of `d`. */
  lemma FileSourceCopiesOnly(data: seq<byte>, fault: Option<IoError>, d: Path, items: Items, denied: Denied)
    ensures Run(Plan(File(data, fault), d), items, denied) == CopyInto(items, denied, d, data, fault)
  {
    assert Plan(File(data, fault), d)[1..] == [];
  }

  /** A directory that cannot be listed fails the copy with the listing's
      error, once `create_dir_all` has created it. */
  lemma LockedDirFails(err: IoError, d: Path, items: Items, denied: Denied)
    ensures var made := MakeDirsFrom(items, denied, d, 0);
      Run(Plan(LockedDir(err), d), items, denied)
        == if made.outcome.Fail? then made else Effect(made.items, Fail(err))
  {
    RunAppend([MakeDirs(d)], [Abort(err)], items, denied);
    assert [MakeDirs(d)][1..] == [] && [Abort(err)][1..] == [];
  }

  /** A directory is copied by `create_dir_all(d)` and then, unless that
      failed, by the loop over its listing. */
  lemma DirPlanStartsWithMakeDirs(n: Node, d: Path, items: Items, denied: Denied)
    requires n.Dir?
    ensures var made := MakeDirsFrom(items, denied, d, 0);
      Run(Plan(n, d), items, denied)
        == if made.outcome.Fail? then made else Run(PlanEntries(n, 0, d), made.items, denied)
  {
    RunAppend([MakeDirs(d)], PlanEntries(n, 0, d), items, denied);
    assert [MakeDirs(d)][1..] == [];
  }

  /** One turn of the loop: the run of entries `i..` is the run of entry `i`
      followed, unless it failed, by the run of the entries after it. */
  lemma PlanEntriesStep(dir: Node, i: nat, d: Path, items: Items, denied: Denied)
    requires dir.Dir? && i < |dir.entries|
    ensures var e := Run(EntryPlan(dir.entries[i], d), items, denied);
      Run(PlanEntries(dir, i, d), items, denied)
        == if e.outcome.Fail? then e else Run(PlanEntries(dir, i + 1, d), e.items, denied)
  {
    RunAppend(EntryPlan(dir.entries[i], d), PlanEntries(dir, i + 1, d), items, denied);
  }
}
