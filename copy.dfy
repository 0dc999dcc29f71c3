/** The copy command of copy.rs on a destination filesystem that changes in
    place: `copy_dir` resolves the destination with `setup` and then mirrors
    the source into it with `copy_dir_recursive`. Each method is proved
    against the pure description in `Descriptor` and `CopyPlan`, and the
    lemmas at the end state what the command as a whole promises. */
module Copy {

  import opened Wrappers
  import opened Sequences
  import opened Text
  import opened FileSystem
  import opened Descriptor
  import opened CopyPlan

  /** The destination filesystem: what exists at each path, and the paths at
      which the OS refuses to create anything. */
  class Destination {
    var items: Items
    const denied: Denied

    ghost predicate Valid()
      reads this
    {
      ValidItems(items)
    }

    constructor (initial: Items, denied: Denied)
      requires ValidItems(initial)
      ensures Valid() && items == initial && this.denied == denied
    {
      items := initial;
      this.denied := denied;
    }

    /** `Path::exists`. */
    predicate Exists(p: Path)
      reads this
    {
      p == [] || p in items
    }

    /** `Path::is_dir`. */
    predicate IsDir(p: Path)
      reads this
    {
      IsDirectory(items, p)
    }

    /** `fs::create_dir_all(p)`: creates the missing prefixes of `p`, shortest
        first, and stops at the first one that cannot be created. */
    method CreateDirAll(p: Path) returns (r: Outcome<IoError>)
      requires Valid()
      modifies this
      ensures Valid()
      ensures Effect(items, r) == MakeDirsFrom(old(items), denied, p, 0)
    {
      MakeDirsFromValid(items, denied, p, 0);
      var k := 0;
      while k < |p|
        invariant 0 <= k <= |p|
        invariant MakeDirsFrom(old(items), denied, p, 0) == MakeDirsFrom(items, denied, p, k)
        invariant ValidItems(MakeDirsFrom(items, denied, p, k).items)
      {
        var q := p[..k + 1];
        if q in items {
          if !items[q].Folder? {
            return Fail(FileInTheWay);
          }
        } else if q in denied {
          return Fail(denied[q]);
        } else {
          items := items[q := Folder];
        }
        k := k + 1;
      }
      return Pass;
    }

    /** `fs::copy` of a source file whose bytes are `data` (or whose opening
        fails with `fault`) to `p`. */
    method CopyFile(p: Path, data: seq<byte>, fault: Option<IoError>) returns (r: Outcome<IoError>)
      requires Valid()
      modifies this
      ensures Valid()
      ensures Effect(items, r) == CopyInto(old(items), denied, p, data, fault)
    {
      if fault.Some? {
        return Fail(fault.value);
      }
      if p == [] || IsFolder(items, p) {
        return Fail(TargetIsDirectory);
      }
      if |p| > 1 && !IsFolder(items, p[..|p| - 1]) {
        return Fail(ParentMissing);
      }
      if p in denied {
        return Fail(denied[p]);
      }
      AddKeepsValid(items, p, Blob(data));
      items := items[p := Blob(data)];
      return Pass;
    }

    /** `copy_dir_recursive(src, dest)`: a directory is created and its
        listing walked in order, skipping `Err` entries and the two volume
        folders, recursing into subdirectories and copying files; anything
        else is copied to `dest` directly. The first error ends every level
        of the recursion. */
    method CopyDirRecursive(src: Node, dest: Path) returns (r: Outcome<IoError>)
      requires Valid()
      modifies this
      ensures Valid()
      ensures Effect(items, r) == Run(Plan(src, dest), old(items), denied)
      decreases src, 1
    {
      match src {
        case File(data, fault) =>
          FileSourceCopiesOnly(data, fault, dest, items, denied);
          r := CopyFile(dest, data, fault);
        case LockedDir(e) =>
          LockedDirFails(e, dest, items, denied);
          r := CreateDirAll(dest);
          if r.Pass? {
            r := Fail(e);
          }
        case Dir(_) =>
          DirPlanStartsWithMakeDirs(src, dest, items, denied);
          r := CreateDirAll(dest);
          if r.Pass? {
            r := CopyListing(src, dest);
          }
      }
    }

    /** The loop of `copy_dir_recursive` over the listing of `dir`, copied
        to `dest`: entries in listing order until the first failure. */
    method CopyListing(dir: Node, dest: Path) returns (r: Outcome<IoError>)
      requires Valid() && dir.Dir?
      modifies this
      ensures Valid()
      ensures Effect(items, r) == Run(PlanEntries(dir, 0, dest), old(items), denied)
      decreases dir, 0
    {
      var i := 0;
      while i < |dir.entries|
        invariant 0 <= i <= |dir.entries| && Valid()
        invariant Run(PlanEntries(dir, 0, dest), old(items), denied) == Run(PlanEntries(dir, i, dest), items, denied)
      {
        PlanEntriesStep(dir, i, dest, items, denied);
        r := CopyEntry(dir.entries[i], dest);
        if r.Fail? {
          return;
        }
        i := i + 1;
      }
      return Pass;
    }

    /** One turn of the loop of `copy_dir_recursive` over the listing of the
        directory copied to `dest`. */
    method CopyEntry(entry: Entry, dest: Path) returns (r: Outcome<IoError>)
      requires Valid()
      modifies this
      ensures Valid()
      ensures Effect(items, r) == Run(EntryPlan(entry, dest), old(items), denied)
      decreases entry
    {
      match entry {
        case Unreadable(_) =>
          return Pass;
        case Entry(name, node) =>
          if IsReserved(name) {
            return Pass;
          }
          var target := dest + [name];
          assert EntryPlan(entry, dest) == Plan(node, target);
          if node.Dir? || node.LockedDir? {
            r := CopyDirRecursive(node, target);
          } else {
            FileSourceCopiesOnly(node.data, node.fault, target, items, denied);
            r := CopyFile(target, node.data, node.fault);
          }
      }
    }

    /** `setup(src, dest)`: descend to the first readable entry of each
        directory, scan the file reached, and return
        `dest/<schema>/"<schema> <unit_id>"`. The two `create_dir_all` calls
        of the source sit behind the guard `!exists() && is_dir()`, which no
        path satisfies, so the destination is never changed. */
    method Setup(src: Node, dest: Path, decode: Decoder) returns (r: Result<Path, IoError>)
      ensures r == Resolve(src, dest, decode)
      decreases src
    {
      match src {
        case LockedDir(e) =>
          return Failure(e);
        case Dir(es) =>
          var i := 0;
          while i < |es|
            invariant 0 <= i <= |es|
            invariant DescendEntries(src, i) == Descend(src)
          {
            match es[i] {
              case Entry(_, child) =>
                r := Setup(child, dest, decode);
                return;
              case Unreadable(_) =>
            }
            i := i + 1;
          }
          return Failure(NotFoundError);
        case File(data, fault) =>
          if fault.Some? {
            return Failure(fault.value);
          }
          var fields := ScanDescriptor(decode(data));
          if fields.Failure? {
            return Failure(fields.error);
          }
          var schema, unitId := fields.value.schema, fields.value.unitId;
          var newDest := Child(dest, schema);
          var finalDest := Child(newDest, schema + " " + unitId);
          if !Exists(newDest) && IsDir(newDest) {
            assert false;
          }
          if !Exists(finalDest) && IsDir(finalDest) {
            assert false;
          }
          return Success(finalDest);
      }
    }

    /** `copy_dir(src, dest)`: resolve, then copy, turning each error into
        its message with the stage's prefix. */
    method CopyDir(src: Node, dest: Path, decode: Decoder) returns (r: Outcome<string>)
      requires Valid()
      modifies this
      ensures Valid()
      ensures Report(items, r) == CopyDirEffect(src, dest, decode, old(items), denied)
    {
      var resolved := Setup(src, dest, decode);
      if resolved.Failure? {
        return Fail(ResolveFailed + resolved.error.message);
      }
      var copied := CopyDirRecursive(src, resolved.value);
      if copied.Fail? {
        return Fail(CopyFailed + copied.error.message);
      }
      return Pass;
    }
  }

  const ResolveFailed := "Failed to find schema and ID: "
  const CopyFailed := "Failed to copy directory: "

  /** The destination after `copy_dir`, and the `Result<(), String>` it
      returns. */
  datatype Report = Report(items: Items, outcome: Outcome<string>)

  function CopyDirEffect(src: Node, dest: Path, decode: Decoder, items: Items, denied: Denied): Report {
    match Resolve(src, dest, decode)
    case Failure(e) => Report(items, Fail(ResolveFailed + e.message))
    case Success(target) =>
      var e := Run(Plan(src, target), items, denied);
      if e.outcome.Pass? then Report(e.items, Pass)
      else Report(e.items, Fail(CopyFailed + e.outcome.error.message))
  }

  /** An error message says which stage failed: the resolution prefix exactly
      when `setup` failed, in which case nothing was copied; the copy prefix
      otherwise. Whatever happens, nothing that existed is removed. */
  lemma CopyDirReports(src: Node, dest: Path, decode: Decoder, items: Items, denied: Denied)
    ensures var rep := CopyDirEffect(src, dest, decode, items, denied);
      (forall q :: q in items ==> q in rep.items)
      && (Resolve(src, dest, decode).Failure? ==> rep.items == items && rep.outcome.Fail?)
      && (rep.outcome.Fail? ==>
            (StartsWith(rep.outcome.error, ResolveFailed) <==> Resolve(src, dest, decode).Failure?)
            && (StartsWith(rep.outcome.error, CopyFailed) <==> Resolve(src, dest, decode).Success?))
  {
    var rep := CopyDirEffect(src, dest, decode, items, denied);
    match Resolve(src, dest, decode)
    case Failure(e) =>
      var m := ResolveFailed + e.message;
      assert m[..|ResolveFailed|] == ResolveFailed;
      assert m[10] == 'f' != CopyFailed[10];
    case Success(target) =>
      RunKeeps(Plan(src, target), items, denied);
      var e := Run(Plan(src, target), items, denied);
      if e.outcome.Fail? {
        var m := CopyFailed + e.outcome.error.message;
        assert m[..|CopyFailed|] == CopyFailed;
        assert m[10] == 'c' != ResolveFailed[10];
      }
  }

  /** When `copy_dir` returns `Ok(())` on a well-formed source, the
      destination resolved by `setup` mirrors the whole source, the source
      held nothing unreadable that the copy visits, and nothing outside the
      resolved destination changed except the directories leading to it. */
  lemma CopyDirSucceeds(src: Node, dest: Path, decode: Decoder, items: Items, denied: Denied)
    requires WellFormed(src)
    requires CopyDirEffect(src, dest, decode, items, denied).outcome.Pass?
    ensures Resolve(src, dest, decode).Success?
    ensures var target := Resolve(src, dest, decode).value;
      var after := CopyDirEffect(src, dest, decode, items, denied).items;
      Clean(src) && Mirrors(after, src, target)
      && (forall q :: q in items ==> q in after)
      && (forall q :: q in items && after[q] != items[q] ==> Within(target, q))
      && (forall q :: q in after && q !in items ==> IsPrefix(q, target) || Within(target, q))
  {
    var target := Resolve(src, dest, decode).value;
    CopyMirrors(src, target, items, denied);
    CopyStaysWithin(src, target, items, denied);
  }

  /** Running `copy_dir` again after it returned `Ok(())` returns `Ok(())`
      and leaves the destination exactly as the first run left it. */
  lemma CopyDirAgain(src: Node, dest: Path, decode: Decoder, items: Items, denied: Denied)
    requires WellFormed(src) && ValidItems(items)
    requires CopyDirEffect(src, dest, decode, items, denied).outcome.Pass?
    ensures var after := CopyDirEffect(src, dest, decode, items, denied).items;
      CopyDirEffect(src, dest, decode, after, denied) == Report(after, Pass)
  {
    var target := Resolve(src, dest, decode).value;
    CopyAgainChangesNothing(src, target, items, denied);
  }
}
