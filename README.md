# Removable-drive copy engine, modelled in Dafny

The application copies the contents of a removable drive into an archive
folder. The folder's name is read from a descriptor file on the drive. Two
Rust files do the work, and this project models both:

- `src-tauri/src/utils/copy.rs`:
  - `copy_dir` is the command. It first calls `setup` to resolve the
    destination, then calls `copy_dir_recursive` to copy. Each error is
    turned into a message with a prefix that names the stage.
  - `setup` goes down the source tree, entering the first readable entry
    of each directory, file or directory alike, and never trying a
    sibling. When that ends at a file, it scans the file's `Customer ID:`
    and `EOT UNIT ID:` lines and returns `dest/<schema>/"<schema> <unit id>"`;
    when it ends at a directory with no readable entry, it fails with NotFound.
  - `copy_dir_recursive` mirrors a tree in pre-order. It skips `Err`
    items of a listing and the two Windows volume folders, and stops at
    the first error; a `read_dir` that fails is such an error.
- `src-tauri/src/utils/retrieve_drives.rs`:
  - `list_devices` splits the buffer filled by `GetLogicalDriveStringsW`
    into drive strings at NUL.
  - It keeps the drives that `GetDriveTypeW` reports as removable.
  - It pairs each drive with the volume label from `GetVolumeInformationW`.

How each part is represented:

- **Source tree.** A value (`FileSystem.Node`) holding files, directories
  and directories whose listing fails. Each directory listing is a sequence
  of readable entries and `Err` items.
- **Destination.** A class, `Copy.Destination`, whose `items` map from paths
  to folders and files is updated in place. Its methods are proved against
  pure functions:
  - `Setup` against `Descriptor.Resolve`;
  - `CopyDirRecursive` against `FileSystem.Run` of `CopyPlan.Plan`, the
    pre-order list of the operations the copy issues;
  - `CopyDir` against `Copy.CopyDirEffect`.
- **Properties.** The lemmas prove the copy's properties of those
  functions:
  - a successful copy mirrors the source;
  - nothing outside the target changes;
  - reserved names are never written;
  - a second run changes nothing;
  - the error prefix names the failing stage;
  - the scan keeps the last matching line;
  - the descent never backtracks.
- **Drives.** `list_devices` is a pure function over the 30-unit UTF-16
  buffer. The three Win32 calls are parameters.

`setup` never changes the destination: both of its `create_dir_all`
calls sit behind `!exists() && is_dir()`, which no path satisfies.
`Copy.Destination.Setup` therefore has no `modifies` clause, and it proves
each guard dead with `assert false`.

## Model

| member | source | states |
|---|---|---|
| Copy.Destination.CopyDir | src-tauri/src/utils/copy.rs:6-28 | the destination and the result are those of `CopyDirEffect`: resolve first, copy only when resolution succeeded, and prefix each error with its stage's message |
| Copy.CopyDirReports | src-tauri/src/utils/copy.rs:6-28 | nothing that existed is removed; a failed resolution leaves the destination untouched and fails; an error starts with "Failed to find schema and ID: " exactly when `setup` failed and with "Failed to copy directory: " exactly when it succeeded |
| Copy.CopyDirSucceeds | src-tauri/src/utils/copy.rs:6-28 | `Ok(())` on a well-formed source means `setup` succeeded, the source held no unreadable file or unlistable directory on the copy's path, the resolved folder mirrors the source, and nothing outside it changed except the folders leading to it |
| Copy.CopyDirAgain | src-tauri/src/utils/copy.rs:6-28 | running `copy_dir` again after it returned `Ok(())` returns `Ok(())` and leaves the destination unchanged |
| Copy.Destination.CreateDirAll | src-tauri/src/utils/copy.rs:34 | the destination after `fs::create_dir_all` is what `MakeDirsFrom` gives, and it stays well formed |
| Copy.Destination.CopyFile | src-tauri/src/utils/copy.rs:54 | `fs::copy` (here and at line 63) fails on an unreadable source, a directory target, a missing parent or a refusal at open time and then changes nothing (a later failure is under Left out); otherwise the target holds the source's bytes |
| Copy.Destination.CopyDirRecursive | src-tauri/src/utils/copy.rs:31-66 | the destination and result are those of running the pre-order plan of the source until its first failure |
| Copy.Destination.CopyListing | src-tauri/src/utils/copy.rs:36-61 | the loop over a listing runs the plans of its entries in listing order and stops at the first error |
| Copy.Destination.CopyEntry | src-tauri/src/utils/copy.rs:37-60 | one entry: an `Err` item or a reserved name does nothing; a directory is copied recursively and a file with `fs::copy` to its name under the destination |
| Copy.Destination.Setup | src-tauri/src/utils/copy.rs:68-116 | returns exactly `Resolve(src, dest, decode)` and never changes the destination |
| Descriptor.ScanDescriptor | src-tauri/src/utils/copy.rs:85-97 | the line loop visits every line, keeps the last value of each key, and returns the reader's error if there is one |
| Descriptor.ScanLine | src-tauri/src/utils/copy.rs:92-96 | one turn of the loop: a unit line replaces the unit id, a customer line replaces the schema, any other line changes nothing |
| Descriptor.ScanOverrides | src-tauri/src/utils/copy.rs:92-96 | a line that sets one field overrides earlier values of that field and leaves the other field alone |
| Descriptor.ScanIgnores | src-tauri/src/utils/copy.rs:89-97 | a line that sets neither field leaves the scan's result unchanged |
| Descriptor.LastSelectedSpec | src-tauri/src/utils/copy.rs:89-97 | the line a field is taken from sets that field and no later line does; there is none exactly when no line sets it |
| Descriptor.KeysExclusive | src-tauri/src/utils/copy.rs:92-96 | the `else` never hides a customer line: a line sets the schema exactly when it starts with `Customer ID:` |
| Descriptor.FieldTextBetweenColons | src-tauri/src/utils/copy.rs:93 | a field's value is the trimmed text between the first colon and the next colon (or the end of the line); text after a second colon is dropped |
| Descriptor.FieldTextWithoutColon | src-tauri/src/utils/copy.rs:95 | a line with no colon gives the empty value instead of an error |
| Descriptor.TwoLineDescriptor | src-tauri/src/utils/copy.rs:89-97 | a descriptor with one `<key> <value>` line for each key gives exactly those values, in either line order, for values without a colon and without surrounding whitespace |
| Descriptor.DestinationFor | src-tauri/src/utils/copy.rs:98-100 | the result lies below `dest`; its last component is schema, space and unit id; the component for the schema sits directly under `dest` unless the schema is empty, when `join("")` adds none |
| Descriptor.BothFieldsEmpty | src-tauri/src/utils/copy.rs:98-100 | with neither field found the folder is a single space, directly under `dest` |
| Descriptor.AcmeExample | src-tauri/src/utils/copy.rs:68-112 | a readable descriptor file whose lines are `Customer ID: Acme` and `EOT UNIT ID: 42`, resolved under `D:/out`, gives `D:/out/Acme/Acme 42` |
| Descriptor.ResolvedShape | src-tauri/src/utils/copy.rs:98-112 | every successful resolution is `DestinationFor` of some pair of fields: below `dest`, ending in schema, space, unit id |
| Descriptor.FirstReadableDecides | src-tauri/src/utils/copy.rs:69-80 | the first readable entry of a directory decides the whole descent, whatever its later siblings hold |
| Descriptor.EmptyFirstDirNotFound | src-tauri/src/utils/copy.rs:70-114 | an empty first subdirectory gives the NotFound error even when a later sibling holds a descriptor |
| Descriptor.NoReadableEntryNotFound | src-tauri/src/utils/copy.rs:70-114 | a directory whose every entry is an `Err` gives the NotFound error |
| Descriptor.BarrenNotFound | src-tauri/src/utils/copy.rs:68-116 | a tree with no file and no unlistable directory ends the descent with no file, hence NotFound |
| Descriptor.BarrenEntriesNotFound | src-tauri/src/utils/copy.rs:70-80 | the same, from any position in a listing |
| Text.Trim | src-tauri/src/utils/copy.rs:93 | `str::trim` returns a contiguous piece of its input; everything cut off is whitespace, and the result neither starts nor ends with whitespace |
| Text.TrimExact | src-tauri/src/utils/copy.rs:93 | whitespace around a core that neither starts nor ends with whitespace is exactly what `trim` removes |
| FileSystem.MakeDirsKeeps | src-tauri/src/utils/copy.rs:34 | `create_dir_all` never changes an existing item |
| FileSystem.MakeDirsCreates | src-tauri/src/utils/copy.rs:34 | `create_dir_all(p)` creates only directories, and only ancestors of `p` or `p` itself |
| FileSystem.MakeDirsSucceeds | src-tauri/src/utils/copy.rs:34 | after a successful `create_dir_all(p)`, `p` and every ancestor of it is a directory |
| FileSystem.MakeDirsFromValid | src-tauri/src/utils/copy.rs:34 | `create_dir_all` keeps every item under an existing directory |
| FileSystem.MakeDirsSettled | src-tauri/src/utils/copy.rs:34 | `create_dir_all` of an existing directory changes nothing and succeeds |
| FileSystem.AddKeepsValid | src-tauri/src/utils/copy.rs:54 | a copy into an existing directory keeps every item under an existing directory |
| FileSystem.CopyInto | src-tauri/src/utils/copy.rs:54 | `fs::copy` succeeds exactly when the source opens, the target is not a directory, its parent is a directory and the OS does not refuse; success writes the bytes and failure at open time changes nothing |
| FileSystem.RunAppend | src-tauri/src/utils/copy.rs:31-66 | running two plans one after the other is running the second from where the first stopped, unless the first failed |
| FileSystem.RunStopsAtFirstFailure | src-tauri/src/utils/copy.rs:31-66 | a failed copy stopped at its first failing operation: everything before it succeeded and nothing after it ran |
| FileSystem.RunKeeps | src-tauri/src/utils/copy.rs:31-66 | a copy, even a failed one, removes nothing and never turns a directory into a file |
| FileSystem.RunChanges | src-tauri/src/utils/copy.rs:31-66 | only a file copy to a path changes an existing item there; a new item is created only by an operation aimed at it |
| FileSystem.RunValid | src-tauri/src/utils/copy.rs:31-66 | a copy keeps every destination item under an existing directory |
| FileSystem.RunPassNotDenied | src-tauri/src/utils/copy.rs:31-66 | a successful copy wrote no file where the OS refuses one |
| FileSystem.RunSettled | src-tauri/src/utils/copy.rs:31-66 | a sequence of operations, each of which alone changes nothing and succeeds, changes nothing and succeeds |
| FileSystem.AncestorsAreFolders | src-tauri/src/utils/copy.rs:34 | in a well-formed destination every ancestor of a directory is a directory |
| CopyPlan.PlanTargets | src-tauri/src/utils/copy.rs:40-45 | every write of the copy lies at or below the target through names that are not `IndexerVolumeGuid` or `System Volume Information` (any ASCII case), at every depth |
| CopyPlan.EntriesTargets | src-tauri/src/utils/copy.rs:36-61 | every write made for the entries of a listing lies below the entry it comes from |
| CopyPlan.SkippedEntryIgnored | src-tauri/src/utils/copy.rs:36-61 | adding an `Err` item or a reserved name anywhere in a listing leaves the copy's operations unchanged |
| CopyPlan.FileSourceCopiesOnly | src-tauri/src/utils/copy.rs:62-64 | a source that is not a directory is copied straight to the target; no directory is created |
| CopyPlan.LockedDirFails | src-tauri/src/utils/copy.rs:33-36 | a directory that cannot be listed is created and then fails the copy with the listing's error |
| CopyPlan.DirPlanStartsWithMakeDirs | src-tauri/src/utils/copy.rs:33-36 | a directory is copied by `create_dir_all` and then, unless that failed, by the loop over its listing |
| CopyPlan.PlanEntriesStep | src-tauri/src/utils/copy.rs:36-61 | one turn of the listing loop, followed by the remaining turns unless this one failed |
| CopyPlan.CopyStaysWithin | src-tauri/src/utils/copy.rs:31-66 | nothing is removed; every changed item lies within the target, and every new item lies within it or on the way to it |
| CopyPlan.CopyMirrors | src-tauri/src/utils/copy.rs:31-66 | a successful copy of a well-formed tree means the tree is clean and the target mirrors it: a directory for every directory and the same bytes for every file, skipped names aside |
| CopyPlan.EntriesMirror | src-tauri/src/utils/copy.rs:36-61 | each entry's copy survives the copies of the entries after it |
| CopyPlan.LaterSiblingsKeep | src-tauri/src/utils/copy.rs:49-55 | the copies of later entries never touch an earlier entry's target, whose name is different |
| CopyPlan.MirrorsStable | src-tauri/src/utils/copy.rs:36-61 | a mirror survives any change that leaves the paths at or below its root alone |
| CopyPlan.PlanSettled | src-tauri/src/utils/copy.rs:31-66 | in a destination that mirrors a clean tree, every directory the copy makes already exists and every file it writes already holds those bytes |
| CopyPlan.OpSettled | src-tauri/src/utils/copy.rs:31-66 | such an operation, when the OS does not refuse it, succeeds and changes nothing |
| CopyPlan.CopyAgainChangesNothing | src-tauri/src/utils/copy.rs:31-66 | copying again over the result of a successful copy succeeds and changes nothing |
| Drives.EnumerationFailure | src-tauri/src/utils/retrieve_drives.rs:28-35 | when `GetLogicalDriveStringsW` returns 0 the result is the single pair ("Error retrieving drives.", "Unknown"), whatever the buffer holds |
| Drives.OnePairPerDrive | src-tauri/src/utils/retrieve_drives.rs:41-86 | otherwise there is one pair per removable drive, in buffer order, with the drive string unchanged and the label its volume query gives |
| Drives.ListedExactlyRemovable | src-tauri/src/utils/retrieve_drives.rs:41-49 | a drive is listed if and only if it is a non-empty NUL-separated piece of the buffer that `GetDriveTypeW` reports as `DRIVE_REMOVABLE` |
| Drives.ListedAreSegments | src-tauri/src/utils/retrieve_drives.rs:41-44 | every listed drive string is non-empty, holds no NUL and sits in the buffer between NULs or the buffer's ends |
| Drives.ListedAtMostFifteen | src-tauri/src/utils/retrieve_drives.rs:22 | the 30-unit buffer yields at most 15 drives |
| Drives.LabelSpec | src-tauri/src/utils/retrieve_drives.rs:69-80 | a successful query gives the volume name up to its first NUL, or the whole buffer when there is none, and never a NUL; a failed one gives "Unknown" |
| Drives.DriveTypeArgumentUnterminated | src-tauri/src/utils/retrieve_drives.rs:47 | the argument as written holds no NUL at all, for every drive string |
| Drives.TerminatedReadsBack | src-tauri/src/utils/retrieve_drives.rs:56 | a NUL-terminated drive string reads back, up to its first NUL, as exactly the drive string |
| Sequences.Split | src-tauri/src/utils/retrieve_drives.rs:42 | `split` yields NUL-free pieces that join back, with one separator between neighbours, into the input |
| Sequences.SplitJoin | src-tauri/src/utils/retrieve_drives.rs:42 | splitting a join of separator-free pieces gives those pieces back |
| Sequences.JoinPlaces | src-tauri/src/utils/retrieve_drives.rs:42 | each piece of a join sits at its offset, with a separator or an end on each side |
| Sequences.Filter | src-tauri/src/utils/retrieve_drives.rs:43 | `filter` keeps exactly the elements that satisfy the test |
| Sequences.FilterAppend | src-tauri/src/utils/retrieve_drives.rs:43 | filtering keeps order: it distributes over concatenation |
| Sequences.TakeUntil | src-tauri/src/utils/retrieve_drives.rs:71-74 | the slice up to the first NUL (or the whole buffer) is a prefix without NUL, followed by a NUL when shorter |
| Copy.CopyDirEffect | src-tauri/src/utils/copy.rs:6-28 | the destination and result of `copy_dir`: the resolution's error with the first prefix, or the copy's run into the resolved folder with its error under the second prefix |
| Descriptor.Resolve | src-tauri/src/utils/copy.rs:68-116 | what `setup` returns: the error of an unlistable directory or an unopenable file, NotFound when the descent reaches no file, the reader's error, or the path built from the scanned fields |
| Descriptor.Descend | src-tauri/src/utils/copy.rs:69-80 | where the descent ends: a file, a directory that cannot be listed, or no file |
| Descriptor.DescendEntries | src-tauri/src/utils/copy.rs:70-80 | the loop over a listing: `Err` items are passed over and the first readable entry is descended into, with no return to its siblings |
| Descriptor.FieldText | src-tauri/src/utils/copy.rs:93 | the trimmed second `:`-separated piece of a line, or "" when there is none (same expression at line 95) |
| Descriptor.LastSelected | src-tauri/src/utils/copy.rs:89-97 | the index of the last line that sets a field, if any |
| Descriptor.FieldValue | src-tauri/src/utils/copy.rs:85-97 | the value the loop leaves in a field's variable: the field text of the last line that sets it, or the initial "" |
| Descriptor.Scan | src-tauri/src/utils/copy.rs:85-97 | both fields after the loop over all lines |
| Descriptor.Child | src-tauri/src/utils/copy.rs:99-100 | `Path::join` of one name: one more component, none for "" |
| CopyPlan.IsReserved | src-tauri/src/utils/copy.rs:39-45 | a name is skipped when it is valid Unicode and equals `IndexerVolumeGuid` or `System Volume Information` ignoring ASCII case |
| CopyPlan.Plan | src-tauri/src/utils/copy.rs:31-66 | the operations `copy_dir_recursive` issues, in order: a file is copied to the target; a directory is created and its listing walked; an unlistable directory is created and then fails |
| CopyPlan.PlanEntries | src-tauri/src/utils/copy.rs:36-61 | the operations of the listing loop from one entry on, in listing order |
| CopyPlan.EntryPlan | src-tauri/src/utils/copy.rs:37-59 | one turn of the loop: nothing for an `Err` item or a skipped name, otherwise the copy of the entry to its name under the target |
| FileSystem.MakeDirsFrom | src-tauri/src/utils/copy.rs:34 | `create_dir_all`: each missing ancestor created shortest first; an existing directory accepted; a file in the way or a refusal stops it |
| FileSystem.Step | src-tauri/src/utils/copy.rs:31-66 | the effect of one operation: `create_dir_all`, `fs::copy`, or a failed `read_dir` |
| FileSystem.Run | src-tauri/src/utils/copy.rs:31-66 | operations run in order until the first failure, which `?` returns with the state reached |
| Text.StartsWith | src-tauri/src/utils/copy.rs:92 | `str::starts_with`, also at line 94 |
| Text.EqIgnoreAsciiCase | src-tauri/src/utils/copy.rs:40-41 | `eq_ignore_ascii_case`: equal length and equal characters after lower-casing `A`..`Z` |
| Drives.ListDevices | src-tauri/src/utils/retrieve_drives.rs:12-94 | `list_devices`: the sentinel pair when the enumeration returns 0, otherwise one (drive, label) pair per removable drive in buffer order |
| Drives.DriveStrings | src-tauri/src/utils/retrieve_drives.rs:41-43 | the non-empty NUL-separated pieces of the buffer, in order |
| Drives.RemovableDrives | src-tauri/src/utils/retrieve_drives.rs:41-49 | the drive strings the drive-type query reports as `DRIVE_REMOVABLE` |
| Drives.Label | src-tauri/src/utils/retrieve_drives.rs:69-80 | the volume name up to its first NUL, or "Unknown" when the query fails |
| Drives.DriveTypeArgument | src-tauri/src/utils/retrieve_drives.rs:47 | the drive-type argument as written: the drive's units with no terminator |
| Drives.Terminated | src-tauri/src/utils/retrieve_drives.rs:56 | the drive's units followed by one NUL, as built for the volume query |
| Copy.Destination.Exists | src-tauri/src/utils/copy.rs:104 | `Path::exists`: the root or a listed item (also at line 108) |
| Copy.Destination.IsDir | src-tauri/src/utils/copy.rs:104 | `Path::is_dir`: the root or a listed folder (also at line 108) |
| Descriptor.ReadDescriptor | src-tauri/src/utils/copy.rs:89-90 | the reader's first error aborts with that error (`line?`); otherwise the scan of all lines |
| Descriptor.Selects | src-tauri/src/utils/copy.rs:92-94 | the unit id is set by a line starting with `EOT UNIT ID:`; the schema by one starting with `Customer ID:` that the first test did not take |
| CopyPlan.Copied | src-tauri/src/utils/copy.rs:37-45 | the loop acts on an entry when it is `Ok` and its name is not skipped |

## Left out

- Logging. The `println!` and `eprintln!` calls only write to the console.
- Symbolic links, permissions and file metadata.
  - The source tree has files, readable directories and directories whose
    listing fails; `is_dir` follows that shape.
  - A source path that does not exist is a file whose opening fails.
  - `fs::copy` is modelled as overwriting the target's bytes. It also
    carries the source's read-only permission to the target (and on
    Windows the hidden and read-only attributes). A later copy onto such a
    target is refused. That refusal is not modelled: the `denied` map of
    refusals is fixed and does not grow with the files a copy writes.
- Copy.Destination.CopyFile: a failure after the target is opened is not
  modelled. `fs::copy` opens the target with truncation before it copies
  any bytes, so a full disk or a source that fails mid-read leaves the
  target empty or partly written in the program. The model knows only
  failures at open time (an unreadable source, a refused target), and its
  failed copy leaves the target as it was.
- FileSystem.CopyInto: the same gap. "Failure changes nothing" holds only
  for failures before the target is opened; a truncated or partial target
  after a later failure is not modelled.
- Listing order. A directory's entries are given in one fixed order, which
  stands for whatever order the OS reports.
- Text decoding in `setup`. `BufRead::lines` is a `Decoder` parameter: the
  lines it yields before its first error, and that error. Invalid UTF-8
  shows up as that error.
- How the OS resolves path names. A path is its exact list of components,
  and two paths name the same item only when the lists are equal. Three
  cases are not modelled:
  - `Path::join` with a field that holds a path separator or is an
    absolute path. `Descriptor.Child` adds exactly one component, or none
    for "".
  - `.` and `..` as a field. With `Customer ID: ..`, `dest.join("..")`
    names the parent of `dest`, but the model keeps `..` as a plain
    component below `dest`.
  - Windows name rules. Trailing spaces and dots are trimmed from a name,
    so the folder `" "` (both fields empty) and `"Acme "` (empty unit id)
    are never created under those names. Names are case-insensitive, so
    `Acme` and `ACME` are one folder on Windows and two in the model.

  The following statements are about the path value `setup` returns and
  the model's destination, and hold on the disk only where none of these
  cases arises:
  - Descriptor.DestinationFor: "lies below `dest`".
  - Descriptor.BothFieldsEmpty: the folder named `" "`.
  - Copy.CopyDirSucceeds: the mirror and where it lies.
  - CopyPlan.CopyStaysWithin: that changes stay within the target.
- The source and the destination as one filesystem. The source is one
  unchanging tree, kept separate from the destination.
  - A destination inside the source is not modelled. There, `read_dir` at
    line 36 of copy.rs would list the folder just created at line 34, and
    the copy would descend into its own output.
  - `setup` and `copy_dir_recursive` read the same tree. A change to the
    source between the two reads is not modelled.

  `CopyPlan.CopyMirrors`, `CopyPlan.CopyStaysWithin` and the lemmas built
  on them hold under these two assumptions.
- Copy.CopyDirAgain: holds only when the copied files carry no read-only
  or hidden flag. Otherwise the program's second run is refused at the
  first such file and returns `Err("Failed to copy directory: …")`.
- CopyPlan.CopyAgainChangesNothing: the same condition. A target written
  from a read-only or hidden source file refuses the second copy.
- Races with other writers on the destination. Refusals by the OS are a
  fixed `denied` map.
- Descriptor.ScanDescriptor: models the loop over the decoded lines, not the
  reading of the file.
- Drives.ListDevices: drive strings and labels stay as UTF-16 code units.
  `to_string_lossy` turns unpaired surrogates into U+FFFD, and that
  conversion is not modelled.
- The three Win32 calls. They are parameters:
  - the value `GetLogicalDriveStringsW` returns, and the buffer it filled;
  - the drive type as a function of the argument string;
  - the volume query as a function of the argument string.

  When the buffer is too small, Windows returns the needed size and the
  buffer holds whatever it holds. The model takes any 30-unit buffer and,
  like the code, looks at the returned length only to compare it with 0.
- The unused file-system-name buffer of `GetVolumeInformationW`.
- The Tauri command wiring. `#[tauri::command]`, `#[cfg(target_os)]` and
  the application's `main.rs` are not part of this model.

## Findings

| source | as written | input that shows it | evidently intended | confidence | as-written member | corrected member |
|---|---|---|---|---|---|---|
| src-tauri/src/utils/retrieve_drives.rs:47 | `GetDriveTypeW` is handed the drive's UTF-16 units with no terminating NUL (`Drives.DriveTypeArgument`), so the call reads past the end of the vector | any drive, e.g. the piece `E:\` (units 69, 58, 92) of the buffer: the vector holds no 0 unit | terminate the argument with a NUL, as line 56 does for `GetVolumeInformationW` (`Drives.Terminated`, used by `Drives.ListDevices`) | not executed; the missing terminator is certain, what the call then returns depends on the memory after the vector | Drives.DriveTypeArgumentUnterminated | Drives.TerminatedReadsBack |
