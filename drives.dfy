/** `list_devices` of retrieve_drives.rs: the removable drives Windows
    reports, each with its volume label. The three Win32 calls are inputs:
    `GetLogicalDriveStringsW` gives its return value and the 30-unit buffer it
    filled, `GetDriveTypeW` and `GetVolumeInformationW` are functions of the
    wide string they are handed. Strings stay in UTF-16 code units. */
module Drives {

  import opened Sequences

  newtype u16 = x: int | 0 <= x < 0x1_0000

  type WideString = seq<u16>

  /** The size of the buffer handed to `GetLogicalDriveStringsW`. */
  const BufferUnits := 30

  /** `DRIVE_REMOVABLE` from winbase.h. */
  const DRIVE_REMOVABLE := 2

  /** What `GetVolumeInformationW` reports: failure, or success with the
      256-unit volume-name buffer it filled. */
  datatype VolumeQuery = Failed | Succeeded(volumeName: WideString)

  /** A string of characters below U+10000 as UTF-16 code units. */
  function Wide(s: string): (w: WideString)
    requires forall k :: 0 <= k < |s| ==> s[k] as int < 0x1_0000
    ensures |w| == |s|
  {
    seq(|s|, k requires 0 <= k < |s| => s[k] as int as u16)
  }

  const ErrorDrive: WideString := Wide("Error retrieving drives.")
  const Unknown: WideString := Wide("Unknown")

  predicate NonEmpty(s: WideString) {
    s != []
  }

  /** `buffer.split(|&c| c == 0).filter(|s| !s.is_empty())`: the drive
      strings in the buffer, in buffer order. */
  function DriveStrings(buffer: WideString): seq<WideString> {
    Filter(Split(buffer, 0), NonEmpty)
  }

  /** The wide string handed to a Win32 call for `drive`, terminated by NUL as
      the API requires. */
  function Terminated(drive: WideString): WideString {
    drive + [0]
  }

  /** The argument `list_devices` builds for `GetDriveTypeW`:
      `drive.encode_utf16().collect::<Vec<u16>>()`, with no terminating NUL. */
  function DriveTypeArgument(drive: WideString): WideString {
    drive
  }

  /** The drive strings `GetDriveTypeW` reports as removable. */
  function RemovableDrives(buffer: WideString, driveType: WideString -> int): seq<WideString> {
    Filter(DriveStrings(buffer), d => driveType(Terminated(d)) == DRIVE_REMOVABLE)
  }

  /** The label for one drive: the volume-name buffer up to its first NUL (all
      of it when there is none), or "Unknown" when the query fails. */
  function Label(q: VolumeQuery): WideString {
    match q
    case Failed => Unknown
    case Succeeded(name) => TakeUntil(name, 0)
  }

  /** `list_devices()`. */
  function ListDevices(length: nat, buffer: WideString, driveType: WideString -> int,
                       volumeInfo: WideString -> VolumeQuery): seq<(WideString, WideString)>
    requires |buffer| == BufferUnits
  {
    if length == 0 then [(ErrorDrive, Unknown)]
    else
      var ds := RemovableDrives(buffer, driveType);
      seq(|ds|, i requires 0 <= i < |ds| => (ds[i], Label(volumeInfo(Terminated(ds[i])))))
  }

  /** When `GetLogicalDriveStringsW` fails, the result is the single sentinel
      pair, whatever the buffer holds. */
  lemma EnumerationFailure(buffer: WideString, driveType: WideString -> int, volumeInfo: WideString -> VolumeQuery)
    requires |buffer| == BufferUnits
    ensures ListDevices(0, buffer, driveType, volumeInfo) == [(Wide("Error retrieving drives."), Wide("Unknown"))]
  {
  }

  /** Otherwise there is one pair per removable drive, in buffer order, with
      the drive string unchanged and the label its volume query gives. */
  lemma {:induction false} OnePairPerDrive(length: nat, buffer: WideString, driveType: WideString -> int,
                                           volumeInfo: WideString -> VolumeQuery)
    requires |buffer| == BufferUnits && length != 0
    ensures var r := ListDevices(length, buffer, driveType, volumeInfo);
      var ds := RemovableDrives(buffer, driveType);
      |r| == |ds|
      && forall i :: 0 <= i < |r| ==> r[i].0 == ds[i] && r[i].1 == Label(volumeInfo(Terminated(ds[i])))
  {
  }

  /** A drive is listed exactly when it is a non-empty NUL-separated piece of
      the buffer that `GetDriveTypeW` reports as removable. */
  lemma {:induction false} ListedExactlyRemovable(length: nat, buffer: WideString, driveType: WideString -> int,
                                                  volumeInfo: WideString -> VolumeQuery, d: WideString)
    requires |buffer| == BufferUnits && length != 0
    ensures (exists i :: 0 <= i < |ListDevices(length, buffer, driveType, volumeInfo)|
                         && ListDevices(length, buffer, driveType, volumeInfo)[i].0 == d)
        <==> (d in Split(buffer, 0) && d != [] && driveType(Terminated(d)) == DRIVE_REMOVABLE)
  {
    var r := ListDevices(length, buffer, driveType, volumeInfo);
    var ds := RemovableDrives(buffer, driveType);
    var strings := DriveStrings(buffer);
    if d in Split(buffer, 0) && d != [] && driveType(Terminated(d)) == DRIVE_REMOVABLE {
      assert NonEmpty(d);
      assert d in strings;
      assert d in ds;
      var i :| 0 <= i < |ds| && ds[i] == d;
      assert r[i].0 == d;
    }
    if exists i :: 0 <= i < |r| && r[i].0 == d {
      var i :| 0 <= i < |r| && r[i].0 == d;
      assert ds[i] == d;
      assert d in strings;
    }
  }

  /** Every listed drive string is non-empty, holds no NUL, and sits in the
      buffer between NULs (or the buffer's ends). */
  lemma ListedAreSegments(length: nat, buffer: WideString, driveType: WideString -> int,
                          volumeInfo: WideString -> VolumeQuery, i: nat)
    requires |buffer| == BufferUnits && length != 0
    requires i < |ListDevices(length, buffer, driveType, volumeInfo)|
    ensures var d := ListDevices(length, buffer, driveType, volumeInfo)[i].0;
      d != [] && 0 !in d && IsSegment(buffer, d)
  {
    var parts := Split(buffer, 0);
    var d := ListDevices(length, buffer, driveType, volumeInfo)[i].0;
    assert d in RemovableDrives(buffer, driveType);
    assert d in DriveStrings(buffer);
    var k :| 0 <= k < |parts| && parts[k] == d;
    JoinPlaces(parts, 0, k);
    assert SegmentAt(buffer, 0, d, Offset(parts, k));
  }

  /** `d` occurs in `buffer` bounded on each side by a NUL or an end. */
  ghost predicate IsSegment(buffer: WideString, d: WideString) {
    exists o: nat :: SegmentAt(buffer, 0, d, o)
  }

  /** A buffer of `n` units holds at most `(n + 1) / 2` non-empty pieces:
      each takes a unit and neighbours are one separator apart. So no more
      than 15 drives are ever listed. */
  lemma ListedAtMostFifteen(length: nat, buffer: WideString, driveType: WideString -> int,
                            volumeInfo: WideString -> VolumeQuery)
    requires |buffer| == BufferUnits
    ensures |ListDevices(length, buffer, driveType, volumeInfo)| <= 15
  {
    if length != 0 {
      NonEmptyPieces(Split(buffer, 0), 0);
    }
  }

  lemma {:induction false} NonEmptyPieces(parts: seq<WideString>, sep: u16)
    requires |parts| >= 1
    ensures 2 * |Filter(parts, NonEmpty)| <= |Join(parts, sep)| + 1
    decreases |parts|
  {
    if |parts| > 1 {
      NonEmptyPieces(parts[1..], sep);
    }
  }

  /** A successful volume query gives the name up to its first NUL, or the
      whole buffer when it holds none; the label never holds a NUL. A failed
      query gives "Unknown". */
  lemma LabelSpec(q: VolumeQuery)
    ensures q.Failed? ==> Label(q) == Wide("Unknown")
    ensures q.Succeeded? ==>
      var name := q.volumeName;
      IsPrefix(Label(q), name) && 0 !in Label(q)
      && (0 in name ==> name[|Label(q)|] == 0)
      && (0 !in name ==> Label(q) == name)
  {
  }

  /** The argument as written hands `GetDriveTypeW`, which reads up to the
      first NUL, a buffer with no NUL in it at all, for every drive string. */
  lemma DriveTypeArgumentUnterminated(buffer: WideString, d: WideString)
    requires d in DriveStrings(buffer)
    ensures 0 !in DriveTypeArgument(d)
  {
    assert d in Split(buffer, 0);
  }

  /** With the terminator added, the API reads back exactly the drive
      string. */
  lemma TerminatedReadsBack(buffer: WideString, d: WideString)
    requires d in DriveStrings(buffer)
    ensures TakeUntil(Terminated(d), 0) == d
  {
    assert d in Split(buffer, 0);
    var t := Terminated(d);
    IndexOfAt(t, 0, |d|);
    assert t[..|d|] == d;
  }
}
