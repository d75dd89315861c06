/**
 The directory walk in `UploadGPSData.main`: list the directory, skip every
 entry that is not a regular file, number the files 1..k in listing order
 against the count of all entries, and send each to the copy or the insert
 routine according to the mode. Running a routine is modelled as the step
 that names it; the file system is a parameter.
 */
module Directory {
  import opened Wrappers

  /** One entry of `directory.listFiles()`. */
  datatype Entry = Entry(path: string, isFile: bool)

  /** What the file system reports for the directory path. */
  datatype Listing =
    | NotADirectory                 // isDirectory() is false
    | Unlistable                    // a directory, but listFiles() returns null (an I/O error)
    | Entries(entries: seq<Entry>)

  /** The routine a file is sent to. */
  datatype Routine = CopyTaxis | InsertTrajectories | NoRoutine

  /** One processed file: its progress number, the denominator printed beside it, and its routine. */
  datatype Step = Step(index: nat, total: nat, file: Entry, routine: Routine)

  /** The `NullPointerException`s the walk can raise. */
  datatype DispatchError =
    | NullDirectoryPath   // new File(null): no directory token was given
    | NullListing         // files.length on the null array of an unlistable directory
    | NullMode            // type.equals(..) with no --type= token, on the first regular file

  /** The if-chain on the mode: only the two exact mode names choose a routine. */
  function RoutineFor(mode: string): (r: Routine)
    ensures r == CopyTaxis <==> mode == "taxis"
    ensures r == InsertTrajectories <==> mode == "trajectories"
  {
    if mode == "taxis" then CopyTaxis
    else if mode == "trajectories" then InsertTrajectories
    else NoRoutine
  }

  /** The regular files among the entries, in listing order. */
  function Files(entries: seq<Entry>): (files: seq<Entry>)
    ensures |files| <= |entries|
    ensures forall k :: 0 <= k < |files| ==> files[k].isFile && files[k] in entries
    decreases |entries|
  {
    if |entries| == 0 then []
    else if entries[0].isFile then [entries[0]] + Files(entries[1..])
    else Files(entries[1..])
  }

  /**
   Listing order is kept: the files of two consecutive runs of entries are
   the files of the first run followed by those of the second.
   */
  lemma {:induction false} FilesAppend(a: seq<Entry>, b: seq<Entry>)
    ensures Files(a + b) == Files(a) + Files(b)
    decreases |a|
  {
    if |a| > 0 {
      assert (a + b)[0] == a[0];
      assert (a + b)[1..] == a[1..] + b;
      FilesAppend(a[1..], b);
    } else {
      assert a + b == b;
    }
  }

  /**
   No regular file is skipped, and the files are all the entries exactly
   when every entry is a regular file.
   */
  lemma {:induction false} FilesComplete(entries: seq<Entry>)
    ensures forall k :: 0 <= k < |entries| && entries[k].isFile ==> entries[k] in Files(entries)
    ensures |Files(entries)| == |entries| <==> forall k :: 0 <= k < |entries| ==> entries[k].isFile
    decreases |entries|
  {
    if |entries| > 0 {
      var rest := entries[1..];
      FilesComplete(rest);
      forall k | 0 < k < |entries|
        ensures entries[k] == rest[k - 1]
      {
      }
    }
  }

  /**
   The loop over the listed entries, `seen` files having been numbered
   before them. Every regular file gets the next number; a missing mode
   throws at the first regular file and not before.
   */
  function PlanFiles(entries: seq<Entry>, total: nat, seen: nat, mode: Option<string>): (r: Result<seq<Step>, DispatchError>)
    ensures mode.Some? ==> r.Ok?
    ensures mode.None? ==> (r.Ok? <==> |Files(entries)| == 0)
    ensures r.Err? ==> r.error == NullMode
    ensures r.Ok? ==> |r.value| == |Files(entries)|
    ensures r.Ok? ==> forall k :: 0 <= k < |r.value| ==>
              && r.value[k].index == seen + k + 1
              && r.value[k].total == total
              && r.value[k].file == Files(entries)[k]
    ensures r.Ok? && mode.Some? ==> forall k :: 0 <= k < |r.value| ==> r.value[k].routine == RoutineFor(mode.value)
    decreases |entries|
  {
    if |entries| == 0 then Ok([])
    else if !entries[0].isFile then
      assert Files(entries) == Files(entries[1..]);
      PlanFiles(entries[1..], total, seen, mode)
    else
      assert Files(entries) == [entries[0]] + Files(entries[1..]);
      match mode
      case None => Err(NullMode)
      case Some(m) =>
        match PlanFiles(entries[1..], total, seen + 1, mode)
        case Err(e) => Err(e)
        case Ok(rest) => Ok([Step(seen + 1, total, entries[0], RoutineFor(m))] + rest)
  }

  /**
   The walk as the source writes it: `files.length` is read before the
   `files != null` test, so a directory that cannot be listed throws.
   */
  function DispatchAsWritten(dirPath: Option<string>, fs: string -> Listing, mode: Option<string>): (r: Result<seq<Step>, DispatchError>)
    ensures dirPath.Some? && fs(dirPath.value) == Unlistable ==> r == Err(NullListing)
  {
    match dirPath
    case None => Err(NullDirectoryPath)
    case Some(d) =>
      match fs(d)
      case NotADirectory => Ok([])
      case Unlistable => Err(NullListing)
      case Entries(es) => PlanFiles(es, |es|, 0, mode)
  }

  /**
   The walk with the `files != null` test doing what it is there for: a
   directory that cannot be listed is skipped like a path that is not a
   directory. The files are numbered 1..k in listing order, the denominator
   is the number of all entries, and each file goes to the routine of the mode.
   */
  function Dispatch(dirPath: Option<string>, fs: string -> Listing, mode: Option<string>): (r: Result<seq<Step>, DispatchError>)
    ensures dirPath.None? ==> r == Err(NullDirectoryPath)
    ensures dirPath.Some? && !fs(dirPath.value).Entries? ==> r == Ok([])
    ensures dirPath.Some? && fs(dirPath.value).Entries? ==>
              var es := fs(dirPath.value).entries;
              && (r.Ok? <==> mode.Some? || |Files(es)| == 0)
              && (r.Ok? ==> |r.value| == |Files(es)| <= |es|)
              && (r.Ok? ==> forall k :: 0 <= k < |r.value| ==>
                    r.value[k].index == k + 1 && r.value[k].total == |es| && r.value[k].file == Files(es)[k])
              && (r.Ok? && mode.Some? ==> forall k :: 0 <= k < |r.value| ==> r.value[k].routine == RoutineFor(mode.value))
  {
    match dirPath
    case None => Err(NullDirectoryPath)
    case Some(d) =>
      match fs(d)
      case NotADirectory => Ok([])
      case Unlistable => Ok([])
      case Entries(es) => PlanFiles(es, |es|, 0, mode)
  }

  /** The two walks differ exactly on a directory that cannot be listed. */
  lemma UnlistableDirectory(d: string, fs: string -> Listing, mode: Option<string>)
    requires fs(d) == Unlistable
    ensures DispatchAsWritten(Some(d), fs, mode) == Err(NullListing)
    ensures Dispatch(Some(d), fs, mode) == Ok([])
  {
  }

  lemma SameWalkElsewhere(dirPath: Option<string>, fs: string -> Listing, mode: Option<string>)
    requires dirPath.Some? ==> fs(dirPath.value) != Unlistable
    ensures DispatchAsWritten(dirPath, fs, mode) == Dispatch(dirPath, fs, mode)
  {
  }

  /** Any mode other than the two names processes every file with no routine and raises nothing. */
  lemma {:induction false} UnknownModeDoesNothing(entries: seq<Entry>, seen: nat, mode: string)
    requires mode != "taxis" && mode != "trajectories"
    ensures PlanFiles(entries, |entries|, seen, Some(mode)).Ok?
    ensures forall s :: s in PlanFiles(entries, |entries|, seen, Some(mode)).value ==> s.routine == NoRoutine
  {
    var steps := PlanFiles(entries, |entries|, seen, Some(mode)).value;
    forall s | s in steps
      ensures s.routine == NoRoutine
    {
      var k :| 0 <= k < |steps| && steps[k] == s;
    }
  }
}
