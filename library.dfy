/** The media library: an insertion-ordered list of entries, at most
    MaxEntries long, in which no two entries share an absolute path. The
    functions here are the specification that the controller's methods
    follow. */
module Library {
  import opened Wrappers
  import opened Text

  /** The most entries the library accepts. */
  const MaxEntries: nat := 17

  /** One library entry: absolute path, file name, upper-cased extension and
      the "MM:SS" duration text. */
  datatype MediaItem = MediaItem(path: string, name: string, format: string, duration: string)

  /** What the controller learns about a chosen file: whether it exists, its
      absolute path and name, whether the toolkit accepts it when a media
      object is made for it (opens is false when that constructor throws),
      and the duration in whole seconds that the toolkit reports once the
      file is loaded (None when its error callback reports instead). */
  datatype MediaFile = MediaFile(present: bool, absolutePath: string, name: string, opens: bool, seconds: Option<nat>)

  /** The outcome of an operation on a file, one value per error dialog;
      Unreadable also stands for a media constructor that throws. */
  datatype Status = Ok | NotFound | LimitReached | Duplicate | Unreadable

  predicate HasPath(lib: seq<MediaItem>, path: string)
  {
    exists i :: 0 <= i < |lib| && lib[i].path == path
  }

  predicate DistinctPaths(lib: seq<MediaItem>)
  {
    forall i, j :: 0 <= i < j < |lib| ==> lib[i].path != lib[j].path
  }

  /** The two invariants the library keeps. */
  predicate LibraryInvariant(lib: seq<MediaItem>)
  {
    |lib| <= MaxEntries && DistinctPaths(lib)
  }

  /** The entry recorded for a file whose duration is known. */
  function Entry(f: MediaFile): MediaItem
    requires f.seconds.Some?
  {
    MediaItem(f.absolutePath, f.name, FileExtension(f.name), FormatDuration(f.seconds.value))
  }

  /** The checks of addToLibrary, in the order addToLibrary makes them. */
  function Admit(lib: seq<MediaItem>, f: MediaFile): Status
  {
    if !f.present then NotFound
    else if |lib| >= MaxEntries then LimitReached
    else if HasPath(lib, f.absolutePath) then Duplicate
    else if !f.opens || f.seconds.None? then Unreadable
    else Ok
  }

  /** The library after one add: one entry appended when admitted,
      unchanged otherwise. */
  function AfterAdd(lib: seq<MediaItem>, f: MediaFile): seq<MediaItem>
  {
    if Admit(lib, f) == Ok then lib + [Entry(f)] else lib
  }

  /** An add keeps both invariants. */
  lemma AddKeepsInvariant(lib: seq<MediaItem>, f: MediaFile)
    requires LibraryInvariant(lib)
    ensures LibraryInvariant(AfterAdd(lib, f))
  {
  }

  /** Adding the same file a second time is rejected and changes nothing:
      an add is idempotent. */
  lemma AddTwiceRejected(lib: seq<MediaItem>, f: MediaFile)
    ensures Admit(AfterAdd(lib, f), f) != Ok
    ensures AfterAdd(AfterAdd(lib, f), f) == AfterAdd(lib, f)
  {
    var lib' := AfterAdd(lib, f);
    if Admit(lib, f) == Ok {
      assert lib'[|lib|].path == f.absolutePath;
    }
  }

  /** After an admitted add the library holds the file's path. */
  lemma AddRecordsPath(lib: seq<MediaItem>, f: MediaFile)
    ensures Admit(lib, f) == Ok ==> HasPath(AfterAdd(lib, f), f.absolutePath)
    ensures forall p :: HasPath(lib, p) ==> HasPath(AfterAdd(lib, f), p)
  {
    var lib' := AfterAdd(lib, f);
    if Admit(lib, f) == Ok {
      assert lib'[|lib|].path == f.absolutePath;
      forall p | HasPath(lib, p) ensures HasPath(lib', p) {
        var i :| 0 <= i < |lib| && lib[i].path == p;
        assert lib'[i] == lib[i];
      }
    }
  }

  // ---------------------------------------------------------------------
  // Importing a batch of files (handleManageLibrary)
  // ---------------------------------------------------------------------

  /** A file whose media constructor throws inside addToLibrary: it passes
      the checks for existence, room and a new path, and the toolkit refuses
      it as soon as a media object is made for it. */
  predicate Throws(lib: seq<MediaItem>, f: MediaFile)
  {
    Admit(lib, f) == Unreadable && !f.opens
  }

  /** The library after importing files in order, with one status per file
      examined. The import ends at the first file met while the library is
      full, reported as LimitReached, and at the first file whose media
      constructor throws, reported as Unreadable, since nothing in the
      import catches that exception: no later file is examined. */
  function ImportBatch(lib: seq<MediaItem>, files: seq<MediaFile>): (seq<MediaItem>, seq<Status>)
    decreases |files|
  {
    if files == [] then (lib, [])
    else if |lib| < MaxEntries then
      if Throws(lib, files[0]) then (lib, [Unreadable])
      else
        var rest := ImportBatch(AfterAdd(lib, files[0]), files[1..]);
        (rest.0, [Admit(lib, files[0])] + rest.1)
    else (lib, [LimitReached])
  }

  function CountOk(reports: seq<Status>): nat
  {
    if reports == [] then 0
    else (if reports[0] == Ok then 1 else 0) + CountOk(reports[1..])
  }

  /** The statuses end at a file that stops an import: one met while the
      library is full, or one whose media constructor threw. */
  predicate EndsAtStop(files: seq<MediaFile>, reports: seq<Status>)
  {
    0 < |reports| <= |files| &&
    (reports[|reports| - 1] == LimitReached ||
     (reports[|reports| - 1] == Unreadable && !files[|reports| - 1].opens))
  }

  /** An import keeps both invariants. */
  lemma {:induction false} ImportKeepsInvariant(lib: seq<MediaItem>, files: seq<MediaFile>)
    requires LibraryInvariant(lib)
    ensures LibraryInvariant(ImportBatch(lib, files).0)
    decreases |files|
  {
    if files != [] && |lib| < MaxEntries && !Throws(lib, files[0]) {
      AddKeepsInvariant(lib, files[0]);
      ImportKeepsInvariant(AfterAdd(lib, files[0]), files[1..]);
    }
  }

  /** An import only appends: the old entries stay first and unchanged, one
      entry is appended per file reported Ok, and at most one status is
      reported per file. */
  lemma {:induction false} ImportAppends(lib: seq<MediaItem>, files: seq<MediaFile>)
    ensures var (lib', reports) := ImportBatch(lib, files);
      |reports| <= |files| &&
      |lib| <= |lib'| && lib'[..|lib|] == lib &&
      |lib'| == |lib| + CountOk(reports)
    decreases |files|
  {
    if files != [] && |lib| < MaxEntries && !Throws(lib, files[0]) {
      var mid := AfterAdd(lib, files[0]);
      ImportAppends(mid, files[1..]);
      var (lib', reports) := ImportBatch(lib, files);
      assert reports[1..] == ImportBatch(mid, files[1..]).1;
      assert lib'[..|lib|] == lib'[..|mid|][..|lib|];
    }
  }

  /** LimitReached is reported only for the file at which the import
      stopped: it is the last status, it occurs once, and the library is
      full. */
  lemma {:induction false} ImportStopsAtCap(lib: seq<MediaItem>, files: seq<MediaFile>)
    ensures var (lib', reports) := ImportBatch(lib, files);
      LimitReached in reports ==> reports[|reports| - 1] == LimitReached &&
                                  LimitReached !in reports[..|reports| - 1] &&
                                  |lib'| >= MaxEntries
    decreases |files|
  {
    if files != [] && |lib| < MaxEntries && !Throws(lib, files[0]) {
      var mid := AfterAdd(lib, files[0]);
      ImportStopsAtCap(mid, files[1..]);
      var (lib', reports) := ImportBatch(lib, files);
      var rest := ImportBatch(mid, files[1..]).1;
      assert reports == [Admit(lib, files[0])] + rest;
      if rest != [] {
        assert reports[..|reports| - 1] == [Admit(lib, files[0])] + rest[..|rest| - 1];
      }
    }
  }

  /** An import that ends before the last file ends at a stop; a file whose
      constructor throws is only ever the last one examined, and it threw
      against the final library, which it left unchanged. */
  lemma {:induction false} ImportEndsEarly(lib: seq<MediaItem>, files: seq<MediaFile>)
    ensures var (lib', reports) := ImportBatch(lib, files);
      |reports| <= |files| &&
      (|reports| < |files| ==> EndsAtStop(files, reports)) &&
      (forall i :: 0 <= i < |reports| - 1 && reports[i] == Unreadable ==> files[i].opens) &&
      (EndsAtStop(files, reports) && reports[|reports| - 1] == Unreadable ==>
         Throws(lib', files[|reports| - 1]))
    decreases |files|
  {
    if files != [] && |lib| < MaxEntries && !Throws(lib, files[0]) {
      var mid := AfterAdd(lib, files[0]);
      ImportEndsEarly(mid, files[1..]);
      ImportAppends(mid, files[1..]);
      var (lib', reports) := ImportBatch(lib, files);
      var rest := ImportBatch(mid, files[1..]).1;
      assert reports == [Admit(lib, files[0])] + rest;
      if rest != [] {
        assert files[1..][|rest| - 1] == files[|reports| - 1];
        forall i | 0 <= i < |reports| - 1 && reports[i] == Unreadable
          ensures files[i].opens
        {
          if 0 < i {
            assert reports[i] == rest[i - 1] && files[i] == files[1..][i - 1];
          }
        }
      }
    }
  }

  /** Files after the one at which the import stopped are never examined:
      appending more files to the batch changes nothing. */
  lemma {:induction false} ImportIgnoresRest(lib: seq<MediaItem>, files: seq<MediaFile>, more: seq<MediaFile>)
    requires EndsAtStop(files, ImportBatch(lib, files).1)
    ensures ImportBatch(lib, files + more) == ImportBatch(lib, files)
    decreases |files|
  {
    var all := files + more;
    if |lib| < MaxEntries && !Throws(lib, files[0]) {
      var mid := AfterAdd(lib, files[0]);
      var reports := ImportBatch(lib, files).1;
      var rest := ImportBatch(mid, files[1..]).1;
      ImportFirst(lib, files);
      assert all[0] == files[0] && all[1..] == files[1..] + more;
      ImportFirst(lib, all);
      assert reports == [Admit(lib, files[0])] + rest;
      assert rest != [] && files[1..][|rest| - 1] == files[|reports| - 1];
      ImportIgnoresRest(mid, files[1..], more);
    }
  }

  /** The first step of an import into a library with room, of a file whose
      constructor does not throw. */
  lemma ImportFirst(lib: seq<MediaItem>, files: seq<MediaFile>)
    requires files != [] && |lib| < MaxEntries && !Throws(lib, files[0])
    ensures Admit(lib, files[0]) != LimitReached
    ensures ImportBatch(lib, files) ==
      (ImportBatch(AfterAdd(lib, files[0]), files[1..]).0,
       [Admit(lib, files[0])] + ImportBatch(AfterAdd(lib, files[0]), files[1..]).1)
  {
  }

  /** One step of an import into a library with room, after the statuses
      already reported: a throwing first file ends the import with the
      library unchanged, any other is added and the import goes on. */
  lemma ImportStep(lib: seq<MediaItem>, files: seq<MediaFile>, reports: seq<Status>)
    requires files != [] && |lib| < MaxEntries
    ensures Throws(lib, files[0]) ==> ImportBatch(lib, files) == (lib, [Unreadable])
    ensures !Throws(lib, files[0]) ==>
      var next := ImportBatch(AfterAdd(lib, files[0]), files[1..]);
      ImportBatch(lib, files).0 == next.0 &&
      reports + ImportBatch(lib, files).1 == reports + [Admit(lib, files[0])] + next.1
  {
  }
}
