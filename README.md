# Media player controller — a Dafny model

This project models the logic inside the desktop media player's controller
(`MainController`). Everything else in that class hands work to the GUI
toolkit's media widget. The model covers four parts:

- **The media library.** An insertion-ordered list of entries. Each entry holds an
  absolute path, a file name, an upper-cased extension and an `MM:SS` duration.
  - `addToLibrary` rejects, in this order: a file that does not exist, any add
    once the library holds 17 entries, and a path that is already present.
    Otherwise it appends one entry.
  - `handleManageLibrary` adds a batch of files in order. It stops at the first
    file it meets while the library is full, and at the first file whose media
    constructor throws, because nothing in the loop catches that exception.
  - Both keep two invariants: at most 17 entries, and no two entries with the
    same path.
- **The two string helpers.** `getFileExtension` and `formatDuration`
  (`%02d:%02d` of whole minutes and remaining seconds).
- **Selection navigation.** `next` and `previous` move the selected index by one
  when the result is still an entry. Each then loads a file, given by whether
  it exists and whether the toolkit accepts it.
- **Transport.** The controller's `isPlaying` and `currentSpeed` fields, next to
  the state it drives on the toolkit's player: play, pause, stop, rewind-stop,
  set speed, and loading a file into a new player.

Layout:

- `wrappers.dfy` holds `Option`.
- `text.dfy` (module `Text`) holds the string helpers.
- `library.dfy` (module `Library`) holds the entries and the specification of
  adding and importing.
- `navigation.dfy` (module `Navigation`) holds the selection rules.
- `controller.dfy` (module `Controller`) holds the class `MediaController`.
  - Its fields are `library`, `selected`, `player`, `isPlaying` and
    `currentSpeed`.
  - Its methods update those fields in place. Each is proved against the
    functions of `Library` and `Navigation`.
  - It keeps the object invariant `Valid()`: the library invariants, a
    selection that is an entry or -1, and `isPlaying` only while the player
    plays.

Inputs stand in for what the toolkit and the file system report:

- A chosen file is a `MediaFile`. It gives:
  - whether the file exists;
  - its absolute path and its name;
  - `opens`: whether the toolkit accepts the file when a media object is made
    for it. It is false when that constructor throws;
  - the duration in whole seconds that the toolkit reports once the file has
    loaded. It is `None` when the toolkit's error callback reports instead.
- `LoadMediaFile`, `HandleLibrarySelection`, `Next` and `Previous` take two
  booleans: whether the file to load exists, and whether the toolkit accepts
  it. Nothing in the model ties these two flags to the path of the selected
  entry.
  - A file the toolkit accepts gets a new, playing player, even if its error
    callback fires later.
  - A file it refuses gets no player.
- Each error dialog becomes a value of `Status`: `NotFound`, `LimitReached`,
  `Duplicate`, or `Unreadable`. A media constructor that throws is also
  reported as `Unreadable`. In a batch import the program shows no dialog for
  it, and the import ends there.

Two points where the code behaves differently from what its names suggest:

- The extension is `""` not only when the name has no `.` but also when the
  name ends in `.`. `Text.FileExtensionEmpty` states the exact condition.
- `loadMediaFile` starts the new player but leaves `isPlaying` false. The
  invariant therefore holds in one direction only: `isPlaying` implies the
  player is playing.

## Model

| member | source | states |
|---|---|---|
| Text.UpperChar | src/MainController.java:308 | a lower-case ASCII letter becomes the same letter in upper case; every other character is kept; the result is never lower-case |
| Text.Upper | src/MainController.java:308 | same length; no lower-case letter remains; every other character is kept; each lower-case letter becomes its upper-case form |
| Text.UpperIdempotent | src/MainController.java:308 | upper-casing twice equals upper-casing once |
| Text.LastIndexOf | src/MainController.java:307 | -1 exactly when the character is absent; otherwise an index holding it, with no occurrence after it |
| Text.FileExtension | src/MainController.java:305-309 | the extension has no `.` and no lower-case letter; it is `""` when the name has no `.`; it is shorter than the name |
| Text.FileExtensionAfterLastDot | src/MainController.java:305-309 | for the position of the last `.` in the name, the extension is the upper-cased text after it |
| Text.FileExtensionEmpty | src/MainController.java:305-309 | the extension is `""` if and only if the name has no `.` or ends in `.` |
| Text.Digits | src/MainController.java:302 | decimal rendering: at least one digit, no leading zero except for 0, one digit exactly below 10 |
| Text.DigitsRoundTrip | src/MainController.java:302 | reading the rendering back gives the number |
| Text.LeadingZero | src/MainController.java:302 | a leading `0` does not change the value of a digit string |
| Text.ZeroPad2 | src/MainController.java:302 | `%02d` of one field; its contract is carried by `Text.ZeroPad2ReadsBack` |
| Text.ZeroPad2ReadsBack | src/MainController.java:302 | `%02d`: only digits, at least two, exactly two below 100, no leading zero from 10 up, and the value read back is the number |
| Text.FormatDuration | src/MainController.java:299-303 | `%02d:%02d` of whole minutes and remaining seconds; its contract is carried by `Text.FormatDurationReadsBack`, `Text.FormatDurationInjective` and `Text.FormatDurationExample` |
| Text.FormatDurationReadsBack | src/MainController.java:299-303 | `MM:SS` text whose minutes field and two-digit seconds field read back to s / 60 and s % 60: seconds below 60 and minutes*60 + seconds = s; the minutes field is two digits unless it needs more, and then has no leading zero |
| Text.FormatDurationValue | src/MainController.java:299-303 | reading a rendered duration back as minutes times 60 plus seconds gives the duration |
| Text.FormatDurationInjective | src/MainController.java:299-303 | two durations with the same text are equal |
| Text.FormatDurationExample | src/MainController.java:299-303 | 125 seconds renders as `02:05` |
| Library.Entry | src/MainController.java:274-279 | the new entry: the file's absolute path, its name, `FileExtension` of the name and `FormatDuration` of the duration; the properties of the last two are the `Text` lemmas |
| Library.Admit | src/MainController.java:245-296 | the checks in order: missing file, full library, duplicate path, then a file whose media constructor throws or whose error callback fires; its contract is carried by `Controller.MediaController.AddToLibrary` and `Library.AddTwiceRejected` |
| Library.AfterAdd | src/MainController.java:244-281 | the library after one add; its contract is carried by `Library.AddKeepsInvariant`, `Library.AddTwiceRejected` and `Library.AddRecordsPath` |
| Library.ImportBatch | src/MainController.java:369-377 | the batch import, which ends at a full library or at a throwing media constructor; its contract is carried by `Library.ImportKeepsInvariant`, `Library.ImportAppends`, `Library.ImportStopsAtCap`, `Library.ImportEndsEarly` and `Library.ImportIgnoresRest` |
| Library.AddKeepsInvariant | src/MainController.java:244-281 | an add keeps at most 17 entries and distinct paths |
| Library.AddTwiceRejected | src/MainController.java:256-263 | adding the same file again is rejected and leaves the library as the first add did |
| Library.AddRecordsPath | src/MainController.java:274-281 | an admitted add puts the file's path in the library, and no path is lost |
| Library.ImportFirst | src/MainController.java:370-373 | with room in the library and a first file whose constructor does not throw, that file goes through the add checks, which cannot report the limit, and the import continues with the rest |
| Library.ImportStep | src/MainController.java:370-373 | with room in the library, a first file whose constructor throws ends the import with the library unchanged; any other file is added and the import goes on with the rest |
| Library.ImportKeepsInvariant | src/MainController.java:369-377 | a batch import keeps at most 17 entries and distinct paths |
| Library.ImportAppends | src/MainController.java:369-377 | an import keeps the old entries first and unchanged, appends one entry per file reported Ok, and reports at most one status per file |
| Library.ImportStopsAtCap | src/MainController.java:370-376 | LimitReached is reported at most once, only as the last status, and only with a full library |
| Library.ImportEndsEarly | src/MainController.java:370-377 | an import that ends before the last file ends at a full library or at a file whose media constructor threw; such a file can only be the last one examined, and it threw against the final library, which it left unchanged |
| Library.ImportIgnoresRest | src/MainController.java:370-376 | once the import has stopped, at the cap or at a throwing file, appending more files to the batch changes neither the library nor the statuses |
| Navigation.NextIndex | src/MainController.java:400-408 | moves forward by one exactly when the next index is still an entry; from no selection it selects the first entry; a valid selection stays valid |
| Navigation.PreviousIndex | src/MainController.java:420-426 | moves back by one exactly when the index is above 0; never falls back to no selection; a valid selection stays valid |
| Navigation.NextPreviousInverse | src/MainController.java:400-426 | a move by `previous` undoes a move by `next` from an entry, and the reverse |
| Controller.MediaController.constructor | src/MainController.java:39-44 | empty library, no selection, no player, not playing, speed 1.0 |
| Controller.MediaController.IsDuplicate | src/MainController.java:257-258 | the scan answers true exactly when some entry has the path |
| Controller.MediaController.AddToLibrary | src/MainController.java:244-297 | rejects a missing file first, then a full library, then a duplicate path, then a file the toolkit refuses or reports an error for, each leaving the library unchanged; otherwise appends exactly the file's entry; keeps `Valid()` |
| Controller.MediaController.HandleManageLibrary | src/MainController.java:360-379 | the new library and the statuses are those of `ImportBatch` on the old library and the files; keeps `Valid()` |
| Controller.MediaController.LoadMediaFile | src/MainController.java:135-177 | a missing file changes nothing; otherwise playback stops, and a file the toolkit accepts gets a new playing player at rate 1.0, while `isPlaying` stays false; the player is `PlayerAfterLoad` of the old one |
| Controller.MediaController.HandleOpenFile | src/MainController.java:117-133 | loads the chosen file, with the load's status and the new player given by `LoadStatus` and `PlayerAfterLoad` and `isPlaying` false when the file exists; a missing file leaves the player and `isPlaying` unchanged; then adds it as `AddToLibrary` does |
| Controller.MediaController.HandleLibrarySelection | src/MainController.java:311-322 | with no selection nothing changes; otherwise a file is loaded, given by whether it exists and whether the toolkit accepts it: the status is `LoadStatus`, the player is `PlayerAfterLoad` of the old one (unchanged when missing, stopped when refused, new and playing when accepted), and `isPlaying` is false unless the file is missing |
| Controller.MediaController.Next | src/MainController.java:399-408 | the selection becomes `NextIndex` of the old one; when it moved, a file is loaded (status `LoadStatus`, player `PlayerAfterLoad` of the old one, `isPlaying` false unless the file is missing); otherwise nothing else changes |
| Controller.MediaController.Previous | src/MainController.java:419-426 | the selection becomes `PreviousIndex` of the old one; when it moved, a file is loaded (status `LoadStatus`, player `PlayerAfterLoad` of the old one, `isPlaying` false unless the file is missing); otherwise nothing else changes |
| Controller.MediaController.Play | src/MainController.java:184-191 | with a player, it plays at `currentSpeed` and `isPlaying` is true; without one nothing changes |
| Controller.MediaController.Pause | src/MainController.java:193-199 | with a player, it is paused and `isPlaying` is false; without one nothing changes |
| Controller.MediaController.Stop | src/MainController.java:410-417 | with a player, it is stopped and `isPlaying` is false; without one nothing changes |
| Controller.MediaController.StopMedia | src/MainController.java:201-209 | with a player, it is stopped and `isPlaying` is false; without one nothing changes |
| Controller.MediaController.SetPlaybackSpeed | src/MainController.java:212-229 | `currentSpeed` is always the new speed, and a present player takes it as its rate |

## Left out

- The toolkit objects: media, player, media view, file chooser, dialogs,
  sliders and the table's selection model. A player is the value `PlayerState`:
  its transport state and its rate. Dialogs are `Status` values.
- The asynchronous ready and error callbacks of `addToLibrary`. The model runs
  the cap check, the duplicate check and the append as one step. In the
  program the append happens later, so a batch import can pass the checks for
  several files before any is appended. It can then exceed 17 entries, which
  the model does not show.
- Which file `HandleLibrarySelection`, `Next` and `Previous` load: they take
  the file's existence and acceptance as flags, and the player does not record
  a path. Their contracts therefore do not state that the loaded file is the
  selected entry.
- Controller.MediaController.StopMedia: the extra seek to zero is not modelled,
  because the model does not track the playback position. In the model it
  therefore has the same effect as `Stop`.
- Playback position, seeking and volume (the slider listeners, `seekVideo`,
  `adjustVolume`). These only pass values to the player.
- The player's own state changes (end of media, a playback error) are not
  modelled.
- The table resetting its selection when its items are replaced after an add
  is not modelled.
- Video sizing (`adjustMediaViewSize`, `reduceSize`, `increaseSize`, the resize
  listener) and the panel, fullscreen and about toggles. These are
  floating-point layout over sizes the toolkit reports.
- Text.FormatDurationReadsBack: the duration is taken in whole seconds. For a non-negative, finite duration
  the `(int)` casts give the same fields as the floor of the duration, so
  59.9 seconds renders as `00:59`. Negative and NaN durations are not
  modelled, and neither is the saturation of `(int)` above 2^31 - 1 minutes.
- Text.Upper: upper-cases ASCII letters only. Locale-dependent and other
  Unicode case mappings of `toUpperCase` are not modelled.
- `%02d` is rendered with ASCII digits. Locale-specific digits are not modelled.
- The file system (`exists`, `getAbsolutePath`, `getName`, `toURI`). These are
  inputs.
- `handleExit`, which stops the player and ends the process.
- `MainApp.java` (stage, scene and the F11 key). It has no logic.
- The five speed handlers (`setSpeed05` … `setSpeed20`) are the five
  constructors of `Speed`.
