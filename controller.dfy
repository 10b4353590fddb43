/** The media player's controller: the library list, the selected entry,
    the toolkit player (if one has been created) and the two transport
    flags the controller keeps beside it. */
module Controller {
  import opened Wrappers
  import opened Library
  import opened Navigation

  /** The five playback rates the speed menu offers. */
  datatype Speed = Half | ThreeQuarters | Normal | OneAndHalf | Double {
    function Rate(): real
    {
      match this
      case Half => 0.5
      case ThreeQuarters => 0.75
      case Normal => 1.0
      case OneAndHalf => 1.5
      case Double => 2.0
    }
  }

  datatype Transport = Playing | Paused | Stopped

  /** What the controller drives on the toolkit's player: its transport
      state and its rate. */
  datatype PlayerState = PlayerState(transport: Transport, rate: Speed)

  /** The player after a load (loadMediaFile): unchanged when the file is
      missing; otherwise the old player is stopped and, when the toolkit
      accepts the file, replaced by a new one playing at the default rate. */
  function PlayerAfterLoad(p: Option<PlayerState>, present: bool, readable: bool): Option<PlayerState>
  {
    if !present then p
    else if readable then Some(PlayerState(Playing, Normal))
    else if p.Some? then Some(p.value.(transport := Stopped))
    else None
  }

  /** The status of a load, one value per dialog of loadMediaFile. */
  function LoadStatus(present: bool, readable: bool): Status
  {
    if !present then NotFound else if !readable then Unreadable else Ok
  }

  class MediaController {
    var library: seq<MediaItem>
    /** The library table's selected index, -1 when nothing is selected. */
    var selected: int
    /** The toolkit player, None until a file has been loaded. */
    var player: Option<PlayerState>
    var isPlaying: bool
    var currentSpeed: Speed

    /** The library keeps its cap and distinct paths, the selection is an
        entry or none, and the controller believes the player plays only
        when it does. */
    ghost predicate Valid()
      reads this
    {
      LibraryInvariant(library) &&
      IsSelection(selected, |library|) &&
      (isPlaying ==> player.Some? && player.value.transport == Playing)
    }

    constructor ()
      ensures Valid()
      ensures library == [] && selected == -1 && player == None
      ensures !isPlaying && currentSpeed == Normal
    {
      library := [];
      selected := -1;
      player := None;
      isPlaying := false;
      currentSpeed := Normal;
    }

    // -------------------------------------------------------------------
    // Library
    // -------------------------------------------------------------------

    /** The duplicate scan: whether some entry already has this path. */
    method IsDuplicate(path: string) returns (dup: bool)
      ensures dup <==> HasPath(library, path)
    {
      dup := false;
      var i := 0;
      while i < |library| && !dup
        invariant 0 <= i <= |library|
        invariant dup <==> exists j :: 0 <= j < i && library[j].path == path
      {
        dup := library[i].path == path;
        i := i + 1;
      }
    }

    /** addToLibrary: a missing file, a full library and a path already
        present are rejected in that order, and an unreadable file is
        reported by the toolkit; otherwise the entry is appended. */
    method AddToLibrary(f: MediaFile) returns (r: Status)
      requires Valid()
      modifies this`library
      ensures Valid()
      ensures r == Admit(old(library), f) && library == AfterAdd(old(library), f)
      ensures !f.present ==> r == NotFound
      ensures f.present && |old(library)| >= MaxEntries ==> r == LimitReached
      ensures f.present && |old(library)| < MaxEntries && HasPath(old(library), f.absolutePath) ==> r == Duplicate
      ensures r != Ok ==> library == old(library)
      ensures r == Ok ==> library == old(library) + [Entry(f)]
    {
      if !f.present {
        return NotFound;
      }
      if |library| >= MaxEntries {
        return LimitReached;
      }
      var dup := IsDuplicate(f.absolutePath);
      if dup {
        return Duplicate;
      }
      if !f.opens {
        return Unreadable;
      }
      match f.seconds
      case None =>
        r := Unreadable;
      case Some(s) =>
        AddKeepsInvariant(library, f);
        library := library + [Entry(f)];
        r := Ok;
    }

    /** handleManageLibrary: adds the chosen files in order and stops at the
        first file met while the library is full, or at the first file whose
        media constructor throws. */
    method HandleManageLibrary(files: seq<MediaFile>) returns (reports: seq<Status>)
      requires Valid()
      modifies this`library
      ensures Valid()
      ensures (library, reports) == ImportBatch(old(library), files)
    {
      reports := [];
      ghost var outcome := ImportBatch(library, files);
      assert files[0..] == files && [] + outcome.1 == outcome.1;
      for i := 0 to |files|
        invariant Valid()
        invariant outcome.0 == ImportBatch(library, files[i..]).0
        invariant outcome.1 == reports + ImportBatch(library, files[i..]).1
      {
        assert files[i..][0] == files[i] && files[i..][1..] == files[i + 1..];
        if |library| < MaxEntries {
          ImportStep(library, files[i..], reports);
          var r := AddToLibrary(files[i]);
          reports := reports + [r];
          if r == Unreadable && !files[i].opens {
            break;
          }
        } else {
          reports := reports + [LimitReached];
          break;
        }
      }
      assert files[|files|..] == [] && reports + [] == reports;
      assert outcome == (outcome.0, outcome.1);
    }

    // -------------------------------------------------------------------
    // Loading and selection
    // -------------------------------------------------------------------

    /** loadMediaFile: a missing file is rejected; otherwise playback is
        stopped and, when the toolkit can read the file, a new player is
        created and started at its default rate. The isPlaying flag is left
        as stopMedia set it. */
    method LoadMediaFile(present: bool, readable: bool) returns (r: Status)
      requires Valid()
      modifies this`player, this`isPlaying
      ensures Valid()
      ensures r == LoadStatus(present, readable)
      ensures player == PlayerAfterLoad(old(player), present, readable)
      ensures !present ==> player == old(player) && isPlaying == old(isPlaying)
      ensures present ==> !isPlaying
      ensures r == Ok ==> player == Some(PlayerState(Playing, Normal))
      ensures present && !readable ==>
        player == (if old(player).Some? then Some(old(player).value.(transport := Stopped)) else None)
    {
      if !present {
        return NotFound;
      }
      StopMedia();
      if readable {
        player := Some(PlayerState(Playing, Normal));
        r := Ok;
      } else {
        r := Unreadable;
      }
    }

    /** handleOpenFile: the chosen file is loaded and then added to the
        library. */
    method HandleOpenFile(f: MediaFile) returns (load: Status, add: Status)
      requires Valid()
      modifies this`player, this`isPlaying, this`library
      ensures Valid()
      ensures load == LoadStatus(f.present, f.opens)
      ensures player == PlayerAfterLoad(old(player), f.present, f.opens)
      ensures f.present ==> !isPlaying
      ensures load == Ok ==> player == Some(PlayerState(Playing, Normal))
      ensures !f.present ==> player == old(player) && isPlaying == old(isPlaying)
      ensures add == Admit(old(library), f) && library == AfterAdd(old(library), f)
    {
      load := LoadMediaFile(f.present, f.opens);
      add := AddToLibrary(f);
    }

    /** handleLibrarySelection: with an entry selected, its file is loaded
        (present and readable describe that file); with none, nothing
        happens. */
    method HandleLibrarySelection(present: bool, readable: bool) returns (r: Option<Status>)
      requires Valid()
      modifies this`player, this`isPlaying
      ensures Valid()
      ensures selected < 0 ==> r == None && player == old(player) && isPlaying == old(isPlaying)
      ensures 0 <= selected ==> r == Some(LoadStatus(present, readable))
      ensures 0 <= selected ==> player == PlayerAfterLoad(old(player), present, readable)
      ensures 0 <= selected && present ==> !isPlaying
      ensures 0 <= selected && !present ==> player == old(player) && isPlaying == old(isPlaying)
      ensures r == Some(Ok) ==> player == Some(PlayerState(Playing, Normal)) && !isPlaying
    {
      if selected < 0 {
        return None;
      }
      var s := LoadMediaFile(present, readable);
      r := Some(s);
    }

    /** next: selects the following entry and loads it, if there is one. */
    method Next(present: bool, readable: bool) returns (r: Option<Status>)
      requires Valid()
      modifies this`selected, this`player, this`isPlaying
      ensures Valid()
      ensures selected == NextIndex(old(selected), |library|)
      ensures selected == old(selected) ==> r == None && player == old(player) && isPlaying == old(isPlaying)
      ensures selected != old(selected) ==> r == Some(LoadStatus(present, readable))
      ensures selected != old(selected) ==> player == PlayerAfterLoad(old(player), present, readable)
      ensures selected != old(selected) && present ==> !isPlaying
      ensures selected != old(selected) && !present ==> isPlaying == old(isPlaying)
      ensures r == Some(Ok) ==> player == Some(PlayerState(Playing, Normal))
    {
      if selected < |library| - 1 {
        selected := selected + 1;
        r := HandleLibrarySelection(present, readable);
      } else {
        r := None;
      }
    }

    /** previous: selects the preceding entry and loads it, if there is
        one. */
    method Previous(present: bool, readable: bool) returns (r: Option<Status>)
      requires Valid()
      modifies this`selected, this`player, this`isPlaying
      ensures Valid()
      ensures selected == PreviousIndex(old(selected), |library|)
      ensures selected == old(selected) ==> r == None && player == old(player) && isPlaying == old(isPlaying)
      ensures selected != old(selected) ==> r == Some(LoadStatus(present, readable))
      ensures selected != old(selected) ==> player == PlayerAfterLoad(old(player), present, readable)
      ensures selected != old(selected) && present ==> !isPlaying
      ensures selected != old(selected) && !present ==> isPlaying == old(isPlaying)
      ensures r == Some(Ok) ==> player == Some(PlayerState(Playing, Normal))
    {
      if selected > 0 {
        selected := selected - 1;
        r := HandleLibrarySelection(present, readable);
      } else {
        r := None;
      }
    }

    // -------------------------------------------------------------------
    // Transport
    // -------------------------------------------------------------------

    /** play: with a player, starts it at the chosen speed and records that
        it plays; without one, nothing changes. */
    method Play()
      requires Valid()
      modifies this`player, this`isPlaying
      ensures Valid()
      ensures old(player).None? ==> player == None && isPlaying == old(isPlaying)
      ensures old(player).Some? ==> player == Some(PlayerState(Playing, currentSpeed)) && isPlaying
    {
      if player.Some? {
        player := Some(PlayerState(Playing, currentSpeed));
        isPlaying := true;
      }
    }

    /** pause: with a player, pauses it and records that it does not play. */
    method Pause()
      requires Valid()
      modifies this`player, this`isPlaying
      ensures Valid()
      ensures old(player).None? ==> player == None && isPlaying == old(isPlaying)
      ensures old(player).Some? ==> player == Some(old(player).value.(transport := Paused)) && !isPlaying
    {
      if player.Some? {
        player := Some(player.value.(transport := Paused));
        isPlaying := false;
      }
    }

    /** stop: with a player, stops it and records that it does not play. */
    method Stop()
      requires Valid()
      modifies this`player, this`isPlaying
      ensures Valid()
      ensures old(player).None? ==> player == None && isPlaying == old(isPlaying)
      ensures old(player).Some? ==> player == Some(old(player).value.(transport := Stopped)) && !isPlaying
    {
      if player.Some? {
        player := Some(player.value.(transport := Stopped));
        isPlaying := false;
      }
    }

    /** stopMedia: as stop; the extra rewind to the start is a position the
        model does not track. */
    method StopMedia()
      requires Valid()
      modifies this`player, this`isPlaying
      ensures Valid()
      ensures old(player).None? ==> player == None && isPlaying == old(isPlaying)
      ensures old(player).Some? ==> player == Some(old(player).value.(transport := Stopped)) && !isPlaying
    {
      if player.Some? {
        player := Some(player.value.(transport := Stopped));
        isPlaying := false;
      }
    }

    /** setPlaybackSpeed: always records the speed, and applies it to the
        player when there is one. */
    method SetPlaybackSpeed(speed: Speed)
      requires Valid()
      modifies this`currentSpeed, this`player
      ensures Valid()
      ensures currentSpeed == speed
      ensures old(player).None? ==> player == None
      ensures old(player).Some? ==> player == Some(old(player).value.(rate := speed))
    {
      currentSpeed := speed;
      if player.Some? {
        player := Some(player.value.(rate := speed));
      }
    }
  }
}
