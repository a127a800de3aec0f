/**
  The player's transport: the state the GUI keeps about playback and the
  handlers that change it (play/pause, next, row activation, end of stream,
  window close, slider drag, and the slider-polling timer).

  The media pipeline is reduced to its state; the filesystem is reduced to the
  set of paths that are directories; a position/duration query is an input.
  Polling timers are counted, because every `timeout_add` registers one more.
 */
module Transport {
  import opened Common
  import opened Listing

  /** The GStreamer element states the program uses. */
  datatype Pipeline = Null | Ready | Paused | Playing

  /** One successful answer to the position and duration queries, in whole time units. */
  datatype Report = Report(position: nat, duration: nat)

  /** Everything the handlers read or write. */
  datatype Session = Session(
    dirname: string,          // the directory being listed
    listing: seq<FileName>,   // the rows, in display order
    selected: Option<nat>,    // the selected row, if any
    isPlaying: bool,          // the `is_playing` flag
    pipeline: Pipeline,       // the state last requested of the playbin with `set_state`
    uri: Option<string>,      // the playbin's `uri` property
    sliderPos: nat,           // the slider's value
    duration: nat,            // the slider's upper bound
    lastSeek: Option<nat>,    // the target of the most recent seek issued to the playbin
    pollers: nat)             // slider-polling timers still registered

  /** What one tick of a polling timer returns (keep the timer?) and leaves behind. */
  datatype Poll = Poll(keep: bool, session: Session)

  /** What `player` puts in front of a file name to make the playbin's uri. */
  const UriPrefix: string := "file:///"

  /** The slider's range before the first successful poll. */
  const InitialSliderMax: nat := 100

  /** The selection, when there is one, names an existing row. */
  predicate SelectionInRange(s: Session)
  {
    s.selected.Some? ==> s.selected.value < |s.listing|
  }

  /** A listing as `make_list` builds it: "..", then sorted visible names. */
  predicate ValidListing(l: seq<FileName>)
  {
    && |l| >= 1
    && l[0] == Parent
    && Sorted(l[1..])
    && forall i :: 1 <= i < |l| ==> !IsHidden(l[i])
  }

  /**
    The session invariant: the flag and the pipeline agree, and a playing
    session has a timer that keeps its slider moving.
   */
  predicate Inv(s: Session)
  {
    && ValidListing(s.listing)
    && SelectionInRange(s)
    && (s.isPlaying <==> s.pipeline == Playing)
    && (s.isPlaying ==> s.pollers > 0)
  }

  /** Every listing `make_list` returns is a valid listing. */
  lemma MakeListValid(names: seq<FileName>)
    ensures ValidListing(MakeList(names))
  {
    var l := MakeList(names);
    forall i | 1 <= i < |l|
      ensures !IsHidden(l[i])
    {
      assert l[1..][i - 1] == l[i];
      assert l[i] in multiset(l[1..]);
    }
  }

  /** The full path of row `i`, as the handlers build it with `os.path.join`. */
  function RowPath(s: Session, i: nat): (path: string)
    requires i < |s.listing|
  {
    Join(s.dirname, s.listing[i])
  }

  /** The kind of row `i` under a filesystem whose directories are `dirs`. */
  function RowKind(s: Session, i: nat, dirs: set<string>): (k: EntryKind)
    requires i < |s.listing|
  {
    Classify(RowPath(s, i), RowPath(s, i) in dirs)
  }

  /**
    The window as `__init__` leaves it. The script selects nothing itself,
    but the list takes the focus with no cursor set, and a single-selection
    GTK tree view then puts the cursor on the first row, `..`, and selects it.
   */
  function Init(dirname: string, names: seq<FileName>): (r: Session)
    ensures Inv(r)
    ensures r.listing == MakeList(names) && r.selected == Some(0) && r.listing[0] == Parent
    ensures !r.isPlaying && r.pipeline == Null && r.uri.None? && r.pollers == 0
    ensures r.dirname == dirname && r.sliderPos == 0 && r.duration == InitialSliderMax && r.lastSeek.None?
  {
    MakeListValid(names);
    Session(dirname, MakeList(names), Some(0), false, Null, None, 0, InitialSliderMax, None, 0)
  }

  /** `player`: stop, load the file, play, and start one more polling timer. */
  function Player(s: Session, filename: string): (r: Session)
    ensures r.isPlaying && r.pipeline == Playing
    ensures r.uri == Some(UriPrefix + filename)
    ensures r.pollers == s.pollers + 1
    ensures r.dirname == s.dirname && r.listing == s.listing && r.selected == s.selected
    ensures r.sliderPos == s.sliderPos && r.duration == s.duration && r.lastSeek == s.lastSeek
    ensures Inv(s) ==> Inv(r)
  {
    s.(pipeline := Playing, uri := Some(UriPrefix + filename), isPlaying := true, pollers := s.pollers + 1)
  }

  /** `get_selected_tree_row`: the selected row's path when it is an audio file. */
  function SelectedAudio(s: Session, dirs: set<string>): (r: Option<string>)
    requires SelectionInRange(s)
    ensures r.Some? <==> s.selected.Some? && RowKind(s, s.selected.value, dirs) == AudioFile
    ensures r.Some? ==> r.value == RowPath(s, s.selected.value)
  {
    match s.selected
    case None => None
    case Some(i) =>
      if RowKind(s, i, dirs) == AudioFile then Some(RowPath(s, i)) else None
  }

  /**
    The play/pause button (`toggle_play` with no file name): pause a playing
    session; resume a paused one whose slider has moved; otherwise play the
    selected row from the start. With no audio row selected, `player` fails
    on the missing name after readying the pipeline, and nothing else changes.
   */
  function TogglePlay(s: Session, dirs: set<string>): (r: Session)
    requires SelectionInRange(s)
    ensures s.isPlaying ==> r == s.(isPlaying := false, pipeline := Paused)
    ensures !s.isPlaying && s.sliderPos > 0 ==>
              && r.isPlaying && r.pipeline == Playing
              && r.uri == s.uri && r.sliderPos == s.sliderPos
              && r.duration == s.duration && r.lastSeek == s.lastSeek
              && r.pollers == s.pollers + 1
    ensures !s.isPlaying && s.sliderPos == 0 && SelectedAudio(s, dirs).Some? ==>
              r == Player(s, RowPath(s, s.selected.value))
    ensures !s.isPlaying && s.sliderPos == 0 && SelectedAudio(s, dirs).None? ==>
              r == s.(pipeline := Ready)
    ensures r.dirname == s.dirname && r.listing == s.listing && r.selected == s.selected
    ensures Inv(s) ==> Inv(r)
  {
    if s.isPlaying then
      s.(isPlaying := false, pipeline := Paused)
    else if s.sliderPos > 0 then
      s.(pipeline := Playing, pollers := s.pollers + 1, isPlaying := true)
    else
      match SelectedAudio(s, dirs)
      case Some(filename) => Player(s, filename)
      case None => s.(pipeline := Ready)
  }

  /** The row after the selected one, if there is a selection and a row after it. */
  function Following(s: Session): (j: Option<nat>)
    ensures j.Some? <==> s.selected.Some? && s.selected.value + 1 < |s.listing|
    ensures j.Some? ==> j.value == s.selected.value + 1
  {
    match s.selected
    case None => None
    case Some(i) => if i + 1 < |s.listing| then Some(i + 1) else None
  }

  /**
    The next button (`toggle_play` with "next", through `get_next_tree_row`).
    Only the row right after the selection is looked at: an audio file there
    is selected and played, a directory there is selected and not played,
    anything else leaves the session alone. Without a following row the
    handler fails on the missing row, again changing nothing.
   */
  function Next(s: Session, dirs: set<string>): (r: Session)
    requires SelectionInRange(s)
    ensures Following(s).None? ==> r == s
    ensures Following(s).Some? && RowKind(s, Following(s).value, dirs) == Directory ==>
              r == s.(selected := Following(s))
    ensures Following(s).Some? && RowKind(s, Following(s).value, dirs) == AudioFile ==>
              r == Player(s.(selected := Following(s)), RowPath(s, Following(s).value))
    ensures Following(s).Some? && RowKind(s, Following(s).value, dirs) == OtherFile ==> r == s
    ensures r.selected == s.selected || r.selected == Following(s)
    ensures Inv(s) ==> Inv(r)
  {
    match Following(s)
    case None => s
    case Some(j) =>
      match RowKind(s, j, dirs)
      case Directory => s.(selected := Some(j))
      case AudioFile => Player(s.(selected := Some(j)), RowPath(s, j))
      case OtherFile => s
  }

  /**
    Activating row `i` (double-click or Enter, `open_file`), which selects it.
    A directory is opened with `make_list`: the directory name is replaced by
    `newDir`, its absolute path, and then the listing by the sorted visible
    `newNames` it holds, with nothing selected; when it cannot be read
    (`newNames` is `None`) the listing raises after the name was already
    replaced, so the old rows stay, row `i` selected, under the new name.
    An audio file is played; anything else is only reported.
   */
  function ActivateRow(s: Session, i: nat, dirs: set<string>, newDir: string,
                       newNames: Option<seq<FileName>>): (r: Session)
    requires i < |s.listing|
    ensures RowKind(s, i, dirs) == Directory && newNames.Some? ==>
              r == s.(dirname := newDir, listing := MakeList(newNames.value), selected := None)
    ensures RowKind(s, i, dirs) == Directory && newNames.None? ==>
              r == s.(dirname := newDir, selected := Some(i))
    ensures RowKind(s, i, dirs) == AudioFile ==>
              r == Player(s.(selected := Some(i)), RowPath(s, i))
    ensures RowKind(s, i, dirs) == OtherFile ==> r == s.(selected := Some(i))
    ensures Inv(s) ==> Inv(r)
  {
    match RowKind(s, i, dirs)
    case Directory =>
      (match newNames
       case None => s.(dirname := newDir, selected := Some(i))
       case Some(names) =>
         MakeListValid(names);
         s.(dirname := newDir, listing := MakeList(names), selected := None))
    case AudioFile => Player(s.(selected := Some(i)), RowPath(s, i))
    case OtherFile => s.(selected := Some(i))
  }

  /**
    After a directory row that cannot be read is activated, the rows still
    shown are joined to the new directory's path, not to the one they came from.
   */
  lemma UnreadableDirectoryKeepsOldRows(s: Session, i: nat, dirs: set<string>, newDir: string, j: nat)
    requires i < |s.listing| && j < |s.listing|
    requires RowKind(s, i, dirs) == Directory
    ensures ActivateRow(s, i, dirs, newDir, None).listing == s.listing
    ensures RowPath(ActivateRow(s, i, dirs, newDir, None), j) == Join(newDir, s.listing[j])
  {
  }

  /**
    `on_finish`, run on end of stream: pause, clear the flag, seek the
    playbin back to the start and put the slider there.
   */
  function OnFinish(s: Session): (r: Session)
    ensures !r.isPlaying && r.pipeline == Paused
    ensures r.sliderPos == 0 && r.lastSeek == Some(0)
    ensures r.uri == s.uri && r.listing == s.listing && r.selected == s.selected
    ensures r.dirname == s.dirname && r.duration == s.duration && r.pollers == s.pollers
    ensures Inv(s) ==> Inv(r)
  {
    s.(pipeline := Paused, isPlaying := false, lastSeek := Some(0), sliderPos := 0)
  }

  /** `on_destroy`, run when the window is closed: the pipeline is released before the main loop quits. */
  function OnDestroy(s: Session): (r: Session)
    ensures !r.isPlaying && r.pipeline == Null
    ensures r.uri == s.uri && r.pollers == s.pollers && r.sliderPos == s.sliderPos
    ensures r.dirname == s.dirname && r.listing == s.listing && r.selected == s.selected
    ensures r.duration == s.duration && r.lastSeek == s.lastSeek
    ensures Inv(s) ==> Inv(r)
  {
    s.(pipeline := Null, isPlaying := false)
  }

  /**
    `on_slider_change`: the slider now shows `value` and the playbin is sent
    a flushing seek to exactly that value, unclamped.
   */
  function OnSliderChange(s: Session, value: nat): (r: Session)
    ensures r.sliderPos == value && r.lastSeek == Some(value)
    ensures r.isPlaying == s.isPlaying && r.pipeline == s.pipeline && r.uri == s.uri
    ensures r.duration == s.duration && r.pollers == s.pollers
    ensures r.dirname == s.dirname && r.listing == s.listing && r.selected == s.selected
    ensures Inv(s) ==> Inv(r)
  {
    s.(sliderPos := value, lastSeek := Some(value))
  }

  /**
    One tick of a polling timer (`update_slider`). A session that is not
    playing cancels the timer and changes nothing else. A playing one keeps
    the timer and, when the queries succeed, shows the reported position and
    duration on the slider; the seek handler is blocked meanwhile, so a poll
    never seeks.
   */
  function UpdateSlider(s: Session, report: Option<Report>): (r: Poll)
    requires s.pollers > 0
    ensures r.keep <==> s.isPlaying
    ensures !r.keep ==> r.session == s.(pollers := s.pollers - 1)
    ensures r.keep && report.None? ==> r.session == s
    ensures r.keep && report.Some? ==>
              r.session == s.(sliderPos := report.value.position, duration := report.value.duration)
    ensures r.session.isPlaying == s.isPlaying && r.session.pipeline == s.pipeline
    ensures r.session.uri == s.uri && r.session.lastSeek == s.lastSeek
    ensures Inv(s) ==> Inv(r.session)
  {
    if !s.isPlaying then Poll(false, s.(pollers := s.pollers - 1))
    else
      match report
      case None => Poll(true, s)
      case Some(rep) => Poll(true, s.(sliderPos := rep.position, duration := rep.duration))
  }

  /** The session after one timer tick per report, each tick answered by the next report. */
  function RunPolls(s: Session, reports: seq<Option<Report>>): (r: Session)
    requires |reports| <= s.pollers
    decreases |reports|
  {
    if |reports| == 0 then s
    else
      var p := UpdateSlider(s, reports[0]);
      RunPolls(p.session, reports[1..])
  }

  /** Ticks of the timers of a stopped session cancel them one by one and change nothing else. */
  lemma {:induction false} StoppedPollsDrain(s: Session, reports: seq<Option<Report>>)
    requires !s.isPlaying && |reports| <= s.pollers
    ensures RunPolls(s, reports) == s.(pollers := s.pollers - |reports|)
    decreases |reports|
  {
    if |reports| > 0 {
      var p := UpdateSlider(s, reports[0]);
      assert !p.keep && p.session == s.(pollers := s.pollers - 1);
      StoppedPollsDrain(p.session, reports[1..]);
    }
  }

  /**
    After the end of the stream every timer still registered cancels itself
    on its next tick, whatever the pipeline reports, and the slider stays at
    the start; once each has ticked, none is left.
   */
  lemma FinishStopsPolling(s: Session, reports: seq<Option<Report>>)
    requires |reports| <= s.pollers
    ensures RunPolls(OnFinish(s), reports) == OnFinish(s).(pollers := s.pollers - |reports|)
    ensures RunPolls(OnFinish(s), reports).sliderPos == 0
    ensures |reports| == s.pollers ==> RunPolls(OnFinish(s), reports).pollers == 0
  {
    StoppedPollsDrain(OnFinish(s), reports);
  }

  /** Pausing freezes the slider: the next tick cancels its timer and shows nothing new. */
  lemma PauseFreezesSlider(s: Session, dirs: set<string>, report: Option<Report>)
    requires Inv(s) && s.isPlaying
    ensures TogglePlay(s, dirs).pollers > 0
    ensures UpdateSlider(TogglePlay(s, dirs), report).keep == false
    ensures UpdateSlider(TogglePlay(s, dirs), report).session.sliderPos == s.sliderPos
  {
  }

  /**
    Pause then play again resumes the same stream where the slider stands,
    without reloading, once the slider has moved off the start.
   */
  lemma PauseThenResume(s: Session, dirs: set<string>)
    requires Inv(s) && s.isPlaying && s.sliderPos > 0
    ensures TogglePlay(TogglePlay(s, dirs), dirs).isPlaying
    ensures TogglePlay(TogglePlay(s, dirs), dirs).uri == s.uri
    ensures TogglePlay(TogglePlay(s, dirs), dirs).sliderPos == s.sliderPos
    ensures TogglePlay(TogglePlay(s, dirs), dirs).selected == s.selected
  {
  }

  /** After the end of a stream, play reloads the selected audio row from the start. */
  lemma PlayAfterFinishReloads(s: Session, dirs: set<string>)
    requires SelectionInRange(s) && SelectedAudio(s, dirs).Some?
    ensures TogglePlay(OnFinish(s), dirs).isPlaying
    ensures TogglePlay(OnFinish(s), dirs).uri == Some(UriPrefix + SelectedAudio(s, dirs).value)
  {
    assert SelectedAudio(OnFinish(s), dirs) == SelectedAudio(s, dirs);
  }

  /**
    Dragging the slider before anything was loaded, then pressing play,
    sets the flag and asks the playbin to play with no uri set.
   */
  lemma PlayWithoutUriAfterDrag(dirname: string, names: seq<FileName>, dirs: set<string>, value: nat)
    requires value > 0
    ensures TogglePlay(OnSliderChange(Init(dirname, names), value), dirs).isPlaying
    ensures TogglePlay(OnSliderChange(Init(dirname, names), value), dirs).uri.None?
  {
  }

  /** `Next` decides on the following row alone: filesystems that agree on that row give the same result. */
  lemma NextReadsOnlyFollowingRow(s: Session, dirs1: set<string>, dirs2: set<string>)
    requires SelectionInRange(s)
    requires Following(s).Some? ==>
               (RowPath(s, Following(s).value) in dirs1 <==> RowPath(s, Following(s).value) in dirs2)
    ensures Next(s, dirs1) == Next(s, dirs2)
  {
  }

  /** With "a.mp3" selected in "..", "a.mp3", "b.txt", "c.wav", next does nothing: "c.wav" is not reached. */
  lemma NextDoesNotSkipOtherFiles(s: Session, dirs: set<string>)
    requires s.dirname == "/music" && s.listing == ["..", "a.mp3", "b.txt", "c.wav"]
    requires s.selected == Some(1) && "/music/b.txt" !in dirs
    ensures Next(s, dirs) == s
  {
    assert RowPath(s, 2) == "/music/b.txt";
    TextFileIsOther("/music/b.txt");
  }

  lemma TextFileIsOther(path: string)
    requires path == "/music/b.txt"
    ensures Classify(path, false) == OtherFile
  {
    ClassifyMeaning(path, false);
    assert path[|path| - 4..] == ".txt";
    assert path[|path| - 5..] == "b.txt";
    assert path[|path| - 3..] == "txt";
  }

  /** With the last row selected there is no following row, and next changes nothing. */
  lemma NextAtLastRow(s: Session, dirs: set<string>)
    requires s.selected == Some(|s.listing| - 1)
    ensures Next(s, dirs) == s
  {
  }

  /**
    What the user, the pipeline and the timers can do to a session. `Select`
    is a click, arrow key or Ctrl-click in the list, which GTK handles by
    itself: it selects a row, or clears the selection, without activating it.
   */
  datatype Event =
    | Select(choice: Option<nat>)
    | PlayPause(dirs: set<string>)
    | NextTrack(dirs: set<string>)
    | Activate(row: nat, dirs: set<string>, newDir: string, newNames: Option<seq<FileName>>)
    | EndOfStream
    | Close
    | SliderMoved(value: nat)
    | Tick(report: Option<Report>)

  /**
    Whether an event can occur: rows that exist, selections that exist,
    slider values within the slider's range, timers that are registered.
   */
  predicate Enabled(s: Session, e: Event)
  {
    match e
    case Select(choice) => choice.Some? ==> choice.value < |s.listing|
    case PlayPause(_) => SelectionInRange(s)
    case NextTrack(_) => SelectionInRange(s)
    case Activate(i, _, _, _) => i < |s.listing|
    case SliderMoved(v) => v <= s.duration
    case Tick(_) => s.pollers > 0
    case _ => true
  }

  /** The handler each event runs. */
  function Step(s: Session, e: Event): (r: Session)
    requires Enabled(s, e)
  {
    match e
    case Select(choice) => s.(selected := choice)
    case PlayPause(dirs) => TogglePlay(s, dirs)
    case NextTrack(dirs) => Next(s, dirs)
    case Activate(i, dirs, newDir, newNames) => ActivateRow(s, i, dirs, newDir, newNames)
    case EndOfStream => OnFinish(s)
    case Close => OnDestroy(s)
    case SliderMoved(v) => OnSliderChange(s, v)
    case Tick(report) => UpdateSlider(s, report).session
  }

  /** The session after a run of events, or `None` when one of them could not occur. */
  function Run(s: Session, events: seq<Event>): (r: Option<Session>)
    decreases |events|
  {
    if |events| == 0 then Some(s)
    else if !Enabled(s, events[0]) then None
    else Run(Step(s, events[0]), events[1..])
  }

  /** Every event preserves the invariant. */
  lemma StepPreservesInv(s: Session, e: Event)
    requires Inv(s) && Enabled(s, e)
    ensures Inv(Step(s, e))
  {
  }

  /**
    Every session the program can reach from its start satisfies the
    invariant: in particular, whenever it is playing, a timer is polling.
   */
  lemma {:induction false} ReachableSessionsSatisfyInv(dirname: string, names: seq<FileName>, events: seq<Event>)
    requires Run(Init(dirname, names), events).Some?
    ensures Inv(Run(Init(dirname, names), events).value)
  {
    RunPreservesInv(Init(dirname, names), events);
  }

  lemma {:induction false} RunPreservesInv(s: Session, events: seq<Event>)
    requires Inv(s) && Run(s, events).Some?
    ensures Inv(Run(s, events).value)
    decreases |events|
  {
    if |events| > 0 {
      StepPreservesInv(s, events[0]);
      RunPreservesInv(Step(s, events[0]), events[1..]);
    }
  }
}
