# BeatNitPicker core, modelled in Dafny

BeatNitPicker is a GTK/GStreamer sample browser. It lists a directory, plays
the audio files in it with play/pause/next/seek controls, and draws the
waveform of WAV files. This project models the three parts of
`beatnitpicker.py` that hold real logic, as pure functions over immutable
datatypes, and proves properties about them.

- **`PcmDecoder`** (`pcm_decoder.dfy`, using `little_endian.dfy`) models
  `_wav2array`. It turns the data chunk of a RIFF/WAVE file into a
  frames × channels integer matrix. One-byte samples are unsigned. Two- and
  four-byte samples are little-endian two's complement. Three-byte samples are
  widened to four bytes, with the added top byte set to `(b2 >> 7) * 255`, and
  then read as signed 32-bit values. The program has two copies of the
  function. `Wav2ArrayAsWritten` models the module-level copy as written, and
  `Wav2ArrayMethodAsWritten` models the copy defined as a method of the GUI
  class. `Decode` is the decoder as intended, and it is the one the properties
  are proved about. `Encode` is its inverse, and both round trips are proved.
- **`Listing`** (`listing.dfy`) models the pure part of `make_list`: drop the
  hidden names, sort, and put `".."` first. It also models the
  case-sensitive suffix test against the `audioFormats` list,
  `os.path.join`, and the classification that every handler applies to a row:
  directory first, then audio, then other.
- **`Transport`** (`transport.dfy`) models the player's state as one
  `Session` record. Each GTK/GStreamer handler becomes a transition function:
  `player`, `toggle_play` (the play/pause button, the next button and row
  activation), `get_selected_tree_row`, `get_next_tree_row`, `on_finish`,
  `on_destroy`, `on_slider_change` and `update_slider`. The model reduces the
  playbin to the state last requested of it with `set_state` (`Null`, `Ready`,
  `Paused`, `Playing`) and its `uri`.
  The filesystem becomes the set of paths that are directories. Each
  position/duration query becomes an input. Slider polling timers are
  *counted*, because every `gobject.timeout_add` call registers one more timer
  and a timer is removed only when one of its ticks returns `False`.
  `ReachableSessionsSatisfyInv` proves an invariant over every run of events
  from the initial window: plain row selections by click or keyboard, the
  buttons, row activation, end of stream, closing, slider drags and timer
  ticks. The invariant says that the `is_playing` flag holds exactly when the
  last state requested of the pipeline is `Playing`, that a playing session always has a
  timer polling it, and that the listing and the selection stay well formed.

The model follows the code. In particular, it keeps these behaviours, which
differ from what one might expect of such a player:

- The audio test is a case-sensitive suffix match against
  `.wav .mp3 .ogg .flac .MP3 .FLAC .OGG .WAV wma`. It is not a
  case-insensitive extension match, so `kick.Wav` is not audio, and any name
  ending in `wma` is audio.
- "Next" looks only at the row right after the selection. It never skips over
  other files to reach a later audio file.
- End of stream leaves the pipeline `Paused` at position 0, not in a ready or
  idle state.
- A slider drag seeks to exactly the slider's value, with no clamping.
- A sample width or channel count of 0 makes `divmod` raise a division by
  zero. The code has no separate "unsupported width" error for this case.
- Pausing does not cancel the polling timer at once. The timer's next tick
  sees the cleared flag and cancels itself.
- If the slider is dragged before anything has been loaded, the play button
  takes the "resume" branch. It sets the flag and asks the playbin to play
  with no uri set (`PlayWithoutUriAfterDrag`).
- A directory that cannot be read does not leave the previous state intact.
  `make_list` replaces the directory name before `os.listdir` raises, so the
  old rows remain under the new name (`UnreadableDirectoryKeepsOldRows`).
- A file that fails to load does not return the player to idle. No handler
  listens for pipeline errors, so the flag stays set and the timers keep
  polling a playbin that never plays.
- The uri is `"file:///"` followed by an absolute path, so it starts with four
  slashes. The model keeps it that way.

## Model

| member | source | states |
|---|---|---|
| `PcmDecoder.Decode` | beatnitpicker.py:250-270 | A zero width or channel count fails with a division by zero. The decode fails with `NotMultiple` exactly when the byte count is not a multiple of width × channels. A width above 4 with whole frames fails with `WidthTooLarge`, and nothing else does. It succeeds exactly for widths 1–4 with whole frames. On success there are `len / (width × channels)` frames of `nch` samples each. |
| `PcmDecoder.DecodeElement` | beatnitpicker.py:78-81 | Entry `[f][c]` of a decoded matrix is the sample stored at byte offset `(f·nch + c)·w`, and it lies in the range of a `w`-byte sample. |
| `PcmDecoder.Width3Value` | beatnitpicker.py:71-76 | A widened 3-byte sample equals `b0 + 256·b1 + 65536·b2 − (b2 ≥ 128 ? 2^24 : 0)` and lies in `[−2^23, 2^23)`. |
| `PcmDecoder.Widen3PreservesValue` | beatnitpicker.py:75-76 | Filling the added top byte with `(b2 >> 7) * 255` and reading 32 bits gives the 24-bit two's-complement value. |
| `PcmDecoder.SampleInRange` | beatnitpicker.py:78-80 | A 1-byte sample is in 0..255. A `w`-byte sample for `w ≥ 2` is in `[−2^(8w−1), 2^(8w−1))`. |
| `PcmDecoder.SampleRoundTrip` | beatnitpicker.py:78-80 | Reading back the stored bytes of any in-range value gives the value. |
| `PcmDecoder.SampleBytesRoundTrip` | beatnitpicker.py:78-80 | Storing the value read from any `w` bytes gives back the same bytes, so each sample width is a bijection. |
| `PcmDecoder.DecodeOfEncode` | beatnitpicker.py:250-270 | Decoding the stored form of any well-formed matrix returns that matrix. |
| `PcmDecoder.EncodeOfDecode` | beatnitpicker.py:250-270 | Every successful decode is well formed, and storing it again reproduces the input bytes exactly. |
| `PcmDecoder.Wav2ArrayAsWritten` | beatnitpicker.py:62-82 | The module copy returns `None` exactly for well-sized 3-byte input. Where `Decode` refuses a width above 4, it decodes 8-byte samples and raises a dtype error for any other width. Everywhere else it returns or raises what `Decode` does. |
| `PcmDecoder.Wav2ArrayMethodAsWritten` | beatnitpicker.py:250-270 | The method copy returns `None` exactly for well-sized 3-byte input, and otherwise returns or raises exactly what `Decode` does. |
| `PcmDecoder.CopiesAgreeOnCommonWidths` | beatnitpicker.py:62-82 | For widths 1, 2 and 4, and for every input the frame check rejects, both as-written copies behave exactly like `Decode`, errors included. |
| `PcmDecoder.Width3ReturnsNoValue` | beatnitpicker.py:71-82 | Both as-written copies return `None` for every well-sized 3-byte input, where `Decode` succeeds. |
| `PcmDecoder.Width3SignExample` | beatnitpicker.py:71-76 | Bytes `00 00 80` decode to −8388608 and `00 00 7F` to 8323072. The module copy returns `None` for the first. |
| `PcmDecoder.WideSamplesAsWritten` | beatnitpicker.py:64-80 | For every width above 4 with whole frames, the method copy and `Decode` refuse the width. The module copy decodes 8-byte samples as `<i8` and fails with a dtype error on every other such width. |
| `PcmDecoder.ModuleCopyAcceptsWidth8` | beatnitpicker.py:64-69 | The module copy decodes 8-byte samples into the matrix of 8-byte little-endian signed values, because its width check is dead. `Decode` refuses them. |
| `PcmDecoder.OddLengthExample` | beatnitpicker.py:64-67 | Five bytes of 16-bit mono data are refused as not a whole number of frames. |
| `PcmDecoder.EmptyDataExample` | beatnitpicker.py:250-270 | An empty data chunk decodes to zero frames, not to an error. |
| `Listing.MakeList` | beatnitpicker.py:525-527 | The first row is `".."`. The rest are in ascending order, and each name occurs as often as in the directory when it does not start with `'.'`, and not at all when it does. |
| `Listing.MakeListCharacterised` | beatnitpicker.py:525-527 | Any listing with those three properties equals `MakeList`, so the properties determine the listing. |
| `Listing.MakeListExample` | beatnitpicker.py:525-527 | `.hidden, b.wav, a.mp3, sub` lists as `.., a.mp3, b.wav, sub`. |
| `Listing.Sort` | beatnitpicker.py:526 | The sort returns a permutation of its input in ascending string order. |
| `Listing.SortedUnique` | beatnitpicker.py:526 | Two sorted sequences with the same multiset of names are equal. |
| `Listing.VisibleCount` | beatnitpicker.py:525 | The filter keeps every name not starting with a dot as often as it occurs, and no name that does. |
| `Listing.EndsWithAnyMeaning` | beatnitpicker.py:345 | `endswith` over a tuple holds exactly when one of the tuple's suffixes matches. |
| `Listing.ClassifyMeaning` | beatnitpicker.py:536-541 | A row is a Directory exactly when the filesystem says so. Otherwise it is Audio exactly when it ends with one of the nine `audioFormats` suffixes, and Other exactly when it ends with none. |
| `Listing.Join` | beatnitpicker.py:339 | `os.path.join(dirname, name)`: an absolute name is the whole path; otherwise the path starts with the directory, then one `/` exactly when the directory is non-empty and does not already end in one, then the name. |
| `Listing.ClassifyJoin` | beatnitpicker.py:534-538 | Classifying the joined path `os.path.join(dirname, name)` gives the same kind as classifying the bare name. |
| `Listing.UpperCaseWavIsAudio` | beatnitpicker.py:107 | `kick.WAV` is audio. |
| `Listing.MixedCaseWavIsOther` | beatnitpicker.py:107 | `kick.Wav` is not audio, because the test is case-sensitive. |
| `Listing.DotlessWmaIsAudio` | beatnitpicker.py:107 | `loopwma` is audio, because `"wma"` is listed without its dot. |
| `Listing.DirectoryNamedLikeAudio` | beatnitpicker.py:536-538 | A directory named `samples.wav` is a Directory. |
| `Transport.MakeListValid` | beatnitpicker.py:525-527 | Every listing built by `make_list` starts with `".."`, is sorted after it, and holds no hidden names. |
| `Transport.Init` | beatnitpicker.py:126-246 | The new window shows `make_list` of the start directory, with the `..` row selected once the list takes the focus (line 246). It is not playing, the pipeline is `Null`, no uri is set, no timer is registered, and the invariant holds. The slider starts at 0 with range 100 (line 181), and no seek has been issued. |
| `Transport.Player` | beatnitpicker.py:446-453 | `player` leaves the session playing with uri `"file:///" + filename` and one more polling timer. The directory, the listing, the selection, the slider, the duration and the last seek are unchanged. |
| `Transport.SelectedAudio` | beatnitpicker.py:350-364 | A name is returned exactly when a row is selected and it classifies as Audio, and the name is that row's joined path. |
| `Transport.TogglePlay` | beatnitpicker.py:404-421 | When playing, only the flag (now cleared) and the pipeline (now Paused) change, and the uri stays. When stopped with the slider moved, it plays the same uri again with one more timer. When stopped at 0 with an audio row selected, it is exactly `player` on that row's path. With no audio row selected, only the pipeline changes, to Ready. |
| `Transport.Following` | beatnitpicker.py:373-377 | The row looked at by "next" exists exactly when a row is selected and is not the last, and it is the selected index plus one. |
| `Transport.Next` | beatnitpicker.py:426-444 | An Audio following row is selected and then handled exactly as `player` on its joined path. A Directory is selected but not played. Other, or no following row, changes nothing. The selection moves by at most one row. |
| `Transport.ActivateRow` | beatnitpicker.py:336-348 | Activating a readable Directory replaces the directory name and the listing by `make_list` of its contents, and clears the selection. For an unreadable one, the directory name changes and the activated row becomes the selection, while the old rows stay. Activating Audio selects that row and is then exactly `player` on its path. Activating Other only selects it. |
| `Transport.UnreadableDirectoryKeepsOldRows` | beatnitpicker.py:519-525 | After an unreadable directory is activated, the old rows are still shown, but their paths are joined to the new directory. |
| `Transport.OnFinish` | beatnitpicker.py:573-577 | Whatever the prior state, the flag is cleared, the pipeline is Paused, the seek target and the slider are at 0, and the uri and selection are kept. |
| `Transport.OnDestroy` | beatnitpicker.py:580-583 | Closing the window releases the pipeline to `Null` and clears the flag. The uri, the listing, the selection, the slider and the timers are kept. |
| `Transport.OnSliderChange` | beatnitpicker.py:585-587 | A slider move seeks to exactly the slider's value, unclamped, and does not change the playing/paused state. |
| `Transport.UpdateSlider` | beatnitpicker.py:589-609 | A tick keeps its timer exactly when playing. When not playing, it only removes the timer. When playing, a successful report sets the slider's value and range and nothing else, and a failed query changes nothing at all. It never seeks. |
| `Transport.StoppedPollsDrain` | beatnitpicker.py:589-591 | In a stopped session, any number of ticks up to the number of timers only removes that many timers. |
| `Transport.FinishStopsPolling` | beatnitpicker.py:573-591 | After end of stream, every later tick cancels its timer and leaves the slider at 0, whatever the pipeline reports. Once every timer has ticked, none remains. |
| `Transport.PauseFreezesSlider` | beatnitpicker.py:408-411 | After a pause, the next tick cancels its timer and the slider stays where it was. |
| `Transport.PauseThenResume` | beatnitpicker.py:408-417 | Pausing and playing again, with the slider off the start, resumes the same uri and selection without reloading. |
| `Transport.PlayAfterFinishReloads` | beatnitpicker.py:413-421 | After end of stream, play reloads the selected audio row from its path. |
| `Transport.PlayWithoutUriAfterDrag` | beatnitpicker.py:413-417 | A slider drag on a fresh window followed by play sets the flag while no uri is loaded. |
| `Transport.NextReadsOnlyFollowingRow` | beatnitpicker.py:373-392 | Two filesystems that agree about the row after the selection give the same result for "next". |
| `Transport.NextDoesNotSkipOtherFiles` | beatnitpicker.py:388-392 | In `/music` listing `.., a.mp3, b.txt, c.wav` with `a.mp3` selected and `b.txt` not a directory, "next" changes nothing, and `c.wav` is not reached. |
| `Transport.NextAtLastRow` | beatnitpicker.py:375-377 | With the last row selected, "next" changes nothing. |
| `Transport.StepPreservesInv` | beatnitpicker.py:394-609 | Every handler, and a plain selection of an existing row or of none, preserves the session invariant. |
| `Transport.ReachableSessionsSatisfyInv` | beatnitpicker.py:394-609 | Every session reachable from the initial window satisfies the invariant. |

## Left out

- Widget construction, menus, dialogs, cell renderers and icons (lines 104-247, 288-334, 533-568) are UI plumbing. `file_properties_dialog` is left out with them. The row choice it makes is `SelectedAudio`.
- `get_info` and the `Discoverer` tag lookup, with the label text that `toggle_play` sets from it, are a foreign call with unseen behaviour. Any exception they raise comes after the state changes, so it does not affect the session.
- `readwav`, the plotting attempt in `player` (its `try`/`except`) and `plotter` are file I/O and matplotlib rendering. They run after the transport state has been set.
- `k_to_m`, `bytestomegabytes` and the size/mode/time cell renderers are float formatting and `os.stat` display.
- `lister_compare` is never installed as a sort function, so it has no effect.
- `os.listdir`, `os.stat`, `expanduser` and `abspath` are replaced by inputs: the names a directory holds (or `None` when it cannot be read), the set of directory paths, and the absolute path of an opened directory. A failing `os.stat` is not modelled.
- Names are non-empty (`FileName`), because `os.listdir` never yields an empty one. The model therefore does not reproduce the `IndexError` that `f[0]` would raise on an empty name.
- Time is in abstract whole units. The conversions between nanoseconds and float seconds are not modelled.
- The 100 ms cadence of `gobject.timeout_add` is not modelled. Only the number of registered timers is kept.
- `gtk.main_quit` in `on_destroy` ends the event loop. The model does not stop further events after `OnDestroy`.
- The method copy of `_wav2array` lacks a `self` parameter, so it could not be called as a method. It is never called, and it is modelled as a plain function of its three parameters.
- GStreamer error messages are not handled: only `message::eos` is connected (line 192). A file that fails to load leaves `is_playing` set while the playbin never reaches PLAYING. The model tracks the state last requested with `set_state`, not the playbin's actual state, so it does not show this failure.
- UpdateSlider: the slider value is not clamped to the range that the same tick sets. GTK's adjustment would clamp it; that clamping is widget behaviour.

## Findings

| source | as written | input that shows it | evidently intended | confidence | as-written member | corrected member |
|---|---|---|---|---|---|---|
| beatnitpicker.py:65-69 | The `sampwidth > 4` check sits after the `raise` in the module copy, so it never runs. Numpy then decodes 8-byte samples as `<i8`, and it fails with a dtype error on every width above 4 other than 8. | 1 channel, sample width 8, eight zero bytes: a one-frame matrix is returned. | Refuse widths above 4, as the method copy does at lines 256-257. | high; not executed | `PcmDecoder.ModuleCopyAcceptsWidth8` | `PcmDecoder.Decode` |
| beatnitpicker.py:71-82 | `return result` is indented inside the `else`, so the 3-byte branch computes the widened array and then returns `None`. The method copy at lines 259-270 has the same defect. | 1 channel, sample width 3, bytes `00 00 80`: `None` is returned. | Return the sign-extended matrix `[[-8388608]]`. | high; not executed | `PcmDecoder.Width3ReturnsNoValue` | `PcmDecoder.Decode` |
