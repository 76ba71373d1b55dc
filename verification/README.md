# Fractal video player controls — a verified model

The player page's script (`js/video-player.js`) wires a video element to custom
controls. This project models the parts of that script that are rules rather
than browser plumbing:

- `formatTime`, which renders a playback position as `M:SS`: whole minutes, a
  colon, and the seconds within the minute padded to two digits. There is no hour
  field.
- The page's UI state as one immutable record, `Player.Ui`. It has one pure
  transition per event handler:
  - the play/pause button and the media element's `ended` event;
  - the hover-revealed controls and their auto-hide debounce;
  - the transcript toggle;
  - the header's scrolled style;
  - the like button with its counter and meta label;
  - the keyboard shortcuts, including the volume steps.

Modules:

- `Decimal` (decimal.dfy): `toString()` of a whole number below 1e21 (`Show`,
  `ShowInt`) and its inverse, `Value`.
- `TimeFormat` (time_format.dfy): `FormatTime` on whole seconds. `FormatSeconds`
  is the source function on a real position, with `Math.floor` and JavaScript's
  truncating `%` written out. `ParseTime` reads a time string back.
- `Player` (player.dfy): the state record, the consistency predicates, and the
  handler transitions.
- `Keyboard` (keyboard.dfy): the key-to-action switch, the `<input>` guard, and
  the keydown transition.
- `Page` (page.dfy): the events, `Step`, and `Run` over a sequence of events,
  with lemmas about whole runs.
- `Wrappers` (wrappers.dfy): `Option`.

Each transition states what its handler does to its own part of `Ui`. It also
states that every other part is unchanged (`r.(part := s.part) == s`).

Two details of the code worth stating plainly:

- The minutes field is not padded: 65 seconds reads `1:05`, and an hour reads
  `60:00`.
- Unliking writes the count followed by "views" (`8756 views`), not whatever
  label text the markup began with.

Modelling choices:

- The auto-hide timer's expiry is an explicit event, `TimerFires`. The 2000 ms
  delay is not modelled.
- The media element's paused flag is part of `Ui.playback`:
  - `play()` clears it and `pause()` sets it, both synchronously.
  - On `ended`, the media element sets it, as the HTML standard's "reaches the
    end" steps require. The handler itself only resets the icons and the label.
- `Player.Initial` fixes what the script sets at load: not liked, counter 8756.
  The markup is not part of this model, so the remaining initial values are
  assumed: paused, controls and transcript hidden, header at the top, and volume
  1 (the media element's default).

## Model

| member | source | states |
|---|---|---|
| Decimal.Show | js/video-player.js:17 | `toString()` of a whole number is a canonical digit string (no leading zero), a single digit exactly below ten |
| Decimal.ShowInt | js/video-player.js:140 | `toString()` of an integer is a canonical digit string, with a leading '-' when negative, and reads back as the same number |
| Decimal.ValueOfShow | js/video-player.js:17 | the decimal rendering of any whole number reads back as that number |
| Decimal.ShowOfValue | js/video-player.js:17 | every canonical digit string (no leading zero) is the rendering of the number it denotes, so rendering is a bijection onto canonical strings |
| Decimal.ValueInjective | js/video-player.js:17 | two canonical digit strings denote the same number iff they are equal |
| TimeFormat.PadStart | js/video-player.js:17 | `padStart(width, fill)` keeps the string as its suffix and fills in front only up to `width` characters |
| TimeFormat.TwoDigits | js/video-player.js:16-17 | the seconds field is exactly two digits, denotes the seconds value, and starts with '0' iff the value is below ten |
| TimeFormat.FormatTime | js/video-player.js:14-18 | the result is minutes, ':', then two digits; the minutes field has no leading zero; the seconds field is below 60 |
| TimeFormat.FormatTimeRoundTrip | js/video-player.js:15-17 | reading minutes and seconds back out of `formatTime(s)` gives minutes*60 + seconds == s |
| TimeFormat.ParseTimeRoundTrip | js/video-player.js:14-17 | every "M:SS" string with unpadded minutes and seconds below 60 is exactly what `formatTime` writes for its value |
| TimeFormat.FormatTimeExamples | js/video-player.js:14-18 | 0 renders "0:00", 65 renders "1:05", and 3600 renders "60:00" (no hour rollover) |
| TimeFormat.FloorOfQuotient | js/video-player.js:15 | for a non-negative position x, `Math.floor(x / 60)` equals floor(x) div 60 |
| TimeFormat.FloorOfRemainder | js/video-player.js:16 | for a non-negative position x, `Math.floor(x % 60)` equals floor(x) mod 60 |
| TimeFormat.FormatSeconds | js/video-player.js:14-18 | `formatTime` as written on a real position (floor of the quotient, floor of JavaScript's truncating remainder) equals, for any non-negative position, `FormatTime` of its whole seconds, so the fraction never shows |
| Player.Initial | js/video-player.js:124-125 | the page starts not liked with the counter at 8756, and with every visual consistent with its flag |
| Player.ClickPlayPause | js/video-player.js:29-41 | the paused flag flips; the play icon shows iff now paused, the pause icon iff now playing, and the label is "Pause video" iff playing, "Play video" otherwise; nothing else changes |
| Player.Ended | js/video-player.js:60-64 | after `ended` the video is paused, the play icon shows, the label is "Play video", and nothing else changes |
| Player.MouseEnter | js/video-player.js:70-73 | entering shows the controls and cancels any pending hide; nothing else changes |
| Player.MouseLeave | js/video-player.js:75-81 | leaving schedules a hide iff the video is playing (an existing pending hide stays); visibility is untouched |
| Player.TimerFires | js/video-player.js:77-79 | an expiring timer hides the controls only if its hide is still pending, and leaves no hide pending |
| Player.ClickTranscript | js/video-player.js:87-92 | the panel's visibility flips, and the toggle reads "Hide Data" iff the panel is now shown |
| Player.Scroll | js/video-player.js:96-102 | the header is scrolled iff scrollY > 50, regardless of its previous value |
| Player.ClickLike | js/video-player.js:127-161 | the flag flips and the count moves with it; the button shows "Liked" or "Like Video"; a present meta label reads "N likes" or "N views"; the count invariant is kept |
| Player.VolumeUp | js/video-player.js:179-181 | ArrowUp sets the volume to v + 0.1 or to 1, whichever is smaller: never above 1, never more than one step up, never down from an in-range value; nothing else changes |
| Player.VolumeDown | js/video-player.js:182-184 | ArrowDown sets the volume to v - 0.1 or to 0, whichever is larger: never below 0, never more than one step down, never up from an in-range value; nothing else changes |
| Player.MetaText | js/video-player.js:140-155 | the meta label is the count in decimal (reading back as the count when non-negative) followed by " likes" when liked and " views" otherwise |
| Player.ClickPlayPauseTwice | js/video-player.js:29-41 | two play/pause clicks restore the whole state, once the visuals match the paused flag |
| Player.ClickAfterEndedPlays | js/video-player.js:60-64 | after `ended`, the next click starts playback and offers "Pause video" |
| Player.ReenterCancelsHide | js/video-player.js:70-81 | leave, then enter, then timer expiry leaves the controls shown |
| Player.LeaveWhilePlayingHides | js/video-player.js:75-81 | leaving while playing, then timer expiry, hides the controls |
| Player.LeaveWhilePausedKeepsControls | js/video-player.js:75-81 | leaving while paused with no hide pending, then timer expiry, changes nothing about the controls |
| Player.ClickTranscriptTwice | js/video-player.js:87-92 | two transcript clicks restore the state once the label matches visibility |
| Player.ScrollLatestWins | js/video-player.js:96-102 | only the latest scroll matters; 50 is not scrolled and 51 is |
| Player.ClickLikeTwice | js/video-player.js:127-161 | like then unlike restores the flag, the count and the button, and changes nothing outside the like part |
| Player.LikeThenUnlikeFromStart | js/video-player.js:124-161 | from the starting state, like makes the meta label "8757 likes" and unlike makes it "8756 views" |
| Keyboard.ActionOf | js/video-player.js:167-192 | space and "k" select play/pause, ArrowUp and ArrowDown the volume steps, and any key outside the seven handled ones selects nothing |
| Keyboard.KeyDown | js/video-player.js:164-193 | a key on an `<input>` changes nothing; otherwise space/"k" is exactly a play/pause click, ArrowUp exactly `VolumeUp`, ArrowDown exactly `VolumeDown`, and every other key leaves the state unchanged; the volume stays in [0, 1] |
| Keyboard.IsInputTarget | js/video-player.js:165 | the guard holds iff the tag name is five characters, each the lower- or upper-case letter of "input" at that position |
| Keyboard.InputGuardExamples | js/video-player.js:165 | the guard matches "INPUT" in any letter case, but not "TEXTAREA", "BODY" or "INPUTS" |
| Keyboard.ArrowUpSaturates | js/video-player.js:179-181 | n ArrowUp presses from an in-range volume give min(1, v + 0.1n) |
| Keyboard.ArrowDownSaturates | js/video-player.js:182-184 | n ArrowDown presses from an in-range volume give max(0, v - 0.1n) |
| Keyboard.TenPressesReachTheEnds | js/video-player.js:179-184 | ten ArrowUp presses reach full volume, and ten ArrowDown presses reach mute |
| Page.Step | js/video-player.js:29-193 | every handled event keeps the visuals consistent with their flags, the like counter invariant, and the volume range |
| Page.Run | js/video-player.js:29-193 | any sequence of events from a consistent state ends in a consistent state |
| Page.ReachableConsistent | js/video-player.js:124-193 | every state reachable from the page's start is consistent, with the like counter 8756 or 8757 |
| Page.ControlsShownUntilLeave | js/video-player.js:70-81 | after entering, the controls stay shown with no hide pending through any run without a mouseleave, timer expiries included |
| Page.HeaderFollowsLastScroll | js/video-player.js:96-102 | after any run, the header is scrolled iff the last scroll position exceeded 50; with no scroll, it keeps its old value |
| Page.LikeFollowsClickParity | js/video-player.js:124-161 | after any run, the like flag has flipped iff the run has an odd number of like clicks, and the counter follows the flag |

## Left out

- Seek by clicking the progress bar (lines 44-50), the progress update (21-26)
  and `loadedmetadata` (53-56): these are floating-point geometry on `duration`,
  which is NaN until metadata loads. `formatTime` itself is modelled on every
  non-negative real position.
- Share (105-121): it calls the browser's share, clipboard and `alert`
  interfaces, none of which hold local state.
- Fullscreen (185-191), and the ArrowLeft/ArrowRight seeks (173-178): `ActionOf`
  recognises these keys, but their effects are outside `Ui`. The seeks depend on
  the media element's own clamping, and fullscreen is an asynchronous browser
  promise. In the model these keys leave `Ui` unchanged.
- `e.preventDefault()` and `console.log`: they have no effect on the modelled
  state.
- `toLocaleString()` (140, 155): digit grouping depends on the locale. The count
  is rendered in plain decimal (`Decimal.ShowInt`).
- `innerHTML` of the like button: only the visible word ("Liked" or
  "Like Video") is kept, not the emoji markup.
- `video.play()` returns a promise that the browser may reject, for example
  under an autoplay policy. A click is modelled as always starting playback.
- NaN and infinite positions in `formatTime`: the model works on exact reals.
- Player.MouseLeave: the timer handle is modelled as a single pending flag. In
  the source, a second mouseleave without a mouseenter between them would orphan
  the first timer, and that timer could still fire. The browser does not deliver
  that sequence.
- Player.VolumeUp: the volume is an exact real, so 0.1 steps do not accumulate
  the rounding of IEEE doubles.
- Keyboard.ArrowUpSaturates: this holds over exact reals. In IEEE doubles, ten
  presses from 0 reach 0.9999999999999999 and an eleventh reaches 1.
- Keyboard.TenPressesReachTheEnds: as above, this is exact-real arithmetic.
- Page.ReachableConsistent: the media element's paused flag changes only through
  the modelled events (the button, the space/"k" keys and `ended`). The script
  registers no `play` or `pause` listener, so when the browser pauses or resumes
  by another route (hardware media keys, background-tab pausing, native
  controls), the real page's icons and label go stale. The model does not
  represent those routes.
- Decimal.Show: integers of 1e21 and above, which JavaScript writes in exponent
  form, are rendered in plain decimal. Positions and like counts never get near
  that size.
- Keyboard.IsInputTarget: it lower-cases ASCII letters only. Tag names are ASCII,
  so full Unicode `toLowerCase` is not modelled.
- Keyboard.KeyDown: as in the source, only `<input>` targets are guarded. A
  space typed into a `<textarea>` or an editable element still toggles playback.
