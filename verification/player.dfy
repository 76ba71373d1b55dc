/** The player page's UI state and its event handlers (js/video-player.js). Each
    handler becomes a pure transition on one immutable record, `Ui`, whose parts
    follow the handlers that own them: the play/pause button, the hover-revealed
    controls, the transcript panel, the header, the like button and the volume.

    Each transition states what the handler promises about its own part of the
    state, and that every other part is left as it was. */
module Player {
  import opened Wrappers
  import Decimal

  /** The like counter the script starts from (line 125). */
  const InitialLikeCount: int := 8756
  /** `window.scrollY` must exceed this for the header to show its scrolled style. */
  const ScrollThreshold: real := 50.0
  /** The amount one ArrowUp or ArrowDown press moves the volume. */
  const VolumeStep: real := 0.1

  const PlayLabel := "Play video"
  const PauseLabel := "Pause video"
  const HideDataLabel := "Hide Data"
  const ShowDataLabel := "Show Data"
  const LikedText := "Liked"
  const LikeText := "Like Video"

  /** The media element's paused flag together with the button's two icons (their
      `display` styles) and its aria-label. */
  datatype Playback = Playback(paused: bool, playIconShown: bool, pauseIconShown: bool, ariaLabel: string)

  /** Whether the controls carry the "show" class, and whether an auto-hide timer
      (`controlsTimeout`) is still due to fire. */
  datatype Controls = Controls(shown: bool, hidePending: bool)

  /** Whether the transcript content carries the "show" class, and the toggle's text. */
  datatype Transcript = Transcript(shown: bool, toggleLabel: string)

  /** The like flag and counter, the button's visible text and "liked" class, and
      the meta label beside it (`None` when the page has no such element). */
  datatype Like = Like(isLiked: bool, count: int, buttonText: string, likedStyle: bool, metaLabel: Option<string>)

  datatype Ui = Ui(
    playback: Playback,
    controls: Controls,
    transcript: Transcript,
    headerScrolled: bool,
    like: Like,
    volume: real)

  // ----- the visuals each part is meant to show -----

  /** The button shows the pause icon and offers "Pause video" exactly while the
      video plays, and the play icon with "Play video" while it is paused. */
  predicate PlaybackConsistent(p: Playback) {
    && p.playIconShown == p.paused
    && p.pauseIconShown == !p.paused
    && p.ariaLabel == (if p.paused then PlayLabel else PauseLabel)
  }

  predicate TranscriptConsistent(t: Transcript) {
    t.toggleLabel == (if t.shown then HideDataLabel else ShowDataLabel)
  }

  /** The counter is one above its starting value exactly while liked, and the
      button reflects the flag. */
  predicate LikeConsistent(l: Like) {
    && l.count == InitialLikeCount + (if l.isLiked then 1 else 0)
    && l.buttonText == (if l.isLiked then LikedText else LikeText)
    && l.likedStyle == l.isLiked
  }

  predicate VolumeInRange(v: real) {
    0.0 <= v <= 1.0
  }

  predicate Consistent(s: Ui) {
    && PlaybackConsistent(s.playback)
    && TranscriptConsistent(s.transcript)
    && LikeConsistent(s.like)
    && VolumeInRange(s.volume)
  }

  /** The meta label as the like handler writes it: the count followed by "likes"
      while liked and by "views" otherwise. */
  function MetaText(count: int, liked: bool): (t: string)
    ensures |t| >= 7
    ensures t[|t| - 6..] == (if liked then " likes" else " views")
    ensures count >= 0 ==> Decimal.Canonical(t[..|t| - 6]) && Decimal.Value(t[..|t| - 6]) == count
  {
    var n := Decimal.ShowInt(count);
    var suffix := if liked then " likes" else " views";
    assert (n + suffix)[..|n|] == n;
    assert (n + suffix)[|n|..] == suffix;
    n + suffix
  }

  /** The page as the script leaves it at load: not liked, the counter at 8756. The
      markup is not part of this model, so the other parts take the values a page
      that has not autoplayed shows: paused, controls and transcript hidden, header
      at the top, the media element's default volume of 1, and `metaLabel` as the
      markup provides it. */
  function Initial(metaLabel: Option<string>): (s: Ui)
    ensures Consistent(s)
    ensures !s.like.isLiked && s.like.count == InitialLikeCount
  {
    Ui(Playback(true, true, false, PlayLabel),
       Controls(false, false),
       Transcript(false, ShowDataLabel),
       false,
       Like(false, InitialLikeCount, LikeText, false, metaLabel),
       1.0)
  }

  // ----- play/pause button and the media element's `ended` event -----

  /** A click on the play/pause button (lines 29-41): the video starts if it was
      paused and pauses otherwise, and the icons and label follow the new state. */
  function ClickPlayPause(s: Ui): (r: Ui)
    ensures r.playback.paused == !s.playback.paused
    ensures PlaybackConsistent(r.playback)
    ensures r.(playback := s.playback) == s
  {
    if s.playback.paused then
      s.(playback := Playback(false, false, true, PauseLabel))
    else
      s.(playback := Playback(true, true, false, PlayLabel))
  }

  /** Playback reaching the end (lines 60-64): the media element sets its paused flag,
      and the handler shows the play icon and the "Play video" label. */
  function Ended(s: Ui): (r: Ui)
    ensures r.playback.paused && PlaybackConsistent(r.playback)
    ensures r.playback.ariaLabel == PlayLabel && !r.playback.pauseIconShown
    ensures r.(playback := s.playback) == s
  {
    s.(playback := Playback(true, true, false, PlayLabel))
  }

  // ----- hover-revealed controls with the auto-hide debounce -----

  /** The pointer entering the video (lines 70-73): the controls are shown and any
      pending auto-hide is cancelled. */
  function MouseEnter(s: Ui): (r: Ui)
    ensures r.controls.shown && !r.controls.hidePending
    ensures r.(controls := s.controls) == s
  {
    s.(controls := Controls(true, false))
  }

  /** The pointer leaving the video (lines 75-81): while the video plays an auto-hide
      is scheduled; while it is paused nothing happens. */
  function MouseLeave(s: Ui): (r: Ui)
    ensures r.controls.hidePending <==> !s.playback.paused || s.controls.hidePending
    ensures r.controls.shown == s.controls.shown
    ensures r.(controls := s.controls) == s
  {
    if !s.playback.paused then s.(controls := s.controls.(hidePending := true)) else s
  }

  /** The auto-hide timer expiring, two seconds after it was scheduled (line 78): the
      controls lose the "show" class, but only if the timer was not cancelled. */
  function TimerFires(s: Ui): (r: Ui)
    ensures !r.controls.hidePending
    ensures r.controls.shown <==> s.controls.shown && !s.controls.hidePending
    ensures r.(controls := s.controls) == s
  {
    if s.controls.hidePending then s.(controls := Controls(false, false)) else s
  }

  // ----- transcript panel -----

  /** A click on the transcript toggle (lines 87-92): the panel's visibility flips
      and the toggle's text names what the next click will do. */
  function ClickTranscript(s: Ui): (r: Ui)
    ensures r.transcript.shown == !s.transcript.shown
    ensures TranscriptConsistent(r.transcript)
    ensures r.transcript.toggleLabel == HideDataLabel <==> r.transcript.shown
    ensures r.(transcript := s.transcript) == s
  {
    var shown := !s.transcript.shown;
    s.(transcript := Transcript(shown, if shown then HideDataLabel else ShowDataLabel))
  }

  // ----- header -----

  /** A scroll event (lines 96-102): the header's scrolled style reflects whether
      the page is scrolled strictly past 50, whatever it was before. */
  function Scroll(s: Ui, scrollY: real): (r: Ui)
    ensures r.headerScrolled <==> scrollY > ScrollThreshold
    ensures r.(headerScrolled := s.headerScrolled) == s
  {
    s.(headerScrolled := scrollY > ScrollThreshold)
  }

  // ----- like button -----

  /** A click on the like button (lines 127-161): the flag flips, the counter moves
      one step in the same direction, the button shows "Liked" or "Like Video", and
      the meta label, when present, is rewritten to the new count followed by
      "likes" or "views". */
  function ClickLike(s: Ui): (r: Ui)
    ensures r.like.isLiked == !s.like.isLiked
    ensures r.like.count == s.like.count + (if r.like.isLiked then 1 else -1)
    ensures r.like.buttonText == (if r.like.isLiked then LikedText else LikeText)
    ensures r.like.likedStyle == r.like.isLiked
    ensures r.like.metaLabel.Some? <==> s.like.metaLabel.Some?
    ensures r.like.metaLabel.Some? ==> r.like.metaLabel.value == MetaText(r.like.count, r.like.isLiked)
    ensures LikeConsistent(s.like) ==> LikeConsistent(r.like)
    ensures r.(like := s.like) == s
  {
    var liked := !s.like.isLiked;
    var count := if liked then s.like.count + 1 else s.like.count - 1;
    var meta := if s.like.metaLabel.Some? then Some(MetaText(count, liked)) else None;
    s.(like := Like(liked, count, if liked then LikedText else LikeText, liked, meta))
  }

  // ----- volume -----

  function Min(a: real, b: real): real {
    if a <= b then a else b
  }

  function Max(a: real, b: real): real {
    if a >= b then a else b
  }

  /** `video.volume = Math.min(1, video.volume + 0.1)` (line 180). */
  function VolumeUp(s: Ui): (r: Ui)
    ensures r.volume <= 1.0
    ensures r.volume == 1.0 || r.volume == s.volume + VolumeStep
    ensures s.volume <= 1.0 ==> s.volume <= r.volume
    ensures r.volume <= s.volume + VolumeStep
    ensures VolumeInRange(s.volume) ==> VolumeInRange(r.volume)
    ensures r.(volume := s.volume) == s
  {
    s.(volume := Min(1.0, s.volume + VolumeStep))
  }

  /** `video.volume = Math.max(0, video.volume - 0.1)` (line 183). */
  function VolumeDown(s: Ui): (r: Ui)
    ensures r.volume >= 0.0
    ensures r.volume == 0.0 || r.volume == s.volume - VolumeStep
    ensures s.volume >= 0.0 ==> r.volume <= s.volume
    ensures r.volume >= s.volume - VolumeStep
    ensures VolumeInRange(s.volume) ==> VolumeInRange(r.volume)
    ensures r.(volume := s.volume) == s
  {
    s.(volume := Max(0.0, s.volume - VolumeStep))
  }

  // ----- properties relating several events -----

  /** Two clicks on play/pause restore the state, once the button shows the paused
      flag correctly. */
  lemma ClickPlayPauseTwice(s: Ui)
    requires PlaybackConsistent(s.playback)
    ensures ClickPlayPause(ClickPlayPause(s)) == s
  {
  }

  /** After `ended`, the next click starts playback. */
  lemma ClickAfterEndedPlays(s: Ui)
    ensures !ClickPlayPause(Ended(s)).playback.paused
    ensures ClickPlayPause(Ended(s)).playback.ariaLabel == PauseLabel
  {
  }

  /** Leaving and re-entering before the timer expires keeps the controls shown
      when it does expire. */
  lemma ReenterCancelsHide(s: Ui)
    ensures TimerFires(MouseEnter(MouseLeave(s))).controls.shown
  {
  }

  /** Leaving while playing and staying out until the timer expires hides the
      controls. */
  lemma LeaveWhilePlayingHides(s: Ui)
    requires !s.playback.paused
    ensures !TimerFires(MouseLeave(s)).controls.shown
  {
  }

  /** Leaving while paused schedules nothing, so an expiry afterwards cannot hide
      controls that had no hide pending. */
  lemma LeaveWhilePausedKeepsControls(s: Ui)
    requires s.playback.paused && !s.controls.hidePending
    ensures TimerFires(MouseLeave(s)).controls == s.controls
  {
  }

  lemma ClickTranscriptTwice(s: Ui)
    requires TranscriptConsistent(s.transcript)
    ensures ClickTranscript(ClickTranscript(s)) == s
  {
  }

  /** Only the latest scroll position matters, and the threshold is strict. */
  lemma ScrollLatestWins(s: Ui, y1: real, y2: real)
    ensures Scroll(Scroll(s, y1), y2) == Scroll(s, y2)
    ensures !Scroll(s, 50.0).headerScrolled
    ensures Scroll(s, 51.0).headerScrolled
  {
  }

  /** Like followed by unlike restores the flag, the count and the button; the meta
      label then reads the restored count as views. */
  lemma ClickLikeTwice(s: Ui)
    requires LikeConsistent(s.like)
    ensures var r := ClickLike(ClickLike(s));
      && r.like.isLiked == s.like.isLiked
      && r.like.count == s.like.count
      && r.like.buttonText == s.like.buttonText
      && r.like.likedStyle == s.like.likedStyle
      && r.(like := s.like) == s
  {
  }

  /** From the page's starting state, like then unlike leaves the meta label saying
      "8756 views". */
  lemma LikeThenUnlikeFromStart(m: Option<string>)
    requires m.Some?
    ensures ClickLike(ClickLike(Initial(m))).like.metaLabel == Some("8756 views")
    ensures ClickLike(Initial(m)).like.metaLabel == Some("8757 likes")
  {
    assert Decimal.Show(875) == "875" by {
      assert Decimal.DigitChar(8) == '8' && Decimal.DigitChar(7) == '7' && Decimal.DigitChar(5) == '5';
      assert Decimal.Show(87) == Decimal.Show(8) + "7";
    }
    assert Decimal.DigitChar(6) == '6' && Decimal.DigitChar(7) == '7';
    assert Decimal.ShowInt(8756) == Decimal.Show(875) + "6";
    assert Decimal.ShowInt(8757) == Decimal.Show(875) + "7";
    var liked := ClickLike(Initial(m));
    assert liked.like.count == 8757 && liked.like.isLiked;
    assert MetaText(8757, true) == "8757 likes";
    assert MetaText(8756, false) == "8756 views";
  }
}
