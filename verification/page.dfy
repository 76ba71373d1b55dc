/** The page as a whole: every event the script listens to, dispatched to its
    handler, and runs of events from one state. The lemmas here are about whole
    runs: the visuals stay consistent with the flags, only a mouseleave can lead to
    the controls hiding, the header follows the last scroll, and the like flag
    follows the parity of like clicks. */
module Page {
  import opened Wrappers
  import opened Player
  import Keyboard

  datatype Event =
    | PlayPauseClicked
    | MediaEnded
    | PointerEntered
    | PointerLeft
    | HideTimerFired
    | TranscriptClicked
    | Scrolled(scrollY: real)
    | LikeClicked
    | KeyPressed(key: string, targetTag: string)

  function Step(s: Ui, e: Event): (r: Ui)
    ensures Consistent(s) ==> Consistent(r)
  {
    match e
    case PlayPauseClicked => ClickPlayPause(s)
    case MediaEnded => Ended(s)
    case PointerEntered => MouseEnter(s)
    case PointerLeft => MouseLeave(s)
    case HideTimerFired => TimerFires(s)
    case TranscriptClicked => ClickTranscript(s)
    case Scrolled(y) => Scroll(s, y)
    case LikeClicked => ClickLike(s)
    case KeyPressed(key, tag) => Keyboard.KeyDown(s, key, tag)
  }

  /** The state after the events `es`, in order. Every run from a consistent state
      ends in a consistent one: the icons and labels match their flags, the like
      counter is 8756 or 8757 according to the flag, and the volume stays in [0, 1]. */
  function Run(s: Ui, es: seq<Event>): (r: Ui)
    ensures Consistent(s) ==> Consistent(r)
    decreases |es|
  {
    if es == [] then s else Run(Step(s, es[0]), es[1..])
  }

  lemma RunAppend(s: Ui, es: seq<Event>, e: Event)
    ensures Run(s, es + [e]) == Step(Run(s, es), e)
    decreases |es|
  {
    if es != [] {
      assert (es + [e])[1..] == es[1..] + [e];
      RunAppend(Step(s, es[0]), es[1..], e);
    }
  }

  /** Every state reachable from the page's starting state is consistent. */
  lemma ReachableConsistent(m: Option<string>, es: seq<Event>)
    ensures Consistent(Run(Initial(m), es))
    ensures Run(Initial(m), es).like.count == 8756 || Run(Initial(m), es).like.count == 8757
  {
  }

  /** Once the pointer has entered, the controls stay shown, with no hide pending,
      until a mouseleave: no other event, a timer expiry included, can hide them. */
  lemma {:induction false} ControlsShownUntilLeave(s: Ui, es: seq<Event>)
    requires forall i :: 0 <= i < |es| ==> es[i] != PointerLeft
    ensures Run(MouseEnter(s), es).controls == Controls(true, false)
    decreases |es|
  {
    if es != [] {
      var s' := Step(MouseEnter(s), es[0]);
      assert s'.controls == Controls(true, false);
      assert MouseEnter(s') == s';
      ControlsShownUntilLeave(s', es[1..]);
    }
  }

  /** The position of the last scroll event of a run, if any. */
  function LastScroll(es: seq<Event>): Option<real>
    decreases |es|
  {
    if es == [] then None
    else if es[|es| - 1].Scrolled? then Some(es[|es| - 1].scrollY)
    else LastScroll(es[..|es| - 1])
  }

  /** The header's scrolled style depends only on the last scroll position of a run,
      and keeps its old value in a run without scrolling. */
  lemma {:induction false} HeaderFollowsLastScroll(s: Ui, es: seq<Event>)
    ensures Run(s, es).headerScrolled == match LastScroll(es)
      case Some(y) => y > ScrollThreshold
      case None => s.headerScrolled
    decreases |es|
  {
    if es != [] {
      var init, last := es[..|es| - 1], es[|es| - 1];
      assert es == init + [last];
      RunAppend(s, init, last);
      HeaderFollowsLastScroll(s, init);
    }
  }

  /** The number of like clicks in a run. */
  function LikeClicks(es: seq<Event>): nat
    decreases |es|
  {
    if es == [] then 0 else (if es[0] == LikeClicked then 1 else 0) + LikeClicks(es[1..])
  }

  /** The like flag flips with every like click and with nothing else, and the
      counter moves with it. */
  lemma {:induction false} LikeFollowsClickParity(s: Ui, es: seq<Event>)
    ensures Run(s, es).like.isLiked == (s.like.isLiked != (LikeClicks(es) % 2 == 1))
    ensures LikeConsistent(s.like) ==> Run(s, es).like.count == InitialLikeCount + (if Run(s, es).like.isLiked then 1 else 0)
    decreases |es|
  {
    if es != [] {
      var s' := Step(s, es[0]);
      assert s'.like.isLiked == (s.like.isLiked != (es[0] == LikeClicked));
      assert LikeConsistent(s.like) ==> LikeConsistent(s'.like);
      LikeFollowsClickParity(s', es[1..]);
    }
  }
}
