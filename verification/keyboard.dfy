/** The page's keydown handler (js/video-player.js, lines 164-193): keys typed into
    an `<input>` are ignored; otherwise space and "k" click the play/pause button,
    ArrowUp and ArrowDown step the volume by 0.1 within [0, 1], and ArrowLeft,
    ArrowRight and "f" act on the playback position and fullscreen state, which
    lie outside `Player.Ui` and so leave it unchanged here. */
module Keyboard {
  import opened Player

  /** What the handler's `switch (e.key)` selects. */
  datatype KeyAction =
    | TogglePlay
    | SeekBack
    | SeekForward
    | RaiseVolume
    | LowerVolume
    | ToggleFullscreen
    | NoAction

  /** The `switch` on `e.key`; the comparison is exact, so "K" and "Spacebar" do
      nothing. */
  function ActionOf(key: string): (a: KeyAction)
    ensures a == TogglePlay <==> key == " " || key == "k"
    ensures a == RaiseVolume <==> key == "ArrowUp"
    ensures a == LowerVolume <==> key == "ArrowDown"
    ensures a == NoAction <==> key !in {" ", "k", "ArrowLeft", "ArrowRight", "ArrowUp", "ArrowDown", "f"}
  {
    if key == " " || key == "k" then TogglePlay
    else if key == "ArrowLeft" then SeekBack
    else if key == "ArrowRight" then SeekForward
    else if key == "ArrowUp" then RaiseVolume
    else if key == "ArrowDown" then LowerVolume
    else if key == "f" then ToggleFullscreen
    else NoAction
  }

  /** `toLowerCase` on one character of an ASCII tag name. */
  function LowerAscii(c: char): char {
    if 'A' <= c <= 'Z' then (c as int - 'A' as int + 'a' as int) as char else c
  }

  function ToLowerAscii(s: string): (r: string)
    ensures |r| == |s|
    ensures forall i :: 0 <= i < |s| ==> r[i] == LowerAscii(s[i])
  {
    seq(|s|, i requires 0 <= i < |s| => LowerAscii(s[i]))
  }

  /** The guard on line 165: the event's target is an `<input>` element, whatever
      the case of its tag name. */
  predicate IsInputTarget(tagName: string)
    ensures IsInputTarget(tagName) <==>
      && |tagName| == 5
      && forall i :: 0 <= i < 5 ==> tagName[i] == "input"[i] || tagName[i] == "INPUT"[i]
  {
    ToLowerAscii(tagName) == "input"
  }

  /** A keydown event with `key` on a target whose tag name is `tagName`. */
  function KeyDown(s: Ui, key: string, tagName: string): (r: Ui)
    ensures IsInputTarget(tagName) ==> r == s
    ensures !IsInputTarget(tagName) && ActionOf(key) == TogglePlay ==> r == ClickPlayPause(s)
    ensures !IsInputTarget(tagName) && ActionOf(key) == RaiseVolume ==> r == VolumeUp(s)
    ensures !IsInputTarget(tagName) && ActionOf(key) == LowerVolume ==> r == VolumeDown(s)
    ensures !IsInputTarget(tagName) && ActionOf(key) in {SeekBack, SeekForward, ToggleFullscreen, NoAction} ==> r == s
    ensures VolumeInRange(s.volume) ==> VolumeInRange(r.volume)
    ensures r.(playback := s.playback, volume := s.volume) == s
  {
    if IsInputTarget(tagName) then s
    else
      match ActionOf(key)
      case TogglePlay => ClickPlayPause(s)
      case RaiseVolume => VolumeUp(s)
      case LowerVolume => VolumeDown(s)
      case _ => s
  }

  /** The tag-name guard ignores case, and guards `<input>` only. */
  lemma InputGuardExamples()
    ensures IsInputTarget("INPUT") && IsInputTarget("input") && IsInputTarget("Input")
    ensures !IsInputTarget("TEXTAREA") && !IsInputTarget("BODY") && !IsInputTarget("INPUTS")
  {
    assert ToLowerAscii("INPUT") == "input";
    assert ToLowerAscii("Input") == "input";
    assert ToLowerAscii("TEXTAREA")[0] == 't';
    assert ToLowerAscii("BODY")[0] == 'b';
    assert |ToLowerAscii("INPUTS")| == 6;
  }

  /** The same key pressed `n` times outside any input. */
  function Repeat(s: Ui, key: string, n: nat): Ui
    decreases n
  {
    if n == 0 then s else Repeat(KeyDown(s, key, "BODY"), key, n - 1)
  }

  /** From any volume in range, `n` ArrowUp presses raise it by `n` steps but never
      past 1, whatever the number of presses. */
  lemma {:induction false} ArrowUpSaturates(s: Ui, n: nat)
    requires VolumeInRange(s.volume)
    ensures Repeat(s, "ArrowUp", n).volume == Min(1.0, s.volume + n as real * VolumeStep)
    ensures VolumeInRange(Repeat(s, "ArrowUp", n).volume)
    decreases n
  {
    if n > 0 {
      var s' := KeyDown(s, "ArrowUp", "BODY");
      assert !IsInputTarget("BODY") by { assert ToLowerAscii("BODY")[0] == 'b'; }
      assert s' == VolumeUp(s);
      ArrowUpSaturates(s', n - 1);
    }
  }

  /** From any volume in range, `n` ArrowDown presses lower it by `n` steps but never
      below 0. */
  lemma {:induction false} ArrowDownSaturates(s: Ui, n: nat)
    requires VolumeInRange(s.volume)
    ensures Repeat(s, "ArrowDown", n).volume == Max(0.0, s.volume - n as real * VolumeStep)
    ensures VolumeInRange(Repeat(s, "ArrowDown", n).volume)
    decreases n
  {
    if n > 0 {
      var s' := KeyDown(s, "ArrowDown", "BODY");
      assert !IsInputTarget("BODY") by { assert ToLowerAscii("BODY")[0] == 'b'; }
      assert s' == VolumeDown(s);
      ArrowDownSaturates(s', n - 1);
    }
  }

  /** Ten presses take any in-range volume to full, and ten the other way to mute. */
  lemma TenPressesReachTheEnds(s: Ui)
    requires VolumeInRange(s.volume)
    ensures Repeat(s, "ArrowUp", 10).volume == 1.0
    ensures Repeat(s, "ArrowDown", 10).volume == 0.0
  {
    ArrowUpSaturates(s, 10);
    ArrowDownSaturates(s, 10);
  }
}
