/** The player's `formatTime` helper (js/video-player.js, lines 14-18): a playback
    position in seconds becomes "M:SS" — whole minutes, a colon, and the whole
    seconds within the minute padded to two digits. There is no hour field, so an
    hour-long position reads "60:00".

    `FormatTime` is the model on whole seconds. `FormatSeconds` follows the source
    on a real-valued position, with `Math.floor` and JavaScript's truncating `%`
    written out; its contract shows that for a non-negative position only the whole
    seconds matter. `ParseTime` reads a time string back, and the round-trip
    lemmas relate it to `FormatTime` in both directions. */
module TimeFormat {
  import opened Decimal
  import opened Wrappers

  /** JavaScript's `s.padStart(width, fill)` for a one-character `fill`: the fill
      character is prepended until the string is `width` long. */
  function PadStart(s: string, width: nat, fill: char): (r: string)
    ensures |r| == if |s| >= width then |s| else width
    ensures r[|r| - |s|..] == s
    ensures forall i :: 0 <= i < |r| - |s| ==> r[i] == fill
  {
    if |s| >= width then s else seq(width - |s|, _ => fill) + s
  }

  /** The text before the final ":SS" of a time string. */
  function MinutesField(t: string): string
    requires |t| >= 3
  {
    t[..|t| - 3]
  }

  /** The last two characters of a time string. */
  function SecondsField(t: string): string
    requires |t| >= 2
  {
    t[|t| - 2..]
  }

  /** A string built as minutes, colon, two-character seconds splits back into
      exactly those fields. */
  lemma {:induction false} SplitFields(m: string, f: string)
    requires |f| == 2
    ensures var t := m + ":" + f;
      |t| >= 3 && t[|t| - 3] == ':' && MinutesField(t) == m && SecondsField(t) == f
  {
    var t := m + ":" + f;
    assert t[..|m|] == m;
    assert t[|m| + 1..] == f;
  }

  /** The seconds field for `k` seconds past the minute: exactly two digits, with a
      leading zero below ten, denoting `k`. */
  function TwoDigits(k: nat): (f: string)
    requires k < 60
    ensures |f| == 2 && AllDigits(f) && Value(f) == k
    ensures f[0] == '0' <==> k < 10
  {
    var d := Show(k);
    if k < 10 then
      assert Value(['0']) == 0;
      assert ['0', d[0]][..1] == ['0'];
      ValueOfShow(k);
      PadStart(d, 2, '0')
    else
      assert Show(k / 10) == [DigitChar(k / 10)];
      assert d[..1] == Show(k / 10);
      ValueOfShow(k);
      PadStart(d, 2, '0')
  }

  /** `formatTime` on a whole number of seconds. */
  function FormatTime(seconds: nat): (t: string)
    ensures |t| >= 4 && t[|t| - 3] == ':'
    ensures Canonical(MinutesField(t))
    ensures |SecondsField(t)| == 2 && AllDigits(SecondsField(t))
    ensures Value(SecondsField(t)) < 60
  {
    var m := Show(seconds / 60);
    var f := TwoDigits(seconds % 60);
    SplitFields(m, f);
    m + ":" + f
  }

  /** Reads a time string of the shape "<digits>:<two digits>" back into seconds;
      `None` when the string has another shape or the seconds field is 60 or more. */
  function ParseTime(t: string): Option<nat> {
    if && |t| >= 4
       && t[|t| - 3] == ':'
       && AllDigits(MinutesField(t))
       && AllDigits(SecondsField(t))
       && Value(SecondsField(t)) < 60
    then Some(Value(MinutesField(t)) * 60 + Value(SecondsField(t)))
    else None
  }

  /** What `ParseTime` reads from a string assembled from a minutes field and a
      two-character seconds field. */
  lemma {:induction false} ParseTimeOfFields(m: string, f: string, n: nat)
    requires |m| >= 1 && |f| == 2 && AllDigits(m) && AllDigits(f)
    requires Value(f) < 60 && n == Value(m) * 60 + Value(f)
    ensures ParseTime(m + ":" + f) == Some(n)
  {
    SplitFields(m, f);
  }

  /** Reading the minutes and seconds back out of `FormatTime(s)` gives `s`. */
  lemma {:induction false} FormatTimeRoundTrip(s: nat)
    ensures ParseTime(FormatTime(s)) == Some(s)
  {
    var q, r := s / 60, s % 60;
    var m, f := Show(q), TwoDigits(r);
    ValueOfShow(q);
    DivModUnique(s, q, r);
    assert s == Value(m) * 60 + Value(f);
    ParseTimeOfFields(m, f, s);
    assert FormatTime(s) == m + ":" + f;
  }

  /** `q` and `r` are the minutes and seconds of `n` exactly when `n == q * 60 + r`
      with `r` below 60. */
  lemma {:induction false} DivModUnique(n: nat, q: nat, r: nat)
    ensures r < 60 && n == q * 60 + r <==> n / 60 == q && n % 60 == r
  {
  }

  /** A two-digit field below 60 is exactly what `TwoDigits` writes for its value. */
  lemma {:induction false} TwoDigitsOfValue(f: string)
    requires |f| == 2 && AllDigits(f) && Value(f) < 60
    ensures TwoDigits(Value(f)) == f
  {
    assert f == [f[0], f[1]];
    assert [f[0], f[1]][..1] == [f[0]];
    assert Value([f[0]]) == DigitValue(f[0]) by {
      assert [f[0]][..0] == [];
    }
    assert Value(f) == DigitValue(f[0]) * 10 + DigitValue(f[1]);
    if f[0] == '0' {
      DigitCharOfValue(f[1]);
    } else {
      ShowOfValue(f);
    }
  }

  /** Every time string `ParseTime` accepts whose minutes carry no leading zero is
      exactly what `FormatTime` writes for the seconds it denotes. */
  lemma {:induction false} ParseTimeRoundTrip(t: string)
    requires ParseTime(t).Some? && Canonical(MinutesField(t))
    ensures FormatTime(ParseTime(t).value) == t
  {
    var mf, sf := MinutesField(t), SecondsField(t);
    assert t == mf + ":" + sf;
    var a, b := Value(mf), Value(sf);
    var n := ParseTime(t).value;
    assert n == a * 60 + b;
    DivModUnique(n, a, b);
    ShowOfValue(mf);
    TwoDigitsOfValue(sf);
    assert FormatTime(n) == Show(a) + ":" + TwoDigits(b);
  }

  /** Three sample positions, one of them an hour in, which has no hour field. */
  lemma FormatTimeExamples()
    ensures FormatTime(0) == "0:00"
    ensures FormatTime(65) == "1:05"
    ensures FormatTime(3600) == "60:00"
  {
    assert Show(0) == "0";
    assert Show(1) == "1";
    assert Show(5) == "5";
    assert Show(6) == "6";
    assert Show(60) == Show(6) + "0";
  }

  // ----- the source function on a real-valued position -----

  /** JavaScript's `Math.trunc` on an exact real. */
  function Trunc(y: real): int {
    if y >= 0.0 then y.Floor else -((-y).Floor)
  }

  /** JavaScript's `x % y`: the remainder of a division truncated toward zero, so it
      takes the sign of `x` (unlike Dafny's `%`). */
  function JsRem(x: real, y: real): real
    requires y != 0.0
  {
    x - y * Trunc(x / y) as real
  }

  /** `formatTime(seconds)` as written, on an exact real position: `Math.floor` of
      the quotient and of the remainder, each rendered with `toString()`. A negative
      position would render with minus signs; the media element never reports one. */
  function FormatSeconds(x: real): (t: string)
    ensures x >= 0.0 ==> t == FormatTime(x.Floor)
  {
    var minutes := (x / 60.0).Floor;
    var secs := JsRem(x, 60.0).Floor;
    if x >= 0.0 then
      FloorOfQuotient(x);
      FloorOfRemainder(x);
      var n: nat := x.Floor;
      assert ShowInt(n / 60) == Show(n / 60);
      assert ShowInt(n % 60) == Show(n % 60);
      assert FormatTime(n) == Show(n / 60) + ":" + TwoDigits(n % 60);
      ShowInt(minutes) + ":" + PadStart(ShowInt(secs), 2, '0')
    else
      ShowInt(minutes) + ":" + PadStart(ShowInt(secs), 2, '0')
  }

  lemma FloorUnique(y: real, q: int)
    requires q as real <= y < q as real + 1.0
    ensures y.Floor == q
  {
  }

  /** `Math.floor(x / 60)` is the whole minutes of `Math.floor(x)`. */
  lemma {:induction false} FloorOfQuotient(x: real)
    requires x >= 0.0
    ensures (x / 60.0).Floor == x.Floor / 60
  {
    var n: nat := x.Floor;
    var q := n / 60;
    assert q * 60 <= n < q * 60 + 60;
    assert q as real * 60.0 <= x;
    assert x < q as real * 60.0 + 60.0;
    FloorUnique(x / 60.0, q);
  }

  /** `Math.floor(x % 60)` is the seconds past the minute of `Math.floor(x)`. */
  lemma {:induction false} FloorOfRemainder(x: real)
    requires x >= 0.0
    ensures JsRem(x, 60.0).Floor == x.Floor % 60
  {
    var n: nat := x.Floor;
    var q, r := n / 60, n % 60;
    FloorOfQuotient(x);
    assert Trunc(x / 60.0) == q;
    assert n == q * 60 + r;
    var y := x - 60.0 * q as real;
    assert JsRem(x, 60.0) == y;
    assert r as real <= y < r as real + 1.0;
    FloorUnique(y, r);
  }
}
