/** The announcement countdown: a timer whose interval callback stores the
    seconds left until the target, stopping and firing the completion
    callback once the target is reached, and the split of those seconds into
    days, hours, minutes and seconds shown as two-digit tiles. */
module Countdown {
  import opened Text

  /** JavaScript's `a % b` for positive `b`: the remainder takes the sign of
      `a`. */
  function JsRem(a: int, b: int): (r: int)
    requires b > 0
    ensures a >= 0 ==> r == a % b
    ensures -b < r < b
  {
    if a >= 0 then a % b else -((-a) % b)
  }

  datatype Parts = Parts(days: int, hours: int, minutes: int, seconds: int)

  /** `Math.floor` of the quotients and `%` remainders the component
      computes. */
  function Decompose(timeLeft: int): (p: Parts)
    ensures timeLeft >= 0 ==> 0 <= p.days && 0 <= p.hours < 24 && 0 <= p.minutes < 60 && 0 <= p.seconds < 60
  {
    Parts(timeLeft / 86400, JsRem(timeLeft, 86400) / 3600, JsRem(timeLeft, 3600) / 60, JsRem(timeLeft, 60))
  }

  /** For a count at least 0 the units recompose to it and each lies in its
      range. */
  lemma DecomposeRecomposes(timeLeft: int)
    requires timeLeft >= 0
    ensures var p := Decompose(timeLeft);
            p.days * 86400 + p.hours * 3600 + p.minutes * 60 + p.seconds == timeLeft
            && 0 <= p.days && 0 <= p.hours < 24 && 0 <= p.minutes < 60 && 0 <= p.seconds < 60
  {
    var d := timeLeft / 86400;
    var r := timeLeft % 86400;
    var h := r / 3600;
    var r2 := r % 3600;
    assert timeLeft == 3600 * (24 * d + h) + r2;
    assert timeLeft % 3600 == r2;
    var m := r2 / 60;
    var s := r2 % 60;
    assert timeLeft == 60 * (1440 * d + 60 * h + m) + s;
    assert timeLeft % 60 == s;
  }

  /** `String(value).padStart(2, '0')`. */
  function PadUnit(value: int): (r: string)
    ensures |r| >= 2 && EndsWith(r, IntString(value))
    ensures forall i :: 0 <= i < |r| - |IntString(value)| ==> r[i] == '0'
  {
    PadStart(IntString(value), 2, '0')
  }

  /** The four tiles: days, hours, minutes, seconds. */
  function PartsTiles(p: Parts): seq<string> {
    [PadUnit(p.days), PadUnit(p.hours), PadUnit(p.minutes), PadUnit(p.seconds)]
  }

  function Tiles(timeLeft: int): seq<string> {
    PartsTiles(Decompose(timeLeft))
  }

  /** Leading zeros do not change the number a digit string denotes. */
  lemma {:induction false} LeadingZerosIgnored(zeros: nat, s: string)
    ensures DigitsValue(seq(zeros, _ => '0') + s) == DigitsValue(s)
    decreases zeros, |s|
  {
    var z := seq(zeros, _ => '0');
    if |s| == 0 {
      if zeros > 0 {
        assert (z + s)[..zeros - 1] == seq(zeros - 1, _ => '0') + s;
        LeadingZerosIgnored(zeros - 1, s);
      }
    } else {
      assert (z + s)[..|z + s| - 1] == z + s[..|s| - 1];
      LeadingZerosIgnored(zeros, s[..|s| - 1]);
    }
  }

  /** A tile for a value at least 0 has at least two characters and reads
      back as the value. */
  lemma PadUnitDenotes(value: nat)
    ensures |PadUnit(value)| >= 2 && DigitsValue(PadUnit(value)) == value
  {
    var s := NatString(value);
    var t := PadUnit(value);
    if |s| < 2 {
      assert t == seq(2 - |s|, _ => '0') + s;
      LeadingZerosIgnored(2 - |s|, s);
    }
  }

  /** Each tile of units at least 0 reads back as its unit. */
  lemma PartsTilesDenote(p: Parts)
    requires p.days >= 0 && p.hours >= 0 && p.minutes >= 0 && p.seconds >= 0
    ensures var t := PartsTiles(p);
            |t| == 4 && |t[0]| >= 2 && |t[1]| >= 2 && |t[2]| >= 2 && |t[3]| >= 2
            && DigitsValue(t[0]) == p.days && DigitsValue(t[1]) == p.hours
            && DigitsValue(t[2]) == p.minutes && DigitsValue(t[3]) == p.seconds
  {
    var t := PartsTiles(p);
    assert |t[0]| >= 2 && DigitsValue(t[0]) == p.days by { PadUnitDenotes(p.days); }
    assert |t[1]| >= 2 && DigitsValue(t[1]) == p.hours by { PadUnitDenotes(p.hours); }
    assert |t[2]| >= 2 && DigitsValue(t[2]) == p.minutes by { PadUnitDenotes(p.minutes); }
    assert |t[3]| >= 2 && DigitsValue(t[3]) == p.seconds by { PadUnitDenotes(p.seconds); }
  }

  /** The four tiles shown for a count at least 0 read back as that count:
      nothing is lost between the state and the display. */
  lemma TilesShowTimeLeft(timeLeft: int)
    requires timeLeft >= 0
    ensures var t := Tiles(timeLeft);
            |t| == 4
            && DigitsValue(t[0]) * 86400 + DigitsValue(t[1]) * 3600 + DigitsValue(t[2]) * 60 + DigitsValue(t[3])
               == timeLeft
  {
    DecomposeRecomposes(timeLeft);
    PartsTilesDenote(Decompose(timeLeft));
  }

  /** The component's state: `timeLeft`, whether its interval still runs, and
      how many times `onComplete` has fired. */
  class CountdownTimer {
    var timeLeft: int
    var running: bool
    var completions: nat

    /** `timeLeft` is never negative, and `onComplete` has fired once exactly
        when the interval has been cleared. */
    ghost predicate Valid()
      reads this
    {
      timeLeft >= 0 && completions <= 1 && (running <==> completions == 0)
    }

    /** Mounting: `timeLeft` starts at 0 and the interval is set. */
    constructor()
      ensures Valid() && timeLeft == 0 && running && completions == 0
    {
      timeLeft := 0;
      running := true;
      completions := 0;
    }

    /** One interval callback; `diff` is `differenceInSeconds(target, now)`.
        A cleared interval fires no more, hence `running` is required. */
    method Tick(diff: int)
      requires Valid() && running
      modifies this
      ensures Valid()
      ensures diff <= 0 ==> timeLeft == 0 && !running && completions == old(completions) + 1
      ensures diff > 0 ==> timeLeft == diff && running && completions == old(completions)
    {
      if diff <= 0 {
        timeLeft := 0;
        running := false;
        completions := completions + 1;
      } else {
        timeLeft := diff;
      }
    }

    /** The tiles the component renders from its state. */
    method Render() returns (tiles: seq<string>)
      requires Valid()
      ensures tiles == Tiles(timeLeft)
      ensures |tiles| == 4 && |tiles[0]| >= 2 && |tiles[1]| >= 2 && |tiles[2]| >= 2 && |tiles[3]| >= 2
    {
      DecomposeRecomposes(timeLeft);
      var p := Decompose(timeLeft);
      tiles := PartsTiles(p);
      PartsTilesDenote(p);
    }
  }
}
