/** The countdown the encryption status panel shows: the auction's end time, given
    in seconds, against the clock in milliseconds, split into whole hours, minutes
    and seconds. */
module EncryptionStatus {
  import opened Wrappers
  import Hex
  import opened ModArith

  const MillisPerHour: nat := 3600000
  const MillisPerMinute: nat := 60000
  const MillisPerSecond: nat := 1000

  /** What one tick of the timer computes: the auction is over, or this much is left. */
  datatype Countdown = Ended | Left(hours: nat, minutes: nat, seconds: nat)

  /** Milliseconds from `now` to the end time. */
  function Remaining(auctionEndTime: int, now: int): int {
    auctionEndTime * MillisPerSecond - now
  }

  /** Whether h hours, m minutes and s seconds is `remaining` milliseconds cut
      down to whole seconds. */
  predicate Decomposes(remaining: int, h: nat, m: nat, s: nat) {
    && m < 60 && s < 60
    && h * MillisPerHour + m * MillisPerMinute + s * MillisPerSecond <= remaining
    && remaining < h * MillisPerHour + m * MillisPerMinute + s * MillisPerSecond + MillisPerSecond
  }

  /** `updateTimer` for the end time prop and the clock reading `now`; None when the
      prop is absent or 0 and the effect returns before computing anything. */
  function Timer(auctionEndTime: Option<int>, now: int): (r: Option<Countdown>)
    ensures r.None? <==> auctionEndTime.None? || auctionEndTime == Some(0)
    ensures r.Some? ==> (r.value.Ended? <==> Remaining(auctionEndTime.value, now) <= 0)
    ensures r.Some? && r.value.Left? ==> Decomposes(Remaining(auctionEndTime.value, now), r.value.hours,
                                                    r.value.minutes, r.value.seconds)
  {
    if auctionEndTime.None? || auctionEndTime.value == 0 then None
    else
      var remaining := Remaining(auctionEndTime.value, now);
      if remaining <= 0 then Some(Ended)
      else
        var hours := remaining / MillisPerHour;
        var minutes := (remaining % MillisPerHour) / MillisPerMinute;
        var seconds := (remaining % MillisPerMinute) / MillisPerSecond;
        SplitDecomposes(remaining);
        Some(Left(hours, minutes, seconds))
  }

  /** The floor divisions and remainders of the timer give a decomposition. */
  lemma SplitDecomposes(remaining: nat)
    ensures Decomposes(remaining, remaining / MillisPerHour, (remaining % MillisPerHour) / MillisPerMinute,
                       (remaining % MillisPerMinute) / MillisPerSecond)
  {
    var h, rh := remaining / MillisPerHour, remaining % MillisPerHour;
    var m, rm := rh / MillisPerMinute, rh % MillisPerMinute;
    var s, rs := rm / MillisPerSecond, rm % MillisPerSecond;
    assert m < 60 && s < 60;
    DivModUnique(remaining, h * 60 + m, rm, MillisPerMinute);
    assert remaining == h * MillisPerHour + m * MillisPerMinute + s * MillisPerSecond + rs;
  }

  /** A decomposition is unique: the hours, minutes and seconds are determined by
      the remaining time. */
  lemma DecompositionUnique(remaining: int, h1: nat, m1: nat, s1: nat, h2: nat, m2: nat, s2: nat)
    requires Decomposes(remaining, h1, m1, s1) && Decomposes(remaining, h2, m2, s2)
    ensures h1 == h2 && m1 == m2 && s1 == s2
  {
    var t1 := h1 * 3600 + m1 * 60 + s1;
    var t2 := h2 * 3600 + m2 * 60 + s2;
    assert t1 * 1000 <= remaining < t1 * 1000 + 1000;
    assert t2 * 1000 <= remaining < t2 * 1000 + 1000;
    assert t1 == t2;
    assert h1 * 60 + m1 == (h2 * 60 + m2) by {
      assert (h1 * 60 + m1) * 60 + s1 == (h2 * 60 + m2) * 60 + s2;
    }
  }

  /** While time remains, the timer's hours, minutes and seconds are the only ones
      that fit it. */
  lemma TimerIsTheDecomposition(auctionEndTime: int, now: int, h: nat, m: nat, s: nat)
    requires auctionEndTime != 0 && Remaining(auctionEndTime, now) > 0
    requires Decomposes(Remaining(auctionEndTime, now), h, m, s)
    ensures Timer(Some(auctionEndTime), now) == Some(Left(h, m, s))
  {
    var r := Timer(Some(auctionEndTime), now);
    assert r.value.Left?;
    DecompositionUnique(Remaining(auctionEndTime, now), h, m, s, r.value.hours, r.value.minutes, r.value.seconds);
  }

  /** The text `setTimeRemaining` receives; it ends in "s" exactly while time
      remains. */
  function Display(c: Countdown): (text: string)
    ensures |text| >= 1
    ensures text[|text| - 1] == 's' <==> c.Left?
  {
    match c
    case Ended => "Auction Ended"
    case Left(h, m, s) => Hex.NatToDecimal(h) + "h " + Hex.NatToDecimal(m) + "m " + Hex.NatToDecimal(s) + "s"
  }
}
