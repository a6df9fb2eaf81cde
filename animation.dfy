/** Sprite-sheet animations: a frame counter that advances once every `sustain + 1` updates and
    either wraps around (looped) or stops on the last frame. Drawing is not modelled. */
module Animations {
  import opened Resources

  /** Rust's `u32`. */
  newtype u32 = x: int | 0 <= x < 0x1_0000_0000

  /** The two counters an update changes. */
  datatype Counters = Counters(frame: u32, countdown: u32)

  /** The counters of a new animation: first frame, one update before the first advance. */
  const Fresh: Counters := Counters(0, 1)

  /** The frame after `frame`: modulo `length` when looped, otherwise clamped to the last frame. */
  function NextFrame(frame: u32, length: u32, looped: bool): u32
    requires length > 0 && frame < length
  {
    if looped then ((frame as int + 1) % length as int) as u32
    else if frame + 1 >= length then length - 1
    else frame + 1
  }

  /** One update: a pending countdown is decremented; an expired one advances the frame and starts
      again from `sustain`. An expired countdown needs a nonempty animation. */
  function Updated(c: Counters, length: u32, sustain: u32, looped: bool): Counters
    requires c.frame < length || (c.frame == 0 && c.countdown > 0)
  {
    if c.countdown == 0 then Counters(NextFrame(c.frame, length, looped), sustain)
    else Counters(c.frame, c.countdown - 1)
  }

  /** The counters after `n` updates; a nonempty animation is needed once a countdown expires. */
  function UpdatedTimes(c: Counters, length: u32, sustain: u32, looped: bool, n: nat): Counters
    requires length > 0 && c.frame < length
    decreases n
  {
    if n == 0 then c
    else
      UpdatedInRange(c, length, sustain, looped);
      UpdatedTimes(Updated(c, length, sustain, looped), length, sustain, looped, n - 1)
  }

  /** An update of a nonempty animation keeps the frame on the sheet. */
  lemma UpdatedInRange(c: Counters, length: u32, sustain: u32, looped: bool)
    requires length > 0 && c.frame < length
    ensures Updated(c, length, sustain, looped).frame < length
  {
  }

  /** While the countdown runs, an update decrements it and keeps the frame; when it has expired,
      the frame moves on by one, wrapping or clamping, and the countdown restarts at `sustain`. */
  lemma UpdatedSteps(c: Counters, length: u32, sustain: u32, looped: bool)
    requires c.frame < length || (c.frame == 0 && c.countdown > 0)
    ensures c.countdown > 0 ==>
      Updated(c, length, sustain, looped) == Counters(c.frame, c.countdown - 1)
    ensures c.countdown == 0 && looped ==>
      Updated(c, length, sustain, looped).frame as int == (c.frame as int + 1) % length as int
    ensures c.countdown == 0 && !looped ==>
      Updated(c, length, sustain, looped).frame as int == Min(c.frame as int + 1, length as int - 1)
    ensures c.countdown == 0 ==> Updated(c, length, sustain, looped).countdown == sustain
  {
  }

  function Min(a: int, b: int): int { if a <= b then a else b }

  /** A non-looped animation never goes back, and once on its last frame it stays there. */
  lemma {:induction false} UnloopedSettles(c: Counters, length: u32, sustain: u32, n: nat)
    requires length > 0 && c.frame < length
    ensures UpdatedTimes(c, length, sustain, false, n).frame >= c.frame
    ensures c.frame == length - 1 ==> UpdatedTimes(c, length, sustain, false, n).frame == length - 1
    decreases n
  {
    if n > 0 {
      UpdatedInRange(c, length, sustain, false);
      UnloopedSettles(Updated(c, length, sustain, false), length, sustain, n - 1);
    }
  }

  /** Draining a countdown of `k` takes `k` updates and leaves the frame alone. */
  lemma {:induction false} CountdownDrains(c: Counters, length: u32, sustain: u32, looped: bool)
    requires length > 0 && c.frame < length
    ensures UpdatedTimes(c, length, sustain, looped, c.countdown as nat) == Counters(c.frame, 0)
    decreases c.countdown
  {
    if c.countdown > 0 {
      CountdownDrains(Counters(c.frame, c.countdown - 1), length, sustain, looped);
    }
  }

  /** Splitting a run of updates in two. */
  lemma {:induction false} UpdatedTimesAdd(c: Counters, length: u32, sustain: u32, looped: bool, m: nat, n: nat)
    requires length > 0 && c.frame < length
    ensures UpdatedTimes(c, length, sustain, looped, m).frame < length
    ensures UpdatedTimes(c, length, sustain, looped, m + n) ==
      UpdatedTimes(UpdatedTimes(c, length, sustain, looped, m), length, sustain, looped, n)
    decreases m
  {
    if m > 0 {
      UpdatedInRange(c, length, sustain, looped);
      UpdatedTimesAdd(Updated(c, length, sustain, looped), length, sustain, looped, m - 1, n);
    }
  }

  /** Each frame is shown for exactly `sustain + 1` updates: from an expired countdown, that many
      updates advance the frame once and expire the countdown again. */
  lemma Period(c: Counters, length: u32, sustain: u32, looped: bool)
    requires length > 0 && c.frame < length && c.countdown == 0
    ensures UpdatedTimes(c, length, sustain, looped, sustain as nat + 1) ==
      Counters(NextFrame(c.frame, length, looped), 0)
  {
    var next := Updated(c, length, sustain, looped);
    UpdatedTimesAdd(c, length, sustain, looped, 1, sustain as nat);
    assert UpdatedTimes(c, length, sustain, looped, 1) == next;
    CountdownDrains(next, length, sustain, looped);
  }

  /** A looped animation shows frame `k mod length` during its `k`-th period. */
  lemma {:induction false} LoopedCycle(length: u32, sustain: u32, k: nat)
    requires length > 0
    ensures UpdatedTimes(Counters(0, 0), length, sustain, true, k * (sustain as nat + 1)) ==
      Counters((k % length as int) as u32, 0)
  {
    if k > 0 {
      var p := sustain as nat + 1;
      assert k * p == (k - 1) * p + p;
      LoopedCycle(length, sustain, k - 1);
      var c := Counters(((k - 1) % length as int) as u32, 0);
      UpdatedTimesAdd(Counters(0, 0), length, sustain, true, (k - 1) * p, p);
      Period(c, length, sustain, true);
      ModSucc(k - 1, length as int);
    }
  }

  lemma ModSucc(a: nat, n: int)
    requires n > 0
    ensures (a % n + 1) % n == (a + 1) % n
  {
    var q, r := a / n, a % n;
    assert a == q * n + r;
    if r + 1 < n {
      ModUnique(a + 1, n, q, r + 1);
      ModUnique(r + 1, n, 0, r + 1);
    } else {
      assert a + 1 == (q + 1) * n;
      ModUnique(a + 1, n, q + 1, 0);
      ModUnique(r + 1, n, 1, 0);
    }
  }

  /** The remainder is the unique one. */
  lemma ModUnique(x: int, n: int, q: int, r: int)
    requires n > 0 && 0 <= r < n && x == q * n + r
    ensures x % n == r
  {
    var q', r' := x / n, x % n;
    var d := q - q';
    assert d * n == q * n - q' * n;
    if d >= 1 {
      AtLeastOnce(d, n);
    } else if d <= -1 {
      AtLeastOnce(-d, n);
    }
  }

  lemma {:induction false} AtLeastOnce(d: int, n: int)
    requires d >= 1 && n > 0
    ensures d * n >= n
  {
    if d > 1 {
      AtLeastOnce(d - 1, n);
      assert d * n == (d - 1) * n + n;
    }
  }

  /** An animation of one sprite-sheet row, and where it is in it. */
  class Animation {
    const spritesheet: Resource
    const id: u32
    const length: u32
    const sustain: u32
    const looped: bool
    var sustainCountdown: u32
    var currentFrame: u32

    /** The frame is on the sheet; an animation without frames stays on frame 0. */
    predicate Valid()
      reads this
    {
      currentFrame < length || currentFrame == 0
    }

    function Counts(): Counters
      reads this
    {
      Counters(currentFrame, sustainCountdown)
    }

    /** `Animation::new`, with the sprite sheet already requested: first frame, countdown 1. */
    constructor (spritesheet: Resource, id: u32, length: u32, sustain: u32, looped: bool)
      ensures Valid() && Counts() == Fresh
      ensures this.spritesheet == spritesheet && this.id == id && this.length == length
      ensures this.sustain == sustain && this.looped == looped
    {
      this.spritesheet := spritesheet;
      this.id := id;
      this.length := length;
      this.sustain := sustain;
      this.looped := looped;
      currentFrame := 0;
      sustainCountdown := 1;
    }

    /** Back to the first frame; the countdown is left as it is. */
    method Rewind()
      requires Valid()
      modifies this
      ensures Valid() && currentFrame == 0 && sustainCountdown == old(sustainCountdown)
    {
      currentFrame := 0;
    }

    /** One update of the counters. An expired countdown on an animation without frames is a
        division by zero or an underflow in the source, hence the precondition. */
    method Update()
      requires Valid() && (sustainCountdown == 0 ==> length > 0)
      modifies this
      ensures Valid() && Counts() == Updated(old(Counts()), length, sustain, looped)
    {
      if sustainCountdown == 0 {
        currentFrame := currentFrame + 1;
        if looped {
          currentFrame := currentFrame % length;
        } else if currentFrame >= length {
          currentFrame := length - 1;
        }
        sustainCountdown := sustain;
      } else {
        sustainCountdown := sustainCountdown - 1;
      }
    }
  }
}
