/**
  The per-frame animation state machine of src/lib.rs: `State`, `State::new`, the
  configuration applied in `rlib_run`, and `update`.

  Machine integers are modelled as bounded subsets of `int`; the one place the program
  relies on wrap-around, the `wrapping_add` on the frame counter, is written out.
*/
module Animation {
  import opened Color
  import opened FlashTiming

  const U32_LIMIT: int := 0x1_0000_0000
  const U64_LIMIT: int := 0x1_0000_0000_0000_0000

  type u32 = x: int | 0 <= x < U32_LIMIT
  type u64 = x: int | 0 <= x < U64_LIMIT

  const DEFAULT_FPS: u32 := 60
  const DEFAULT_FLASH_INTERVAL: u32 := 7
  const DEFAULT_FLASH_DURATION: u32 := 1
  /** Seconds between two diagnostic reports in `update`. */
  const PRINT_SECONDS: u32 := 60

  datatype State = State(
    done: bool,
    fps: u32,
    frame: u64,
    base: ColorBase,
    hsvDelta: Hsv,
    hsvOffset: Hsv,
    backgroundColor: Hsv,
    flashInterval: u32,   // seconds
    flashDuration: u32    // frames
  )

  /** `State::new`: the defaults, with the hue step derived from the default frame rate. */
  function New(): (s: State)
    ensures !s.done && s.frame == 0 && s.base == Red && s.hsvOffset == Origin
    ensures s.backgroundColor == ToHsv(s.base)
    ensures s.hsvDelta == Hsv(1.0, 0.0, 0.0)
  {
    State(
      done := false,
      fps := DEFAULT_FPS,
      frame := 0,
      base := Red,
      hsvDelta := Hsv(60.0 / DEFAULT_FPS as real, 0.0, 0.0),
      hsvOffset := Origin,
      backgroundColor := ToHsv(Red),
      flashInterval := DEFAULT_FLASH_INTERVAL,
      flashDuration := DEFAULT_FLASH_DURATION)
  }

  /**
    `rlib_run` builds `State::new()` and only then overwrites the three timing fields with
    the parsed arguments, so `hsvDelta` keeps the value computed from the default rate.
  */
  function Configure(fps: u32, flashInterval: u32, flashDuration: u32): (s: State)
    ensures s.fps == fps && s.flashInterval == flashInterval && s.flashDuration == flashDuration
    ensures s.hsvDelta == Hsv(1.0, 0.0, 0.0)
    ensures !s.done && s.frame == 0 && s.base == Red && s.hsvOffset == Origin
  {
    New().(fps := fps, flashInterval := flashInterval, flashDuration := flashDuration)
  }

  /**
    What `update` needs of the timing fields: the u32 products `flash_interval * fps` and
    `60 * fps` must not overflow, and the first, used as a divisor, must not be zero.
  */
  predicate ValidTiming(s: State)
  {
    0 < s.flashInterval * s.fps < U32_LIMIT && PRINT_SECONDS * s.fps < U32_LIMIT
  }

  /** The flash period in frames. */
  function FlashPeriod(s: State): (p: u32)
    requires ValidTiming(s)
    ensures p > 0
  {
    s.flashInterval * s.fps
  }

  /** Position of the current frame within the flash period. */
  function FlashTimer(s: State): (t: nat)
    requires ValidTiming(s)
    ensures t < FlashPeriod(s)
  {
    s.frame % FlashPeriod(s)
  }

  /** Whether this frame shows the flash colour. */
  function IsFlashing(s: State): (flash: bool)
    requires ValidTiming(s)
    ensures s.flashDuration == 0 ==> !flash
    ensures s.flashDuration >= FlashPeriod(s) ==> flash
    ensures FlashTimer(s) == 0 ==> (flash <==> s.flashDuration > 0)
  {
    FlashTimer(s) < s.flashDuration
  }

  /** Everything `update` never writes. */
  predicate SameSettings(s: State, t: State)
  {
    t.done == s.done && t.fps == s.fps && t.hsvDelta == s.hsvDelta
    && t.flashInterval == s.flashInterval && t.flashDuration == s.flashDuration
  }

  /** `u64::wrapping_add(1)`. */
  function WrappingInc(f: u64): (r: u64)
    ensures r == (f + 1) % U64_LIMIT
  {
    if f + 1 == U64_LIMIT then
      ModUnique(U64_LIMIT, U64_LIMIT, 1, 0);
      0
    else
      ModSmall(f + 1, U64_LIMIT);
      f + 1
  }

  /** One call of `update`. */
  function Update(s: State): (r: State)
    requires ValidTiming(s)
    ensures SameSettings(s, r) && ValidTiming(r)
    ensures r.base != s.base <==> s.frame % (s.flashInterval * s.fps) == 0
    ensures IsChromatic(r.base) <==> IsChromatic(s.base)
    ensures r.hsvOffset == Add(s.hsvOffset, s.hsvDelta)
    ensures IsFlashing(s) ==> r.backgroundColor == ToHsv(White)
    ensures !IsFlashing(s) ==> r.backgroundColor == Add(ToHsv(r.base), r.hsvOffset)
    ensures s.frame + 1 < U64_LIMIT ==> r.frame == s.frame + 1
    ensures s.frame + 1 == U64_LIMIT ==> r.frame == 0
  {
    var timer := FlashTimer(s);
    var flash := timer < s.flashDuration;
    var base := if timer == 0 then Next(s.base) else s.base;
    var offset := Add(s.hsvOffset, s.hsvDelta);
    s.(base := base,
       hsvOffset := offset,
       backgroundColor := if flash then ToHsv(White) else Add(ToHsv(base), offset),
       frame := WrappingInc(s.frame))
  }

  /** `n` consecutive calls of `update`. */
  function Steps(s: State, n: nat): (r: State)
    requires ValidTiming(s)
    ensures SameSettings(s, r) && ValidTiming(r)
  {
    if n == 0 then s else Update(Steps(s, n - 1))
  }

  /** Over `n` updates the frame counter advances by `n` modulo 2^64. */
  lemma {:induction false} StepsFrame(s: State, n: nat)
    requires ValidTiming(s)
    ensures Steps(s, n).frame == (s.frame + n) % U64_LIMIT
  {
    if n > 0 {
      var t := Steps(s, n - 1);
      var a := s.frame + n - 1;
      StepsFrame(s, n - 1);
      assert t.frame == a % U64_LIMIT;
      assert Steps(s, n).frame == (t.frame + 1) % U64_LIMIT;
      ModIncrement(a, U64_LIMIT);
      assert a + 1 == s.frame + n;
    } else {
      ModSmall(s.frame, U64_LIMIT);
    }
  }

  /** Over `n` updates the hue offset receives exactly `n` hue steps, flash frames included. */
  lemma {:induction false} StepsOffset(s: State, n: nat)
    requires ValidTiming(s)
    ensures Steps(s, n).hsvOffset == Add(s.hsvOffset, Scale(n, s.hsvDelta))
  {
    if n > 0 {
      var t := Steps(s, n - 1);
      StepsOffset(s, n - 1);
      assert t.hsvDelta == s.hsvDelta;
      calc {
        Steps(s, n).hsvOffset;
        Update(t).hsvOffset;
        Add(Add(s.hsvOffset, Scale(n - 1, s.hsvDelta)), s.hsvDelta);
        Add(s.hsvOffset, Add(Scale(n - 1, s.hsvDelta), s.hsvDelta));
        { ScaleSucc(n - 1, s.hsvDelta); }
        Add(s.hsvOffset, Scale(n, s.hsvDelta));
      }
    }
  }

  /** Before the counter wraps, `n` updates simply add `n` to it. */
  lemma StepsFrameNoWrap(s: State, n: nat)
    requires ValidTiming(s) && s.frame + n < U64_LIMIT
    ensures Steps(s, n).frame == s.frame + n
  {
    StepsFrame(s, n);
    ModSmall(s.frame + n, U64_LIMIT);
  }

  /** The base written by one update, in terms of the flash timer alone. */
  lemma UpdateBase(s: State)
    requires ValidTiming(s)
    ensures Update(s).base == if FlashTimer(s) == 0 then Next(s.base) else s.base
  {
  }

  /**
    As long as the counter does not wrap, the base after `n` updates is the starting base
    advanced once for every visited frame whose flash timer is zero.
  */
  lemma {:induction false} StepsBase(s: State, n: nat)
    requires ValidTiming(s)
    requires s.frame + n <= U64_LIMIT
    ensures Steps(s, n).base == NextN(s.base, Triggers(s.frame, n, FlashPeriod(s)))
  {
    if n > 0 {
      var p := FlashPeriod(s);
      var t := Steps(s, n - 1);
      var k := Triggers(s.frame, n - 1, p);
      StepsBase(s, n - 1);
      StepsFrameNoWrap(s, n - 1);
      UpdateBase(t);
      assert FlashPeriod(t) == p;
      if FlashTimer(t) == 0 {
        assert Triggers(s.frame, n, p) == k + 1;
        assert Steps(s, n).base == Next(NextN(s.base, k));
      } else {
        assert Triggers(s.frame, n, p) == k;
      }
    }
  }

  /** The defaults satisfy what `update` needs, and `State::new` is the default configuration. */
  lemma NewIsValid()
    ensures ValidTiming(New()) && FlashPeriod(New()) == 420
    ensures New() == Configure(DEFAULT_FPS, DEFAULT_FLASH_INTERVAL, DEFAULT_FLASH_DURATION)
    ensures New().backgroundColor == ToHsv(New().base)
  {
  }

  /** `update` neither reads nor writes `done`. */
  lemma UpdateIgnoresDone(s: State, d: bool)
    requires ValidTiming(s)
    ensures Update(s.(done := d)) == Update(s).(done := d)
  {
  }

  /** On a flash frame the colour is White's whatever the base is. */
  lemma FlashIgnoresBase(s: State, c: ColorBase)
    requires ValidTiming(s) && IsFlashing(s)
    ensures Update(s).backgroundColor == Update(s.(base := c)).backgroundColor == ToHsv(White)
  {
  }

  /** With a zero flash duration no update ever shows the flash colour override. */
  lemma NoFlashWithoutDuration(s: State, n: nat)
    requires ValidTiming(s) && s.flashDuration == 0
    ensures !IsFlashing(Steps(s, n))
    ensures Steps(s, n + 1).backgroundColor == Add(ToHsv(Steps(s, n + 1).base), Steps(s, n + 1).hsvOffset)
  {
  }

  /** From a frame where the timer is zero, every update of the next period leaves the base one step on. */
  lemma BaseWithinPeriod(s: State, i: nat)
    requires ValidTiming(s) && FlashTimer(s) == 0
    requires 0 < i <= FlashPeriod(s) && s.frame + i <= U64_LIMIT
    ensures Steps(s, i).base == Next(s.base)
  {
    StepsBase(s, i);
    TriggersWithinPeriod(s.frame, i, FlashPeriod(s));
    assert NextN(s.base, 1) == Next(s.base);
  }

  /** From a frame where the timer is zero, one whole period of updates brings the timer back to zero. */
  lemma TimerAfterPeriod(s: State)
    requires ValidTiming(s) && FlashTimer(s) == 0
    requires s.frame + FlashPeriod(s) <= U64_LIMIT
    ensures FlashTimer(Steps(s, FlashPeriod(s))) == 0
  {
    var p := FlashPeriod(s);
    var r := Steps(s, p);
    assert FlashPeriod(r) == p;
    StepsFrame(s, p);
    if s.frame + p < U64_LIMIT {
      ModSmall(s.frame + p, U64_LIMIT);
      AlignedShift(s.frame, 1, p);
      assert r.frame % p == 0;
    } else {
      ModUnique(U64_LIMIT, U64_LIMIT, 1, 0);
      assert r.frame == 0;
      ModSmall(0, p);
    }
    assert FlashTimer(r) == r.frame % p;
  }

  /**
    From a frame where the timer is zero, one whole flash period of updates advances the
    base exactly once, on the first of them, and brings the timer back to zero.
  */
  lemma FullPeriod(s: State)
    requires ValidTiming(s) && FlashTimer(s) == 0
    requires s.frame + FlashPeriod(s) <= U64_LIMIT
    ensures forall i :: 0 < i <= FlashPeriod(s) ==> Steps(s, i).base == Next(s.base)
    ensures FlashTimer(Steps(s, FlashPeriod(s))) == 0
  {
    forall i | 0 < i <= FlashPeriod(s)
      ensures Steps(s, i).base == Next(s.base)
    {
      BaseWithinPeriod(s, i);
    }
    TimerAfterPeriod(s);
  }

  /**
    Closed form of the whole animation from the startup configuration: the update made on
    frame `n` leaves the base `n / period + 1` steps past Red, the hue offset at `n + 1`
    degrees, and shows White exactly when `n % period` is below the flash duration.
  */
  lemma ConfiguredColorAt(fps: u32, flashInterval: u32, flashDuration: u32, n: nat)
    requires ValidTiming(Configure(fps, flashInterval, flashDuration))
    requires n < U64_LIMIT
    ensures
      var s := Configure(fps, flashInterval, flashDuration);
      var p := flashInterval * fps;
      var r := Steps(s, n + 1);
      && r.frame == (n + 1) % U64_LIMIT
      && r.base == NextN(Red, n / p + 1) && IsChromatic(r.base)
      && r.hsvOffset == Hsv((n + 1) as real, 0.0, 0.0)
      && r.backgroundColor
         == if n % p < flashDuration then ToHsv(White) else Add(ToHsv(r.base), r.hsvOffset)
  {
    var s := Configure(fps, flashInterval, flashDuration);
    var p := FlashPeriod(s);
    var t := Steps(s, n);
    var r := Steps(s, n + 1);
    assert r == Update(t);
    StepsBase(s, n + 1);
    TriggersFromAligned(0, n + 1, p);
    assert r.base == NextN(Red, n / p + 1);
    NextNStaysInCycle(Red, n / p + 1);
    StepsOffset(s, n + 1);
    assert r.hsvOffset == Hsv((n + 1) as real, 0.0, 0.0);
    StepsFrame(s, n + 1);
    StepsFrame(s, n);
    ModSmall(n, U64_LIMIT);
    assert t.frame == n;
    assert FlashTimer(t) == n % p;
  }

  lemma GreenDrift()
    ensures Add(ToHsv(Green), Hsv(2.0, 0.0, 0.0)) == Hsv(122.0, 1.0, 1.0)
  {
  }

  /** The first frame after startup flashes White and has already moved the base to Green. */
  lemma StartupFirstFrame()
    ensures Steps(New(), 1).base == Green && Steps(New(), 1).backgroundColor == ToHsv(White)
  {
    var s := New();
    NewIsValid();
    assert Steps(s, 1) == Update(s);
    DivSmall(0, 420);
    assert FlashTimer(s) == 0;
  }

  /** The second frame after startup shows Green drifted by two degrees. */
  lemma StartupSecondFrame()
    ensures Steps(New(), 2).base == Green && Steps(New(), 2).backgroundColor == Hsv(122.0, 1.0, 1.0)
  {
    NewIsValid();
    Orbits();
    ConfiguredColorAt(DEFAULT_FPS, DEFAULT_FLASH_INTERVAL, DEFAULT_FLASH_DURATION, 1);
    DivSmall(1, 420);
    GreenDrift();
  }

  /**
    The hue drift over one second of frames is `fps` hue steps; since the step stays at the
    value derived from the default rate, that is `fps` degrees, which is 60 only at 60 fps.
  */
  lemma DriftPerSecond(fps: u32, flashInterval: u32, flashDuration: u32)
    requires ValidTiming(Configure(fps, flashInterval, flashDuration))
    ensures Steps(Configure(fps, flashInterval, flashDuration), fps).hsvOffset == Hsv(fps as real, 0.0, 0.0)
  {
    StepsOffset(Configure(fps, flashInterval, flashDuration), fps);
  }
}
