/**
  The discrete background colour bases and their HSV constants (src/lib.rs, `ColorBase` and
  `ColorBase::to_hsv`). HSV triples are modelled with exact reals: every constant the
  program uses is exactly representable, and `Hsv + Hsv` adds channel by channel with no
  wrap-around of the hue and no clamping of saturation or value.
*/
module Color {

  datatype Hsv = Hsv(hue: real, saturation: real, value: real)

  datatype ColorBase = Black | White | Red | Green | Blue

  /** Channel-wise addition, as `palette::Hsv` implements `+`. */
  function Add(a: Hsv, b: Hsv): (r: Hsv)
    ensures a == Origin ==> r == b
    ensures b == Origin ==> r == a
  {
    Hsv(a.hue + b.hue, a.saturation + b.saturation, a.value + b.value)
  }

  /** `n` copies of `h` added together. */
  function Scale(n: nat, h: Hsv): Hsv
  {
    Hsv(n as real * h.hue, n as real * h.saturation, n as real * h.value)
  }

  /** One more copy of `h` on top of `n` copies is `n + 1` copies. */
  lemma ScaleSucc(n: nat, h: Hsv)
    ensures Add(Scale(n, h), h) == Scale(n + 1, h)
  {
    var k := n as real;
    assert (n + 1) as real == k + 1.0;
    assert (k + 1.0) * h.hue == k * h.hue + h.hue;
    assert (k + 1.0) * h.saturation == k * h.saturation + h.saturation;
    assert (k + 1.0) * h.value == k * h.value + h.value;
  }

  const Origin: Hsv := Hsv(0.0, 0.0, 0.0)

  /** The canonical HSV value of each base. */
  function ToHsv(c: ColorBase): (h: Hsv)
    ensures 0.0 <= h.hue < 360.0
    ensures h.saturation == 1.0 <==> IsChromatic(c)
    ensures h.value == 0.0 <==> c == Black
  {
    match c
    case Black => Hsv(0.0, 0.0, 0.0)
    case White => Hsv(0.0, 0.0, 1.0)
    case Red => Hsv(0.0, 1.0, 1.0)
    case Green => Hsv(120.0, 1.0, 1.0)
    case Blue => Hsv(240.0, 1.0, 1.0)
  }

  /** True of the three fully saturated bases that the hue cycle visits. */
  predicate IsChromatic(c: ColorBase)
  {
    c == Red || c == Green || c == Blue
  }

  /** The successor map applied whenever the flash timer is zero. */
  function Next(c: ColorBase): (r: ColorBase)
    ensures r != c
    ensures IsChromatic(r) <==> IsChromatic(c)
  {
    match c
    case Red => Green
    case Green => Blue
    case Blue => Red
    case White => Black
    case Black => White
  }

  /** `k` applications of `Next`. */
  function NextN(c: ColorBase, k: nat): ColorBase
  {
    if k == 0 then c else Next(NextN(c, k - 1))
  }

  /** The length of the cycle `c` lies on. */
  function CycleLength(c: ColorBase): (n: nat)
    ensures n == 3 <==> IsChromatic(c)
    ensures n == 2 <==> !IsChromatic(c)
  {
    if IsChromatic(c) then 3 else 2
  }

  /** Every HSV constant lies in the nominal ranges, and distinct bases have distinct constants. */
  lemma ToHsvWellFormed(c: ColorBase, d: ColorBase)
    ensures 0.0 <= ToHsv(c).hue < 360.0
    ensures 0.0 <= ToHsv(c).saturation <= 1.0 && 0.0 <= ToHsv(c).value <= 1.0
    ensures ToHsv(c) == ToHsv(d) <==> c == d
  {
  }

  /** Each base returns to itself after exactly one full cycle, and not before. */
  lemma CycleReturns(c: ColorBase)
    ensures NextN(c, CycleLength(c)) == c
    ensures forall k :: 0 < k < CycleLength(c) ==> NextN(c, k) != c
  {
    assert NextN(c, 1) == Next(c);
    assert NextN(c, 2) == Next(Next(c));
  }

  /** Concrete orbits: Red to Green to Blue to Red, and White to Black to White. */
  lemma Orbits()
    ensures NextN(Red, 1) == Green && NextN(Red, 2) == Blue && NextN(Red, 3) == Red
    ensures NextN(White, 1) == Black && NextN(White, 2) == White
  {
    assert NextN(Red, 2) == Next(Next(Red));
    assert NextN(White, 2) == Next(Next(White));
  }

  /** No number of steps crosses between the chromatic cycle and the White/Black cycle. */
  lemma {:induction false} NextNStaysInCycle(c: ColorBase, k: nat)
    ensures IsChromatic(NextN(c, k)) <==> IsChromatic(c)
  {
    if k > 0 {
      NextNStaysInCycle(c, k - 1);
    }
  }

  /** Splitting an iteration: `a + b` steps are `b` steps after `a` steps. */
  lemma {:induction false} NextNAdd(c: ColorBase, a: nat, b: nat)
    ensures NextN(c, a + b) == NextN(NextN(c, a), b)
  {
    if b > 0 {
      NextNAdd(c, a, b - 1);
    }
  }

  /** Only the number of steps modulo the cycle length matters. */
  lemma {:induction false} NextNPeriodic(c: ColorBase, k: nat)
    ensures NextN(c, k) == NextN(c, k % CycleLength(c))
    decreases k
  {
    var n := CycleLength(c);
    if k >= n {
      NextNAdd(c, n, k - n);
      CycleReturns(c);
      NextNPeriodic(c, k - n);
      assert (k - n) % n == k % n;
    }
  }
}
