/** The editor's font size (app.js:33-34, 44-69): an integer clamped into
    [MIN_FONT, MAX_FONT] once on load and then moved one point at a time by
    the up and down buttons, which do nothing at the bound. */
module FontSize {
  const MIN_FONT: int := 10
  const MAX_FONT: int := 32

  /** `Math.min(Math.max(x, MIN_FONT), MAX_FONT)`. */
  function Clamp(x: int): (r: int)
    ensures MIN_FONT <= r <= MAX_FONT
    ensures MIN_FONT <= x <= MAX_FONT ==> r == x
    ensures x < MIN_FONT ==> r == MIN_FONT
    ensures x > MAX_FONT ==> r == MAX_FONT
  {
    var low := if x > MIN_FONT then x else MIN_FONT;
    if low < MAX_FONT then low else MAX_FONT
  }

  /** Clamping a size already in range changes nothing. */
  lemma ClampIdempotent(x: int)
    ensures Clamp(Clamp(x)) == Clamp(x)
  {
  }

  datatype Click = Up | Down

  /** One button press: up adds a point only below `MAX_FONT`, down removes
      one only above `MIN_FONT`. */
  function Step(size: int, click: Click): int
  {
    match click
    case Up => if size < MAX_FONT then size + 1 else size
    case Down => if size > MIN_FONT then size - 1 else size
  }

  /** The size after a sequence of presses, first press first. */
  function AfterClicks(size: int, clicks: seq<Click>): int
    decreases |clicks|
  {
    if clicks == [] then size else AfterClicks(Step(size, clicks[0]), clicks[1..])
  }

  /** One press keeps an in-range size in range, moves it by at most one, and
      is a no-op exactly at the bound it pushes against. */
  lemma StepInRange(size: int, click: Click)
    requires MIN_FONT <= size <= MAX_FONT
    ensures MIN_FONT <= Step(size, click) <= MAX_FONT
    ensures -1 <= Step(size, click) - size <= 1
    ensures click == Up ==> (Step(size, click) == size <==> size == MAX_FONT)
    ensures click == Down ==> (Step(size, click) == size <==> size == MIN_FONT)
  {
  }

  /** Any sequence of presses keeps the size in range. */
  lemma {:induction false} AfterClicksInRange(size: int, clicks: seq<Click>)
    requires MIN_FONT <= size <= MAX_FONT
    ensures MIN_FONT <= AfterClicks(size, clicks) <= MAX_FONT
    decreases |clicks|
  {
    if clicks != [] {
      StepInRange(size, clicks[0]);
      AfterClicksInRange(Step(size, clicks[0]), clicks[1..]);
    }
  }

  /** `n` presses of up saturate at `MAX_FONT`. */
  lemma {:induction false} UpsSaturate(size: int, n: nat)
    requires MIN_FONT <= size <= MAX_FONT
    ensures AfterClicks(size, seq(n, _ => Up)) == if size + n < MAX_FONT then size + n else MAX_FONT
    decreases n
  {
    if n > 0 {
      assert seq(n, _ => Up)[1..] == seq(n - 1, _ => Up);
      UpsSaturate(Step(size, Up), n - 1);
    }
  }

  /** Up then down returns to the start everywhere except at `MAX_FONT`. */
  lemma UpThenDown(size: int)
    requires MIN_FONT <= size < MAX_FONT
    ensures AfterClicks(size, [Up, Down]) == size
  {
    assert [Up, Down][1..] == [Down];
  }

  /** The page's `fontSize` variable. */
  class FontSizeState {
    var size: int

    ghost predicate Valid()
      reads this
    {
      MIN_FONT <= size <= MAX_FONT
    }

    /** Load: the size read from storage, or else from the computed style
        (parsed by the caller), clamped into range. */
    constructor(initial: int)
      ensures size == Clamp(initial)
      ensures Valid()
    {
      size := Clamp(initial);
    }

    /** `fontUpBtn.onclick`. */
    method Up()
      modifies this
      ensures size == Step(old(size), Click.Up)
      ensures old(Valid()) ==> Valid()
    {
      if size < MAX_FONT {
        size := size + 1;
      }
    }

    /** `fontDownBtn.onclick`. */
    method Down()
      modifies this
      ensures size == Step(old(size), Click.Down)
      ensures old(Valid()) ==> Valid()
    {
      if size > MIN_FONT {
        size := size - 1;
      }
    }
  }
}
