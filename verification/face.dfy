/**
 The face markings of `renderClockNumbers` (app.js lines 53-107), as three
 sequences of placement records instead of HTML strings.

 Every mark is placed by `transformAt(deg, r)`: rotated by `deg` about the
 centre and pushed `r` pixels outwards. Numerals also get `rotate(-deg)`
 appended to that transform (line 83) and, again, `rotate(-deg)` on the span
 holding the glyph (line 84); dots and ticks get neither.
 */
module FaceLayout {
  import opened ClockTime
  import opened Hands

  datatype MarkKind = Numeral(number: nat) | Dot | Tick(major: bool)

  /**
   One mark: its angle (degrees clockwise from 12 o'clock), its ring radius,
   the extra rotation appended to its transform, and the rotation of its
   inner content (0 where the source writes none).
   */
  datatype Placement = Placement(kind: MarkKind, angle: int, radius: real, outerTurn: int, contentTurn: int)

  /** The three CSS padding values, already parsed. */
  datatype Paddings = Paddings(number: real, dot: real, tick: real)

  datatype Face = Face(numerals: seq<Placement>, dots: seq<Placement>, ticks: seq<Placement>)

  /** The ring a kind of mark sits on: half the face's width, less that kind's padding. */
  function RingRadius(clientWidth: int, padding: real): real {
    clientWidth as real / 2.0 - padding
  }

  function NumeralAt(i: nat, r: real): Placement {
    var deg := i * 30;
    Placement(Numeral(if i == 0 then 12 else i), deg, r, -deg, -deg)
  }

  function DotAt(i: int, r: real): Placement {
    Placement(Dot, i * 30, r, 0, 0)
  }

  function TickAt(i: int, r: real): Placement {
    Placement(Tick(i % 5 == 0), i * 6, r, 0, 0)
  }

  function Numerals(r: real): seq<Placement> {
    seq(12, (i: nat) => NumeralAt(i, r))
  }

  function Dots(r: real): seq<Placement> {
    seq(12, i => DotAt(i, r))
  }

  function Ticks(r: real): seq<Placement> {
    seq(60, i => TickAt(i, r))
  }

  /**
   `renderClockNumbers`: 12 numerals, 12 dots and 60 ticks, each on the ring
   of its kind, each kind with its own mark type.
   */
  function RenderClockNumbers(clientWidth: int, pads: Paddings): (f: Face)
    ensures |f.numerals| == 12 && |f.dots| == 12 && |f.ticks| == 60
    ensures forall p :: p in f.numerals ==> p.radius == clientWidth as real / 2.0 - pads.number && p.kind.Numeral?
    ensures forall p :: p in f.dots ==> p.radius == clientWidth as real / 2.0 - pads.dot && p.kind.Dot?
    ensures forall p :: p in f.ticks ==> p.radius == clientWidth as real / 2.0 - pads.tick && p.kind.Tick?
  {
    Face(Numerals(RingRadius(clientWidth, pads.number)),
         Dots(RingRadius(clientWidth, pads.dot)),
         Ticks(RingRadius(clientWidth, pads.tick)))
  }

  /**
   Numeral `i` is at `30 * i` degrees and reads 12 at the top and `i`
   elsewhere; it carries the counter-rotation `-30 * i` twice, on its box
   and on its glyph. Dots sit at the same angles with no counter-rotation.
   */
  lemma NumeralsAndDots(r: real)
    ensures forall i :: 0 <= i < 12 ==>
      && Numerals(r)[i].angle == 30 * i && Dots(r)[i].angle == 30 * i
      && Numerals(r)[i].kind.number == (if i == 0 then 12 else i)
      && Numerals(r)[i].outerTurn == -30 * i && Numerals(r)[i].contentTurn == -30 * i
      && Dots(r)[i].outerTurn == 0 && Dots(r)[i].contentTurn == 0
  {
  }

  /** The twelve labels are 1 to 12, each exactly once, label `n` at index `n % 12`. */
  lemma NumeralLabelsArePermutation(r: real)
    ensures forall n :: 1 <= n <= 12 ==> Numerals(r)[n % 12].kind.number == n
    ensures forall i, j :: 0 <= i < j < 12 ==> Numerals(r)[i].kind.number != Numerals(r)[j].kind.number
    ensures forall i :: 0 <= i < 12 ==> 1 <= Numerals(r)[i].kind.number <= 12
  {
    forall n | 1 <= n <= 12
      ensures Numerals(r)[n % 12].kind.number == n
    {
      if n == 12 {
        assert n % 12 == 0;
      } else {
        DivMod(n, 12, 0, n);
      }
    }
  }

  /**
   The numeral labelled `n` sits exactly where the hour hand points at
   `n` o'clock sharp.
   */
  lemma NumeralUnderHourHand(r: real, i: int)
    requires 0 <= i < 12
    ensures var p := Numerals(r)[i];
      10 * p.angle == HandsAt(TimeOfDay(p.kind.number, 0, 0)).hour
  {
    var p := Numerals(r)[i];
    assert p == NumeralAt(i, r);
    if i == 0 {
      DivMod(12, 12, 1, 0);
      assert HandsAt(TimeOfDay(12, 0, 0)).hour == 0;
    } else {
      DivMod(i, 12, 0, i);
      assert HandsAt(TimeOfDay(i, 0, 0)).hour == 300 * i;
    }
  }

  /**
   The net rotations of a numeral as written: its box ends up upright
   (placement plus the appended `rotate(-deg)`), and its glyph, turned once
   more by the span's `rotate(-deg)`, ends up at minus its placement angle.
   */
  lemma NumeralNetRotation(r: real, i: int)
    requires 0 <= i < 12
    ensures Numerals(r)[i].angle + Numerals(r)[i].outerTurn == 0
    ensures Numerals(r)[i].angle + Numerals(r)[i].outerTurn + Numerals(r)[i].contentTurn
         == -Numerals(r)[i].angle
  {
  }

  /** Tick `i` sits where the second hand points at second `i`. */
  lemma TicksFollowSecondHand(r: real)
    ensures forall i :: 0 <= i < 60 ==>
      10 * Ticks(r)[i].angle == HandsAt(TimeOfDay(0, 0, i)).second
  {
    forall i | 0 <= i < 60
      ensures 10 * Ticks(r)[i].angle == HandsAt(TimeOfDay(0, 0, i)).second
    {
      assert Ticks(r)[i] == TickAt(i, r);
    }
  }

  /**
   The ticks run clockwise from 12 o'clock in steps of 6 degrees within one
   turn, and tick `i` is major exactly when `i` is a multiple of 5.
   */
  lemma TickSpacing(r: real)
    ensures forall i :: 0 <= i < 60 ==> Ticks(r)[i].angle == 6 * i && 0 <= Ticks(r)[i].angle < 360
    ensures forall i :: 0 < i < 60 ==> Ticks(r)[i].angle == Ticks(r)[i - 1].angle + 6
    ensures forall i :: 0 <= i < 60 ==> (Ticks(r)[i].kind.major <==> i % 5 == 0)
  {
  }

  /** The ticks of one kind (major or minor), in order. */
  function TicksOfKind(s: seq<Placement>, major: bool): (k: seq<Placement>)
    ensures |k| <= |s|
    ensures forall p :: p in k ==> p in s && p.kind == Tick(major)
  {
    if |s| == 0 then []
    else
      var last := s[|s| - 1];
      TicksOfKind(s[..|s| - 1], major) + (if last.kind == Tick(major) then [last] else [])
  }

  /** Every 5th tick, from tick 0: the first `count` of them. */
  function EveryFifthTick(r: real, count: nat): seq<Placement> {
    seq(count, j => TickAt(5 * j, r))
  }

  lemma {:induction false} MajorTicksOfPrefix(r: real, n: nat)
    requires n <= 60
    ensures TicksOfKind(Ticks(r)[..n], true) == EveryFifthTick(r, (n + 4) / 5)
  {
    if n == 0 {
      assert Ticks(r)[..0] == [];
      DivMod(4, 5, 0, 4);
    } else {
      MajorTicksOfPrefix(r, n - 1);
      var p := Ticks(r)[..n];
      assert p[..n - 1] == Ticks(r)[..n - 1];
      assert p[n - 1] == TickAt(n - 1, r);
      var k := (n + 3) / 5;
      FifthCount(n);
      if (n - 1) % 5 == 0 {
        assert TicksOfKind(p, true) == TicksOfKind(p[..n - 1], true) + [p[n - 1]];
        assert EveryFifthTick(r, k + 1) == EveryFifthTick(r, k) + [TickAt(5 * k, r)];
      } else {
        assert TicksOfKind(p, true) == TicksOfKind(p[..n - 1], true);
      }
    }
  }

  /** Counting multiples of 5 below `n`: one more than below `n - 1` exactly when `n - 1` is one. */
  lemma FifthCount(n: nat)
    requires n >= 1
    ensures (n - 1) % 5 == 0 ==> (n + 4) / 5 == (n + 3) / 5 + 1 && 5 * ((n + 3) / 5) == n - 1
    ensures (n - 1) % 5 != 0 ==> (n + 4) / 5 == (n + 3) / 5
  {
    var q, m := (n - 1) / 5, (n - 1) % 5;
    DivMod(n - 1, 5, q, m);
    if m == 0 {
      DivMod(n + 3, 5, q, 4);
      DivMod(n + 4, 5, q + 1, 0);
    } else {
      DivMod(n + 3, 5, q + 1, m - 1);
      DivMod(n + 4, 5, q + 1, m);
    }
  }

  /** A sequence of ticks splits into its majors and its minors. */
  lemma {:induction false} TicksOfKindSplit(s: seq<Placement>)
    requires forall p :: p in s ==> p.kind.Tick?
    ensures |TicksOfKind(s, true)| + |TicksOfKind(s, false)| == |s|
  {
    if |s| > 0 {
      assert forall p :: p in s[..|s| - 1] ==> p in s;
      TicksOfKindSplit(s[..|s| - 1]);
    }
  }

  /**
   The major ticks are exactly ticks 0, 5, ..., 55, in that order: twelve of
   them, each under a dot, leaving 48 minor ticks.
   */
  lemma MajorTicks(r: real)
    ensures TicksOfKind(Ticks(r), true) == seq(12, j requires 0 <= j < 12 => Ticks(r)[5 * j])
    ensures |TicksOfKind(Ticks(r), true)| == 12 && |TicksOfKind(Ticks(r), false)| == 48
    ensures forall j :: 0 <= j < 12 ==> TicksOfKind(Ticks(r), true)[j].angle == Dots(r)[j].angle
  {
    MajorTicksOfPrefix(r, 60);
    assert Ticks(r)[..60] == Ticks(r);
    TicksOfKindSplit(Ticks(r));
  }

  /** The sample face of width 200 with a numeral padding of 20. */
  lemma FaceExample(pads: Paddings)
    requires pads.number == 20.0
    ensures var f := RenderClockNumbers(200, pads);
      && f.numerals[0].radius == 80.0
      && f.numerals[0].kind.number == 12 && f.numerals[0].angle == 0
      && f.numerals[6].kind.number == 6 && f.numerals[6].angle == 180
  {
  }
}
