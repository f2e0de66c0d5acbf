/** The clock face: which hour ticks are drawn bright and what number each
    position shows (the tick loop of `drawClock`). */
module Face {
  import opened DecimalTime

  function Max(a: int, b: int): int {
    if a >= b then a else b
  }

  /** Distance between bright ticks: a fifth of the hours, at least 1. */
  function MajorStep(sys: TimeSystem): (step: nat)
    ensures step >= 1
  {
    Max(1, sys.hours / 5)
  }

  predicate IsMajorTick(sys: TimeSystem, i: nat) {
    i % MajorStep(sys) == 0
  }

  /** The number drawn at position `i`: the zero position shows `hours`. */
  function TickLabel(sys: TimeSystem, i: nat): nat {
    if i == 0 then sys.hours else i
  }

  /** For the 10-hour face the bright ticks are exactly the even positions. */
  lemma DecimalMajorTicksAreEven(i: nat)
    requires i < Decimal.hours
    ensures IsMajorTick(Decimal, i) <==> i % 2 == 0
  {
  }

  /** The positions whose tick is drawn bright, in drawing order. */
  method MajorTicks(sys: TimeSystem) returns (ticks: seq<nat>)
    ensures forall i: nat :: i in ticks <==> i < sys.hours && IsMajorTick(sys, i)
    ensures forall j, k | 0 <= j < k < |ticks| :: ticks[j] < ticks[k]
  {
    ticks := [];
    var i := 0;
    while i < sys.hours
      invariant i <= sys.hours
      invariant forall t: nat :: t in ticks <==> t < i && IsMajorTick(sys, t)
      invariant forall j, k | 0 <= j < k < |ticks| :: ticks[j] < ticks[k]
      invariant forall j | 0 <= j < |ticks| :: ticks[j] < i
    {
      if IsMajorTick(sys, i) {
        ticks := ticks + [i];
      }
      i := i + 1;
    }
  }

  /** The numbers around the face, in drawing order: each of 1..hours shows
      exactly once: the top position shows `hours`
      and every other position shows its own index. */
  method FaceLabels(sys: TimeSystem) returns (labels: seq<nat>)
    requires sys.hours > 0
    ensures |labels| == sys.hours && labels[0] == sys.hours
    ensures forall j | 0 < j < |labels| :: labels[j] == j
    ensures forall j | 0 <= j < |labels| :: 1 <= labels[j] <= sys.hours
    ensures forall n :: 1 <= n <= sys.hours ==> n in labels
    ensures forall j, k | 0 <= j < k < |labels| :: labels[j] != labels[k]
  {
    labels := [];
    var i := 0;
    while i < sys.hours
      invariant i <= sys.hours && |labels| == i
      invariant i > 0 ==> labels[0] == sys.hours
      invariant forall j | 1 <= j < i :: labels[j] == j
    {
      labels := labels + [TickLabel(sys, i)];
      i := i + 1;
    }
    forall n | 1 <= n <= sys.hours
      ensures n in labels
    {
      var at := if n == sys.hours then 0 else n;
      assert labels[at] == n;
    }
  }
}
