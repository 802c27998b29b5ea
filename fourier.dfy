/**
 * The gate cascades that Circuit.qft and Circuit.iqft hand to the simulator,
 * as sequences of gate descriptors. A rotation is described by the exponent
 * e and the sign of its angle sign * 2*pi / 2^e, never by its matrix.
 */
module Fourier {

  /** A qubit index as it appears in a wire list. */
  type Wire = int

  datatype Gate =
    | Hadamard(wire: Wire, controls: seq<Wire>, values: seq<int>)
    | Rotation(target: Wire, exponent: nat, sign: int, controls: seq<Wire>, values: seq<int>)
    | Swap(first: Wire, second: Wire, controls: seq<Wire>, values: seq<int>)

  datatype Kind = HadamardKind | RotationKind | SwapKind

  function KindOf(g: Gate): Kind
  {
    match g
    case Hadamard(_, _, _) => HadamardKind
    case Rotation(_, _, _, _, _) => RotationKind
    case Swap(_, _, _, _) => SwapKind
  }

  /** The number of gates of the given kind. */
  function Count(gs: seq<Gate>, kind: Kind): nat
  {
    if gs == [] then 0 else (if KindOf(gs[0]) == kind then 1 else 0) + Count(gs[1..], kind)
  }

  // ---------------------------------------------------------------------------
  // Forward transform

  /**
   * The rotations that follow the Hadamard on wires[j], for k = k0 .. |wires|-1:
   * angle 2*pi / 2^(1+k-j) onto target, controlled by the external controls
   * and by wires[j] and wires[k] both being 1.
   */
  function Rotations(wires: seq<Wire>, target: Wire, controls: seq<Wire>, values: seq<int>, j: nat, k0: nat): seq<Gate>
    requires j < k0 <= |wires|
    decreases |wires| - k0
  {
    if k0 == |wires| then []
    else [Rotation(target, 1 + k0 - j, 1, controls + [wires[j], wires[k0]], values + [1, 1])]
         + Rotations(wires, target, controls, values, j, k0 + 1)
  }

  /** The Hadamard-and-rotation stage of qft for j = j0 .. |wires|-1. */
  function QftStage(wires: seq<Wire>, target: Wire, controls: seq<Wire>, values: seq<int>, j0: nat): seq<Gate>
    requires j0 <= |wires|
    decreases |wires| - j0
  {
    if j0 == |wires| then []
    else [Hadamard(wires[j0], controls, values)]
         + Rotations(wires, target, controls, values, j0, j0 + 1)
         + QftStage(wires, target, controls, values, j0 + 1)
  }

  /** The swaps of wires[j] with wires[|wires|-1-j], for j = j0 .. |wires|/2 - 1. */
  function Swaps(wires: seq<Wire>, controls: seq<Wire>, values: seq<int>, j0: nat): seq<Gate>
    decreases |wires| / 2 - j0
  {
    if j0 >= |wires| / 2 then []
    else [Swap(wires[j0], wires[|wires| - 1 - j0], controls, values)] + Swaps(wires, controls, values, j0 + 1)
  }

  /** The gates of qft(wires, target, controls, values); None controls are the empty lists. */
  function Qft(wires: seq<Wire>, target: Wire, controls: seq<Wire>, values: seq<int>): (r: seq<Gate>)
    ensures Count(r, HadamardKind) == |wires|
    ensures 2 * Count(r, RotationKind) == |wires| * (|wires| - 1)
    ensures Count(r, SwapKind) == |wires| / 2
    ensures wires == [] ==> r == []
  {
    StageCounts(wires, target, controls, values, 0);
    SwapsCounts(wires, controls, values, 0);
    CountAppend(QftStage(wires, target, controls, values, 0), Swaps(wires, controls, values, 0));
    QftStage(wires, target, controls, values, 0) + Swaps(wires, controls, values, 0)
  }

  // ---------------------------------------------------------------------------
  // Inverse transform

  /**
   * The rotations of iqft for wire j, for k = |wires|-1 down to k0: angle
   * -2*pi / 2^(1+k-j) onto target, controlled only by wires[j] and wires[k].
   * Those for k > k0 come first, the one for k0 last.
   */
  function InvRotations(wires: seq<Wire>, target: Wire, j: nat, k0: nat): seq<Gate>
    requires j < k0 <= |wires|
    decreases |wires| - k0
  {
    if k0 == |wires| then []
    else InvRotations(wires, target, j, k0 + 1) + [Rotation(target, 1 + k0 - j, -1, [wires[j], wires[k0]], [1, 1])]
  }

  /**
   * The rotation-and-Hadamard stage of iqft, for j = |wires|-1 down to j0:
   * the gates for j > j0 first, then the rotations of wire j0 and its Hadamard.
   */
  function IqftStage(wires: seq<Wire>, target: Wire, j0: nat): seq<Gate>
    requires j0 <= |wires|
    decreases |wires| - j0
  {
    if j0 == |wires| then []
    else IqftStage(wires, target, j0 + 1)
         + InvRotations(wires, target, j0, j0 + 1)
         + [Hadamard(wires[j0], [], [])]
  }

  /** The gates of iqft(wires, target): the swaps first, then the inverse stage. */
  function Iqft(wires: seq<Wire>, target: Wire): (r: seq<Gate>)
    ensures r == Swaps(wires, [], [], 0) + Inverted(QftStage(wires, target, [], [], 0))
    ensures Count(r, HadamardKind) == |wires|
    ensures 2 * Count(r, RotationKind) == |wires| * (|wires| - 1)
    ensures Count(r, SwapKind) == |wires| / 2
    ensures wires == [] ==> r == []
  {
    StageInverted(wires, target, 0);
    StageCounts(wires, target, [], [], 0);
    CountInverted(QftStage(wires, target, [], [], 0));
    SwapsCounts(wires, [], [], 0);
    CountAppend(Swaps(wires, [], [], 0), IqftStage(wires, target, 0));
    Swaps(wires, [], [], 0) + IqftStage(wires, target, 0)
  }

  // ---------------------------------------------------------------------------
  // Reversal with negated angles

  function Negated(g: Gate): Gate
  {
    if g.Rotation? then g.(sign := -g.sign) else g
  }

  /** The gates in reverse order with every rotation angle negated. */
  function Inverted(gs: seq<Gate>): seq<Gate>
  {
    if gs == [] then [] else Inverted(gs[1..]) + [Negated(gs[0])]
  }

  lemma {:induction false} InvertedAppend(a: seq<Gate>, b: seq<Gate>)
    ensures Inverted(a + b) == Inverted(b) + Inverted(a)
  {
    if a == [] {
      assert a + b == b;
    } else {
      assert (a + b)[1..] == a[1..] + b;
      InvertedAppend(a[1..], b);
    }
  }

  /** Inverting twice gives back the original sequence. */
  lemma {:induction false} InvertedInvolution(gs: seq<Gate>)
    ensures Inverted(Inverted(gs)) == gs
  {
    if gs != [] {
      InvertedAppend(Inverted(gs[1..]), [Negated(gs[0])]);
      InvertedInvolution(gs[1..]);
      assert Inverted([Negated(gs[0])]) == [gs[0]];
      assert gs == [gs[0]] + gs[1..];
    }
  }

  /** In the uncontrolled case the rotations of iqft for wire j are those of qft reversed and negated. */
  lemma {:induction false} RotationsInverted(wires: seq<Wire>, target: Wire, j: nat, k0: nat)
    requires j < k0 <= |wires|
    ensures Inverted(Rotations(wires, target, [], [], j, k0)) == InvRotations(wires, target, j, k0)
    decreases |wires| - k0
  {
    if k0 < |wires| {
      var g := Rotation(target, 1 + k0 - j, 1, [] + [wires[j], wires[k0]], [] + [1, 1]);
      assert [] + [wires[j], wires[k0]] == [wires[j], wires[k0]];
      assert [] + [1, 1] == [1, 1];
      InvertedAppend([g], Rotations(wires, target, [], [], j, k0 + 1));
      assert Inverted([g]) == [Negated(g)];
      RotationsInverted(wires, target, j, k0 + 1);
    }
  }

  /**
   * With no external controls, the rotation-and-Hadamard stage of iqft is
   * that of qft in reverse order with every rotation angle negated.
   */
  lemma {:induction false} StageInverted(wires: seq<Wire>, target: Wire, j0: nat)
    requires j0 <= |wires|
    ensures Inverted(QftStage(wires, target, [], [], j0)) == IqftStage(wires, target, j0)
    decreases |wires| - j0
  {
    if j0 < |wires| {
      var h := [Hadamard(wires[j0], [], [])];
      var rs := Rotations(wires, target, [], [], j0, j0 + 1);
      var rest := QftStage(wires, target, [], [], j0 + 1);
      InvertedAppend(h + rs, rest);
      InvertedAppend(h, rs);
      StageInverted(wires, target, j0 + 1);
      RotationsInverted(wires, target, j0, j0 + 1);
    }
  }

  /** Conversely, the uncontrolled qft stage is the iqft stage reversed with its angles negated. */
  lemma QftStageFromIqft(wires: seq<Wire>, target: Wire)
    ensures QftStage(wires, target, [], [], 0) == Inverted(IqftStage(wires, target, 0))
  {
    StageInverted(wires, target, 0);
    InvertedInvolution(QftStage(wires, target, [], [], 0));
  }

  // ---------------------------------------------------------------------------
  // Counts

  lemma {:induction false} CountAppend(a: seq<Gate>, b: seq<Gate>)
    ensures forall kind :: Count(a + b, kind) == Count(a, kind) + Count(b, kind)
  {
    if a == [] {
      assert a + b == b;
    } else {
      assert (a + b)[1..] == a[1..] + b;
      CountAppend(a[1..], b);
    }
  }

  lemma {:induction false} CountInverted(gs: seq<Gate>)
    ensures forall kind :: Count(Inverted(gs), kind) == Count(gs, kind)
  {
    if gs != [] {
      CountInverted(gs[1..]);
      CountAppend(Inverted(gs[1..]), [Negated(gs[0])]);
      assert [Negated(gs[0])][1..] == [];
      assert KindOf(Negated(gs[0])) == KindOf(gs[0]);
      forall kind ensures Count(Inverted(gs), kind) == Count(gs, kind) {
        assert Count([Negated(gs[0])], kind) == if KindOf(gs[0]) == kind then 1 else 0;
      }
    }
  }

  lemma {:induction false} RotationsCounts(wires: seq<Wire>, target: Wire, controls: seq<Wire>, values: seq<int>, j: nat, k0: nat)
    requires j < k0 <= |wires|
    ensures Count(Rotations(wires, target, controls, values, j, k0), RotationKind) == |wires| - k0
    ensures Count(Rotations(wires, target, controls, values, j, k0), HadamardKind) == 0
    ensures Count(Rotations(wires, target, controls, values, j, k0), SwapKind) == 0
    decreases |wires| - k0
  {
    if k0 < |wires| {
      RotationsCounts(wires, target, controls, values, j, k0 + 1);
    }
  }

  /** The stage from j0 on has one Hadamard per wire and one rotation per pair j < k. */
  lemma {:induction false} StageCounts(wires: seq<Wire>, target: Wire, controls: seq<Wire>, values: seq<int>, j0: nat)
    requires j0 <= |wires|
    ensures Count(QftStage(wires, target, controls, values, j0), HadamardKind) == |wires| - j0
    ensures 2 * Count(QftStage(wires, target, controls, values, j0), RotationKind)
         == (|wires| - j0) * (|wires| - j0 - 1)
    ensures Count(QftStage(wires, target, controls, values, j0), SwapKind) == 0
    decreases |wires| - j0
  {
    if j0 < |wires| {
      var h := [Hadamard(wires[j0], controls, values)];
      var rs := Rotations(wires, target, controls, values, j0, j0 + 1);
      var rest := QftStage(wires, target, controls, values, j0 + 1);
      CountAppend(h + rs, rest);
      CountAppend(h, rs);
      RotationsCounts(wires, target, controls, values, j0, j0 + 1);
      StageCounts(wires, target, controls, values, j0 + 1);
      var m := |wires| - j0;
      assert m * (m - 1) == 2 * (m - 1) + (m - 1) * (m - 2);
    }
  }

  lemma {:induction false} SwapsCounts(wires: seq<Wire>, controls: seq<Wire>, values: seq<int>, j0: nat)
    requires j0 <= |wires| / 2
    ensures Count(Swaps(wires, controls, values, j0), SwapKind) == |wires| / 2 - j0
    ensures Count(Swaps(wires, controls, values, j0), HadamardKind) == 0
    ensures Count(Swaps(wires, controls, values, j0), RotationKind) == 0
    decreases |wires| / 2 - j0
  {
    if j0 < |wires| / 2 {
      SwapsCounts(wires, controls, values, j0 + 1);
    }
  }

  // ---------------------------------------------------------------------------
  // Positions and shapes of the gates

  /** The number of gates that the stage emits for wires j0 .. j-1: one block of |wires| - j' gates for each j'. */
  function Offset(len: nat, j0: nat, j: nat): nat
    requires j0 <= j <= len
    decreases j - j0
  {
    if j0 == j then 0 else (len - j0) + Offset(len, j0 + 1, j)
  }

  /** Rotation i after wires[j]'s Hadamard is the one with k = k0 + i. */
  lemma {:induction false} RotationsAt(wires: seq<Wire>, target: Wire, controls: seq<Wire>, values: seq<int>, j: nat, k0: nat, i: nat)
    requires j < k0 <= |wires| && i < |wires| - k0
    ensures |Rotations(wires, target, controls, values, j, k0)| == |wires| - k0
    ensures Rotations(wires, target, controls, values, j, k0)[i]
         == Rotation(target, 1 + (k0 + i) - j, 1, controls + [wires[j], wires[k0 + i]], values + [1, 1])
    decreases |wires| - k0
  {
    RotationsLength(wires, target, controls, values, j, k0);
    var g := Rotation(target, 1 + k0 - j, 1, controls + [wires[j], wires[k0]], values + [1, 1]);
    var rest := Rotations(wires, target, controls, values, j, k0 + 1);
    assert Rotations(wires, target, controls, values, j, k0) == [g] + rest;
    if i > 0 {
      RotationsAt(wires, target, controls, values, j, k0 + 1, i - 1);
      assert ([g] + rest)[i] == rest[i - 1];
      assert k0 + 1 + (i - 1) == k0 + i;
    }
  }

  lemma {:induction false} RotationsLength(wires: seq<Wire>, target: Wire, controls: seq<Wire>, values: seq<int>, j: nat, k0: nat)
    requires j < k0 <= |wires|
    ensures |Rotations(wires, target, controls, values, j, k0)| == |wires| - k0
    decreases |wires| - k0
  {
    if k0 < |wires| {
      RotationsLength(wires, target, controls, values, j, k0 + 1);
    }
  }

  lemma {:induction false} StageLength(wires: seq<Wire>, target: Wire, controls: seq<Wire>, values: seq<int>, j0: nat)
    requires j0 <= |wires|
    ensures |QftStage(wires, target, controls, values, j0)| == Offset(|wires|, j0, |wires|)
    decreases |wires| - j0
  {
    if j0 < |wires| {
      RotationsLength(wires, target, controls, values, j0, j0 + 1);
      StageLength(wires, target, controls, values, j0 + 1);
    }
  }

  /**
   * The stage from j0 is the block of wire j0 (its controlled Hadamard and
   * its rotations), |wires| - j0 gates long, followed by the stage from
   * j0 + 1, Offset(|wires|, j0 + 1, |wires|) gates long.
   */
  lemma StageSplit(wires: seq<Wire>, target: Wire, controls: seq<Wire>, values: seq<int>, j0: nat)
    requires j0 < |wires|
    ensures QftStage(wires, target, controls, values, j0)
         == [Hadamard(wires[j0], controls, values)] + Rotations(wires, target, controls, values, j0, j0 + 1)
            + QftStage(wires, target, controls, values, j0 + 1)
    ensures |[Hadamard(wires[j0], controls, values)] + Rotations(wires, target, controls, values, j0, j0 + 1)| == |wires| - j0
    ensures |QftStage(wires, target, controls, values, j0 + 1)| == Offset(|wires|, j0 + 1, |wires|)
  {
    RotationsLength(wires, target, controls, values, j0, j0 + 1);
    StageLength(wires, target, controls, values, j0 + 1);
  }

  /** The block of wire j0 opens the stage from j0. */
  lemma StageAtHead(wires: seq<Wire>, target: Wire, controls: seq<Wire>, values: seq<int>, j0: nat, k: nat)
    requires j0 <= k < |wires|
    ensures k - j0 < |QftStage(wires, target, controls, values, j0)|
    ensures QftStage(wires, target, controls, values, j0)[k - j0]
         == if k == j0 then Hadamard(wires[j0], controls, values)
            else Rotation(target, 1 + k - j0, 1, controls + [wires[j0], wires[k]], values + [1, 1])
  {
    StageSplit(wires, target, controls, values, j0);
    var h := [Hadamard(wires[j0], controls, values)];
    var rs := Rotations(wires, target, controls, values, j0, j0 + 1);
    var rest := QftStage(wires, target, controls, values, j0 + 1);
    if k > j0 {
      RotationsAt(wires, target, controls, values, j0, j0 + 1, k - j0 - 1);
      assert (h + rs + rest)[k - j0] == rs[k - j0 - 1];
    }
  }

  /**
   * The stage is made of one block per wire j, at offset Offset(|wires|, j0, j):
   * first the controlled Hadamard on wires[j], then for each k > j the
   * rotation onto target with exponent 1 + k - j, controlled by the external
   * controls and by wires[j] and wires[k] with values 1 and 1.
   */
  lemma {:induction false} StageAt(wires: seq<Wire>, target: Wire, controls: seq<Wire>, values: seq<int>, j0: nat, j: nat, k: nat)
    requires j0 <= j <= k < |wires|
    ensures Offset(|wires|, j0, j) + (k - j) < |QftStage(wires, target, controls, values, j0)|
    ensures QftStage(wires, target, controls, values, j0)[Offset(|wires|, j0, j) + (k - j)]
         == if k == j then Hadamard(wires[j], controls, values)
            else Rotation(target, 1 + k - j, 1, controls + [wires[j], wires[k]], values + [1, 1])
    decreases j - j0
  {
    if j == j0 {
      StageAtHead(wires, target, controls, values, j0, k);
    } else {
      StageSplit(wires, target, controls, values, j0);
      StageAt(wires, target, controls, values, j0 + 1, j, k);
      var front := [Hadamard(wires[j0], controls, values)] + Rotations(wires, target, controls, values, j0, j0 + 1);
      var rest := QftStage(wires, target, controls, values, j0 + 1);
      var at := Offset(|wires|, j0 + 1, j) + (k - j);
      assert Offset(|wires|, j0, j) + (k - j) == |front| + at;
      assert (front + rest)[|front| + at] == rest[at];
    }
  }

  /** Swap i of the swap stage exchanges wires[i] with wires[|wires|-1-i]. */
  lemma {:induction false} SwapsAt(wires: seq<Wire>, controls: seq<Wire>, values: seq<int>, j0: nat, i: nat)
    requires j0 <= i < |wires| / 2
    ensures |Swaps(wires, controls, values, j0)| == |wires| / 2 - j0
    ensures Swaps(wires, controls, values, j0)[i - j0] == Swap(wires[i], wires[|wires| - 1 - i], controls, values)
    decreases |wires| / 2 - j0
  {
    if j0 + 1 < |wires| / 2 {
      SwapsAt(wires, controls, values, j0 + 1, if i > j0 then i else j0 + 1);
    }
  }

  lemma {:induction false} SwapsLength(wires: seq<Wire>, controls: seq<Wire>, values: seq<int>, j0: nat)
    requires j0 <= |wires| / 2
    ensures |Swaps(wires, controls, values, j0)| == |wires| / 2 - j0
    decreases |wires| / 2 - j0
  {
    if j0 < |wires| / 2 {
      SwapsLength(wires, controls, values, j0 + 1);
    }
  }

  /** Every gate of qft has the shape the source builds. */
  ghost predicate QftGate(g: Gate, wires: seq<Wire>, target: Wire, controls: seq<Wire>, values: seq<int>)
  {
    if g.Hadamard? then
      g.wire in wires && g.controls == controls && g.values == values
    else if g.Rotation? then
      && g.target == target && 2 <= g.exponent <= |wires| && g.sign == 1
      && |g.controls| == |controls| + 2 && g.controls[..|controls|] == controls
      && g.controls[|controls|] in wires && g.controls[|controls| + 1] in wires
      && g.values == values + [1, 1]
    else
      g.first in wires && g.second in wires && g.controls == controls && g.values == values
  }

  /** Two swaps that exchange a common wire. */
  ghost predicate ShareWire(g: Gate, h: Gate)
    requires g.Swap? && h.Swap?
  {
    g.first == h.first || g.first == h.second || g.second == h.first || g.second == h.second
  }

  /**
   * In qft, block j starts at Offset(|wires|, 0, j): first the controlled
   * Hadamard on wires[j], then for each k > j the rotation onto target with
   * exponent 1 + k - j, controlled by the external controls and by wires[j]
   * and wires[k] with values 1 and 1.
   */
  lemma QftAt(wires: seq<Wire>, target: Wire, controls: seq<Wire>, values: seq<int>, j: nat, k: nat)
    requires j <= k < |wires|
    ensures Offset(|wires|, 0, j) + (k - j) < |Qft(wires, target, controls, values)|
    ensures Qft(wires, target, controls, values)[Offset(|wires|, 0, j) + (k - j)]
         == if k == j then Hadamard(wires[j], controls, values)
            else Rotation(target, 1 + k - j, 1, controls + [wires[j], wires[k]], values + [1, 1])
  {
    StageAt(wires, target, controls, values, 0, j, k);
  }

  /** After the Offset(|wires|, 0, |wires|) gates of the stage, swap i of qft exchanges wires[i] with wires[|wires|-1-i]. */
  lemma QftSwapAt(wires: seq<Wire>, target: Wire, controls: seq<Wire>, values: seq<int>, i: nat)
    requires i < |wires| / 2
    ensures |Qft(wires, target, controls, values)| == Offset(|wires|, 0, |wires|) + |wires| / 2
    ensures Qft(wires, target, controls, values)[Offset(|wires|, 0, |wires|) + i]
         == Swap(wires[i], wires[|wires| - 1 - i], controls, values)
  {
    StageLength(wires, target, controls, values, 0);
    SwapsAt(wires, controls, values, 0, i);
  }

  /** Every gate of qft has the shape of a Hadamard, a rotation or a swap as the source builds them. */
  lemma QftShapes(wires: seq<Wire>, target: Wire, controls: seq<Wire>, values: seq<int>)
    ensures forall g :: g in Qft(wires, target, controls, values) ==> QftGate(g, wires, target, controls, values)
  {
    StageShapes(wires, target, controls, values, 0);
    SwapsShapes(wires, target, controls, values, 0);
  }

  lemma {:induction false} RotationsShapes(wires: seq<Wire>, target: Wire, controls: seq<Wire>, values: seq<int>, j: nat, k0: nat)
    requires j < k0 <= |wires|
    ensures forall g :: g in Rotations(wires, target, controls, values, j, k0) ==> QftGate(g, wires, target, controls, values)
    decreases |wires| - k0
  {
    if k0 < |wires| {
      RotationsShapes(wires, target, controls, values, j, k0 + 1);
      var c := controls + [wires[j], wires[k0]];
      assert c[..|controls|] == controls;
    }
  }

  lemma {:induction false} StageShapes(wires: seq<Wire>, target: Wire, controls: seq<Wire>, values: seq<int>, j0: nat)
    requires j0 <= |wires|
    ensures forall g :: g in QftStage(wires, target, controls, values, j0) ==> QftGate(g, wires, target, controls, values)
    decreases |wires| - j0
  {
    if j0 < |wires| {
      RotationsShapes(wires, target, controls, values, j0, j0 + 1);
      StageShapes(wires, target, controls, values, j0 + 1);
    }
  }

  lemma {:induction false} SwapsShapes(wires: seq<Wire>, target: Wire, controls: seq<Wire>, values: seq<int>, j0: nat)
    ensures forall g :: g in Swaps(wires, controls, values, j0) ==> QftGate(g, wires, target, controls, values)
    decreases |wires| / 2 - j0
  {
    if j0 < |wires| / 2 {
      SwapsShapes(wires, target, controls, values, j0 + 1);
    }
  }

  /** iqft starts with the |wires|/2 uncontrolled swaps, swap i exchanging wires[i] with wires[|wires|-1-i]. */
  lemma IqftSwapAt(wires: seq<Wire>, target: Wire, i: nat)
    requires i < |wires| / 2
    ensures i < |Iqft(wires, target)|
    ensures Iqft(wires, target)[i] == Swap(wires[i], wires[|wires| - 1 - i], [], [])
  {
    SwapsAt(wires, [], [], 0, i);
  }

  /**
   * For distinct wires, each swap exchanges two different wires and no two
   * swaps of the swap stage share a wire, so their order does not matter.
   */
  lemma SwapsDisjoint(wires: seq<Wire>, controls: seq<Wire>, values: seq<int>)
    requires forall a, b :: 0 <= a < b < |wires| ==> wires[a] != wires[b]
    ensures |Swaps(wires, controls, values, 0)| == |wires| / 2
    ensures forall i :: 0 <= i < |wires| / 2 ==>
      Swaps(wires, controls, values, 0)[i].Swap?
      && Swaps(wires, controls, values, 0)[i].first != Swaps(wires, controls, values, 0)[i].second
    ensures forall i, i' :: 0 <= i < i' < |wires| / 2 ==>
      !ShareWire(Swaps(wires, controls, values, 0)[i], Swaps(wires, controls, values, 0)[i'])
  {
    var n, sw := |wires|, Swaps(wires, controls, values, 0);
    SwapsLength(wires, controls, values, 0);
    forall i | 0 <= i < n / 2
      ensures sw[i].Swap? && sw[i].first != sw[i].second
    {
      SwapsAt(wires, controls, values, 0, i);
      assert i < n - 1 - i;
    }
    forall i, i' | 0 <= i < i' < n / 2
      ensures !ShareWire(sw[i], sw[i'])
    {
      SwapsAt(wires, controls, values, 0, i);
      SwapsAt(wires, controls, values, 0, i');
      assert i < i' < n - 1 - i' < n - 1 - i;
    }
  }
}
