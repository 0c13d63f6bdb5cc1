/** The mixing schedule of the block function: the working vector of 16
    words, the quarter-round applied in place at four indices, the column and
    diagonal groups of four such applications, the double round, and the ten
    double rounds of the mixing loop, with their inverses. */
module Rounds {
  import opened Words
  import opened QuarterRounds
  import opened Iteration

  /** The working vector: sixteen words. */
  type Block = x: seq<word> | |x| == 16 witness seq(16, _ => 0)

  /** The four word indices one quarter-round reads and writes back, in the
      order of the quarter-round's arguments. */
  datatype Indices = Indices(a: nat, b: nat, c: nat, d: nat) {

    predicate Valid() {
      a < 16 && b < 16 && c < 16 && d < 16
    }

    predicate Distinct() {
      a != b && a != c && a != d && b != c && b != d && c != d
    }

    predicate Contains(n: nat) {
      n == a || n == b || n == c || n == d
    }

    predicate DisjointFrom(other: Indices) {
      !other.Contains(a) && !other.Contains(b) && !other.Contains(c) && !other.Contains(d)
    }
  }

  /** The four words of `x` at the indices of `ix`. */
  function Gather(x: Block, ix: Indices): Quad
    requires ix.Valid()
  {
    Quad(x[ix.a], x[ix.b], x[ix.c], x[ix.d])
  }

  /** The column group, applied first in each double round. */
  const Columns: seq<Indices> :=
    [Indices(4, 8, 12, 0), Indices(9, 13, 1, 5), Indices(14, 2, 6, 10), Indices(3, 7, 11, 15)]

  /** The diagonal group, applied second in each double round. */
  const Diagonals: seq<Indices> :=
    [Indices(1, 6, 11, 0), Indices(12, 5, 10, 15), Indices(2, 7, 8, 13), Indices(3, 4, 9, 14)]

  /** A group whose quarter-rounds each touch four different words, and no
      word touched by two of them. */
  predicate PairwiseDisjoint(g: seq<Indices>) {
    && AllDistinct(g)
    && (forall m, m' :: 0 <= m < m' < |g| ==> g[m].DisjointFrom(g[m']))
  }

  /** A pairwise disjoint group that touches every one of the 16 words: each
      word is touched exactly once. */
  predicate IsPartition(g: seq<Indices>) {
    PairwiseDisjoint(g) && forall n: nat :: n < 16 ==> Touches(g, n)
  }

  /** Each group of the schedule touches every word exactly once. */
  lemma GroupsArePartitions()
    ensures IsPartition(Columns)
    ensures IsPartition(Diagonals)
  {
    ColumnsArePartition();
    DiagonalsArePartition();
  }

  lemma ColumnsArePartition()
    ensures IsPartition(Columns)
  {
    var g := Columns;
    assert g[0] == Indices(4, 8, 12, 0) && g[1] == Indices(9, 13, 1, 5);
    assert g[2] == Indices(14, 2, 6, 10) && g[3] == Indices(3, 7, 11, 15);
    FourDisjoint(g);
    forall n: nat | n < 16
      ensures Touches(g, n)
    {
      if n in {0, 4, 8, 12} {
        assert g[0].Contains(n);
      } else if n in {1, 5, 9, 13} {
        assert g[1].Contains(n);
      } else if n in {2, 6, 10, 14} {
        assert g[2].Contains(n);
      } else {
        assert g[3].Contains(n);
      }
    }
  }

  lemma DiagonalsArePartition()
    ensures IsPartition(Diagonals)
  {
    var g := Diagonals;
    assert g[0] == Indices(1, 6, 11, 0) && g[1] == Indices(12, 5, 10, 15);
    assert g[2] == Indices(2, 7, 8, 13) && g[3] == Indices(3, 4, 9, 14);
    FourDisjoint(g);
    forall n: nat | n < 16
      ensures Touches(g, n)
    {
      if n in {0, 1, 6, 11} {
        assert g[0].Contains(n);
      } else if n in {5, 10, 12, 15} {
        assert g[1].Contains(n);
      } else if n in {2, 7, 8, 13} {
        assert g[2].Contains(n);
      } else {
        assert g[3].Contains(n);
      }
    }
  }

  /** A group of four quadruples is pairwise disjoint when each quadruple
      is valid with distinct indices and each of the six pairs is disjoint. */
  lemma FourDisjoint(g: seq<Indices>)
    requires |g| == 4
    requires g[0].Valid() && g[0].Distinct() && g[1].Valid() && g[1].Distinct()
    requires g[2].Valid() && g[2].Distinct() && g[3].Valid() && g[3].Distinct()
    requires g[0].DisjointFrom(g[1]) && g[0].DisjointFrom(g[2]) && g[0].DisjointFrom(g[3])
    requires g[1].DisjointFrom(g[2]) && g[1].DisjointFrom(g[3]) && g[2].DisjointFrom(g[3])
    ensures PairwiseDisjoint(g)
  {
  }

  /** Writes the four words of `q` back to the indices of `ix`, left to
      right, as the left-hand side of a destructuring assignment does. */
  function Put(x: Block, ix: Indices, q: Quad): Block
    requires ix.Valid()
  {
    x[ix.a := q.a][ix.b := q.b][ix.c := q.c][ix.d := q.d]
  }

  /** `Put` leaves every word outside `ix` unchanged, and at four distinct
      indices leaves exactly `q`. */
  lemma PutEffect(x: Block, ix: Indices, q: Quad)
    requires ix.Valid()
    ensures forall n :: 0 <= n < 16 && !ix.Contains(n) ==> Put(x, ix, q)[n] == x[n]
    ensures ix.Distinct() ==> Gather(Put(x, ix, q), ix) == q
  {
  }

  /** Writing back the words that are already there changes nothing. */
  lemma PutGather(x: Block, ix: Indices)
    requires ix.Valid()
    ensures Put(x, ix, Gather(x, ix)) == x
  {
  }

  /** A second write to the same indices overwrites the first. */
  lemma PutPut(x: Block, ix: Indices, p: Quad, q: Quad)
    requires ix.Valid()
    ensures Put(Put(x, ix, p), ix, q) == Put(x, ix, q)
  {
  }

  /** One destructuring assignment of the mixing loop: the quarter-round of
      the four words at `ix`, written back to those indices left to right. */
  function Apply(x: Block, ix: Indices): Block
    requires ix.Valid()
  {
    Put(x, ix, QuarterRound(x[ix.a], x[ix.b], x[ix.c], x[ix.d]))
  }

  /** `Apply` leaves every word outside `ix` unchanged, and when the four
      indices are distinct it leaves at `ix` exactly the quarter-round of the
      four words that were there. */
  lemma ApplyEffect(x: Block, ix: Indices)
    requires ix.Valid()
    ensures forall n :: 0 <= n < 16 && !ix.Contains(n) ==> Apply(x, ix)[n] == x[n]
    ensures ix.Distinct() ==> Gather(Apply(x, ix), ix) == QuarterRound(x[ix.a], x[ix.b], x[ix.c], x[ix.d])
  {
    PutEffect(x, ix, QuarterRound(x[ix.a], x[ix.b], x[ix.c], x[ix.d]));
  }

  /** `Apply` leaves word `n` unchanged when `ix` does not touch it. */
  lemma FrameAt(x: Block, ix: Indices, n: nat)
    requires ix.Valid() && n < 16 && !ix.Contains(n)
    ensures Apply(x, ix)[n] == x[n]
  {
    ApplyEffect(x, ix);
  }

  /** Writes the inverse quarter-round of the four words at `ix` back. */
  function ApplyInverse(y: Block, ix: Indices): Block
    requires ix.Valid()
  {
    Put(y, ix, InverseQuarterRound(y[ix.a], y[ix.b], y[ix.c], y[ix.d]))
  }

  /** `ApplyInverse` leaves every word outside `ix` unchanged, and when the
      four indices are distinct it leaves at `ix` exactly the inverse
      quarter-round of the four words that were there. */
  lemma ApplyInverseEffect(y: Block, ix: Indices)
    requires ix.Valid()
    ensures forall n :: 0 <= n < 16 && !ix.Contains(n) ==> ApplyInverse(y, ix)[n] == y[n]
    ensures ix.Distinct() ==> Gather(ApplyInverse(y, ix), ix) == InverseQuarterRound(y[ix.a], y[ix.b], y[ix.c], y[ix.d])
  {
    PutEffect(y, ix, InverseQuarterRound(y[ix.a], y[ix.b], y[ix.c], y[ix.d]));
  }

  /** Applying the inverse at the same distinct indices undoes `Apply`. */
  lemma ApplyInverseOfApply(x: Block, ix: Indices)
    requires ix.Valid() && ix.Distinct()
    ensures ApplyInverse(Apply(x, ix), ix) == x
  {
    var r := QuarterRound(x[ix.a], x[ix.b], x[ix.c], x[ix.d]);
    var y: Block := Put(x, ix, r);
    PutEffect(x, ix, r);
    assert Gather(y, ix) == r;
    QuarterRoundInverse(x[ix.a], x[ix.b], x[ix.c], x[ix.d]);
    assert InverseQuarterRound(y[ix.a], y[ix.b], y[ix.c], y[ix.d]) == Gather(x, ix);
    PutPut(x, ix, r, Gather(x, ix));
    PutGather(x, ix);
  }

  /** Applying at the same distinct indices undoes `ApplyInverse`. */
  lemma ApplyOfApplyInverse(y: Block, ix: Indices)
    requires ix.Valid() && ix.Distinct()
    ensures Apply(ApplyInverse(y, ix), ix) == y
  {
    var r := InverseQuarterRound(y[ix.a], y[ix.b], y[ix.c], y[ix.d]);
    var x: Block := Put(y, ix, r);
    PutEffect(y, ix, r);
    assert Gather(x, ix) == r;
    QuarterRoundSurjective(y[ix.a], y[ix.b], y[ix.c], y[ix.d]);
    assert QuarterRound(x[ix.a], x[ix.b], x[ix.c], x[ix.d]) == Gather(y, ix);
    PutPut(y, ix, r, Gather(y, ix));
    PutGather(y, ix);
  }

  predicate AllValid(g: seq<Indices>) {
    forall m :: 0 <= m < |g| ==> g[m].Valid()
  }

  predicate AllDistinct(g: seq<Indices>) {
    forall m :: 0 <= m < |g| ==> g[m].Valid() && g[m].Distinct()
  }

  /** True when some quarter-round of `g` touches word `n`. */
  predicate Touches(g: seq<Indices>, n: nat) {
    exists m :: 0 <= m < |g| && g[m].Contains(n)
  }

  /** A word is touched by a group exactly when the first quarter-round or
      a later one touches it. */
  lemma TouchesCons(g: seq<Indices>, n: nat)
    requires g != []
    ensures Touches(g, n) <==> g[0].Contains(n) || Touches(g[1..], n)
  {
    if Touches(g, n) && !g[0].Contains(n) {
      var m :| 0 <= m < |g| && g[m].Contains(n);
      assert g[1..][m - 1] == g[m];
    }
    if Touches(g[1..], n) {
      var m :| 0 <= m < |g[1..]| && g[1..][m].Contains(n);
      assert g[m + 1].Contains(n);
    }
  }

  /** The quarter-rounds of a group, one after the other, in order. */
  function ApplyGroup(x: Block, g: seq<Indices>): Block
    requires AllValid(g)
    decreases |g|
  {
    if g == [] then x else ApplyGroup(Apply(x, g[0]), g[1..])
  }

  /** A group leaves every word it does not touch unchanged. */
  lemma {:induction false} ApplyGroupFrame(x: Block, g: seq<Indices>)
    requires AllValid(g)
    ensures forall n: nat :: n < 16 && !Touches(g, n) ==> ApplyGroup(x, g)[n] == x[n]
    decreases |g|
  {
    if g != [] {
      var x1: Block := Apply(x, g[0]);
      var y := ApplyGroup(x1, g[1..]);
      assert ApplyGroup(x, g) == y;
      forall n: nat | n < 16 && !Touches(g, n)
        ensures y[n] == x[n]
      {
        TouchesCons(g, n);
        FrameAt(x, g[0], n);
        ApplyGroupFrame(x1, g[1..]);
      }
    }
  }

  /** Undoes a group: the inverse quarter-rounds, last one first. */
  function ApplyGroupInverse(y: Block, g: seq<Indices>): Block
    requires AllValid(g)
    decreases |g|
  {
    if g == [] then y else ApplyInverse(ApplyGroupInverse(y, g[1..]), g[0])
  }

  lemma {:induction false} ApplyGroupInverseOfApplyGroup(x: Block, g: seq<Indices>)
    requires AllDistinct(g)
    ensures ApplyGroupInverse(ApplyGroup(x, g), g) == x
    decreases |g|
  {
    if g != [] {
      var x1 := Apply(x, g[0]);
      ApplyGroupInverseOfApplyGroup(x1, g[1..]);
      ApplyInverseOfApply(x, g[0]);
    }
  }

  lemma {:induction false} ApplyGroupOfApplyGroupInverse(y: Block, g: seq<Indices>)
    requires AllDistinct(g)
    ensures ApplyGroup(ApplyGroupInverse(y, g), g) == y
    decreases |g|
  {
    if g != [] {
      var y1 := ApplyGroupInverse(y, g[1..]);
      ApplyOfApplyInverse(y1, g[0]);
      ApplyGroupOfApplyGroupInverse(y, g[1..]);
    }
  }

  /** In a group whose quarter-rounds touch pairwise disjoint words, the
      order does not matter: each quarter-round sees the words as they were
      before the group, so the group is four independent quarter-rounds. */
  lemma {:induction false} ApplyGroupIsParallel(x: Block, g: seq<Indices>)
    requires PairwiseDisjoint(g)
    ensures forall m :: 0 <= m < |g| ==>
      Gather(ApplyGroup(x, g), g[m]) == QuarterRound(x[g[m].a], x[g[m].b], x[g[m].c], x[g[m].d])
    decreases |g|
  {
    if g != [] {
      var x1 := Apply(x, g[0]);
      var rest := g[1..];
      assert PairwiseDisjoint(rest) by {
        assert forall m :: 0 <= m < |rest| ==> rest[m] == g[m + 1];
      }
      ApplyEffect(x, g[0]);
      ApplyGroupIsParallel(x1, rest);
      ApplyGroupFrame(x1, rest);
      var y := ApplyGroup(x, g);
      assert y == ApplyGroup(x1, rest);
      forall m | 0 <= m < |g|
        ensures Gather(y, g[m]) == QuarterRound(x[g[m].a], x[g[m].b], x[g[m].c], x[g[m].d])
      {
        if m == 0 {
          forall k | 0 <= k < |rest|
            ensures rest[k].DisjointFrom(g[0])
          {
            assert g[0].DisjointFrom(g[k + 1]);
          }
          NotTouched(rest, g[0]);
        } else {
          assert rest[m - 1] == g[m];
          assert g[0].DisjointFrom(g[m]);
          assert Gather(x1, g[m]) == Gather(x, g[m]);
        }
      }
    }
  }

  /** No index of a quarter-round disjoint from every member of a group is
      touched by the group. */
  lemma NotTouched(g: seq<Indices>, ix: Indices)
    requires forall k :: 0 <= k < |g| ==> g[k].DisjointFrom(ix)
    ensures !Touches(g, ix.a) && !Touches(g, ix.b) && !Touches(g, ix.c) && !Touches(g, ix.d)
  {
  }

  /** The column group, then the diagonal group. */
  function DoubleRound(x: Block): Block
  {
    ApplyGroup(ApplyGroup(x, Columns), Diagonals)
  }

  /** The double round is the eight quarter-rounds of the loop body in the
      order they are written: the four columns, then the four diagonals. */
  lemma DoubleRoundSteps(x: Block)
    ensures DoubleRound(x) ==
      var c := Apply(Apply(Apply(Apply(x, Columns[0]), Columns[1]), Columns[2]), Columns[3]);
      Apply(Apply(Apply(Apply(c, Diagonals[0]), Diagonals[1]), Diagonals[2]), Diagonals[3])
  {
    GroupsArePartitions();
    var c := ApplyGroup(x, Columns);
    assert c == Apply(Apply(Apply(Apply(x, Columns[0]), Columns[1]), Columns[2]), Columns[3]) by {
      assert Columns[1..][1..][1..][1..] == [];
    }
    assert ApplyGroup(c, Diagonals) ==
      Apply(Apply(Apply(Apply(c, Diagonals[0]), Diagonals[1]), Diagonals[2]), Diagonals[3]) by {
      assert Diagonals[1..][1..][1..][1..] == [];
    }
  }

  function InverseDoubleRound(y: Block): Block
  {
    ApplyGroupInverse(ApplyGroupInverse(y, Diagonals), Columns)
  }

  /** The double round is a bijection on the working vector. */
  lemma DoubleRoundBijective(x: Block)
    ensures InverseDoubleRound(DoubleRound(x)) == x
    ensures DoubleRound(InverseDoubleRound(x)) == x
  {
    GroupsArePartitions();
    ApplyGroupInverseOfApplyGroup(x, Columns);
    ApplyGroupInverseOfApplyGroup(ApplyGroup(x, Columns), Diagonals);
    ApplyGroupOfApplyGroupInverse(x, Diagonals);
    ApplyGroupOfApplyGroupInverse(ApplyGroupInverse(x, Diagonals), Columns);
  }

  /** The mixing loop: one double round per iteration of `i = 0, 2, ..., 18`. */
  const MixIterations: nat := 10

  /** The working vector after the mixing loop. */
  function Mix(x: Block): Block
  {
    Iterate(DoubleRound, x, MixIterations)
  }

  /** Undoes the mixing loop: ten inverse double rounds. */
  function InverseMix(y: Block): Block
  {
    Iterate(InverseDoubleRound, y, MixIterations)
  }

  /** The inverse double round undoes the double round on every vector. */
  lemma InverseDoubleRoundUndoes()
    ensures forall y: Block :: InverseDoubleRound(DoubleRound(y)) == y
  {
    forall y: Block
      ensures InverseDoubleRound(DoubleRound(y)) == y
    {
      DoubleRoundBijective(y);
    }
  }

  /** The double round undoes the inverse double round on every vector. */
  lemma DoubleRoundUndoes()
    ensures forall x: Block :: DoubleRound(InverseDoubleRound(x)) == x
  {
    forall x: Block
      ensures DoubleRound(InverseDoubleRound(x)) == x
    {
      DoubleRoundBijective(x);
    }
  }

  /** Ten inverse double rounds undo the mixing loop. */
  lemma InverseMixOfMix(x: Block)
    ensures InverseMix(Mix(x)) == x
  {
    InverseDoubleRoundUndoes();
    IterateInverse(DoubleRound, InverseDoubleRound, x, MixIterations);
  }

  /** Every vector is the result of the mixing loop on the inverse's result:
      with `InverseMixOfMix`, the mixing loop is a permutation of the
      16-word vectors. */
  lemma MixOfInverseMix(y: Block)
    ensures Mix(InverseMix(y)) == y
  {
    DoubleRoundUndoes();
    IterateInverse(InverseDoubleRound, DoubleRound, y, MixIterations);
  }

  /** The zero vector. */
  const Zero: Block := seq(16, _ => 0)

  /** The zero vector is a fixed point of the double round. */
  lemma DoubleRoundZero()
    ensures DoubleRound(Zero) == Zero
  {
    GroupsArePartitions();
    ZeroGroup(Columns);
    ZeroGroup(Diagonals);
  }

  /** The zero vector is a fixed point of the mixing loop. */
  lemma MixZero()
    ensures Mix(Zero) == Zero
  {
    DoubleRoundZero();
    IterateFixedPoint(DoubleRound, Zero, MixIterations);
  }

  lemma {:induction false} ZeroGroup(g: seq<Indices>)
    requires AllValid(g)
    ensures ApplyGroup(Zero, g) == Zero
    decreases |g|
  {
    if g != [] {
      QuarterRoundZero();
      assert Apply(Zero, g[0]) == Zero;
      ZeroGroup(g[1..]);
    }
  }
}
