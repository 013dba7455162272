/**
 The "forest" shown beside a sector's emissions: `int(total * 45)` trees,
 each placed at two successive draws of the random source.  The random
 source is a parameter `sample`, where `sample(k)` is the k-th draw.
 */
module Forest {

  /** Trees needed to offset one ton of CO2-equivalent. */
  const TreesPerTon: real := 45.0

  datatype Tree = Tree(x: real, y: real)

  predicate InUnitSquare(t: Tree)
  {
    0.0 <= t.x < 1.0 && 0.0 <= t.y < 1.0
  }

  /** Python's `int(x)` on a number: truncation toward zero. */
  function TruncateTowardZero(x: real): (n: int)
    ensures 0.0 <= x ==> 0 <= n && n as real <= x < n as real + 1.0
    ensures x < 0.0 ==> n <= 0 && n as real - 1.0 < x <= n as real
  {
    if 0.0 <= x then x.Floor else -((-x).Floor)
  }

  /** `int(total * 45)`: the tree count for a total. */
  function TreesToOffset(total: real): (n: int)
    ensures 0.0 <= total ==> 0 <= n && n as real <= 45.0 * total < n as real + 1.0
    ensures total < 0.0 ==> n <= 0 && n as real - 1.0 < 45.0 * total <= n as real
  {
    TruncateTowardZero(total * TreesPerTon)
  }

  /** A negative total (negative entries are accepted) gives no trees, whatever the random draws. */
  lemma TreesForNegativeTotal(total: real, sample: nat -> real)
    requires total < 0.0
    ensures PlantedForest(TreesToOffset(total), sample) == []
  {
  }

  /**
   The forest `generate_forest(n)` builds: `range(n)` is empty for `n <= 0`;
   otherwise tree `i` takes draws `2i` (x) and `2i + 1` (y).
   */
  function PlantedForest(n: int, sample: nat -> real): (forest: seq<Tree>)
    ensures |forest| == if n > 0 then n else 0
    ensures (forall k :: 0.0 <= sample(k) < 1.0) ==> forall i | 0 <= i < |forest| :: InUnitSquare(forest[i])
  {
    if n <= 0 then [] else seq(n, i requires 0 <= i => Tree(sample(2 * i), sample(2 * i + 1)))
  }

  /** `generate_forest`: appends one tree per iteration of `range(numTrees)`. */
  method GenerateForest(numTrees: int, sample: nat -> real) returns (forest: seq<Tree>)
    ensures forest == PlantedForest(numTrees, sample)
  {
    forest := [];
    var i := 0;
    while i < numTrees
      invariant 0 <= i <= if numTrees > 0 then numTrees else 0
      invariant |forest| == i
      invariant forall j | 0 <= j < i :: forest[j] == Tree(sample(2 * j), sample(2 * j + 1))
    {
      var x := sample(2 * i);
      var y := sample(2 * i + 1);
      forest := forest + [Tree(x, y)];
      i := i + 1;
    }
    ghost var planted := PlantedForest(numTrees, sample);
    assert |forest| == |planted|;
    assert forall j | 0 <= j < |forest| :: forest[j] == planted[j];
  }
}
