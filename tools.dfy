/**
 * gen_random_tree (src/tools.py): a nested list of random integers.  Each
 * random.randint(lo, hi) draw is a nondeterministic choice of an integer in
 * [lo, hi], so what is proved holds for every outcome of the draws.
 */
module Tools {
  import opened Items

  function Max0(n: int): nat
  {
    if n > 0 then n else 0
  }

  /** An integer the generator can produce: a drawn value, possibly negated. */
  predicate InValueRange(v: int, vmin: int, vmax: int)
  {
    (vmin <= v <= vmax) || (vmin <= -v <= vmax)
  }

  /**
   * The shape gen_random_tree promises: as many elements as range() of a
   * count drawn from [emin, emax] gives, at every depth; each an integer in
   * the value range, or, while sublevels remain, a list generated with one
   * sublevel less.
   */
  predicate Generated(arr: seq<Data>, emin: int, emax: int, vmin: int, vmax: int, sub: int)
    decreases arr
  {
    Max0(emin) <= |arr| <= Max0(emax) &&
    forall i :: 0 <= i < |arr| ==> ElementGenerated(arr[i], emin, emax, vmin, vmax, sub)
  }

  predicate ElementGenerated(d: Data, emin: int, emax: int, vmin: int, vmax: int, sub: int)
    decreases d
  {
    match d
    case Int(v) => InValueRange(v, vmin, vmax)
    case List(es) => sub > 0 && Generated(es, emin, emax, vmin, vmax, sub - 1)
  }

  /** The nesting depth of a list: 0 for a flat list of integers. */
  function Depth(ds: seq<Data>): nat
    decreases ds
  {
    if ds == [] then 0
    else
      var a, b := Depth(ds[..|ds| - 1]), DepthOne(ds[|ds| - 1]);
      if a >= b then a else b
  }

  function DepthOne(d: Data): nat
    decreases d
  {
    match d
    case Int(_) => 0
    case List(es) => 1 + Depth(es)
  }

  /**
   * gen_random_tree(elements_min, elements_max, value_min, value_max,
   * max_sublevel).  The element count is drawn first; for each element a
   * sublist is drawn with chance 1 in 4 while sublevels remain (the second
   * draw is made only then), otherwise a value, negated with chance 1 in 4.
   */
  method GenRandomTree(emin: int, emax: int, vmin: int, vmax: int, maxSub: int) returns (arr: seq<Data>)
    requires emin <= emax && vmin <= vmax
    ensures Generated(arr, emin, emax, vmin, vmax, maxSub)
    ensures maxSub <= 0 ==> forall i :: 0 <= i < |arr| ==> arr[i].Int?
    decreases Max0(maxSub)
  {
    arr := [];
    var count :| emin <= count <= emax;
    var k := 0;
    while k < count
      invariant 0 <= k == |arr|
      invariant k <= Max0(count)
      invariant forall i :: 0 <= i < |arr| ==> ElementGenerated(arr[i], emin, emax, vmin, vmax, maxSub)
    {
      var nest := false;
      if maxSub > 0 {
        var draw :| 1 <= draw <= 4;
        nest := draw == 2;
      }
      if nest {
        var sub := GenRandomTree(emin, emax, vmin, vmax, maxSub - 1);
        arr := arr + [List(sub)];
      } else {
        var value :| vmin <= value <= vmax;
        var draw :| 1 <= draw <= 4;
        if draw == 2 {
          value := value * -1;
        }
        arr := arr + [Int(value)];
      }
      k := k + 1;
    }
  }

  /**
   * The nesting depth never exceeds max_sublevel, since each nested call has
   * one sublevel less; with max_sublevel <= 0 the list is flat.
   */
  lemma {:induction false} GeneratedDepth(arr: seq<Data>, emin: int, emax: int, vmin: int, vmax: int, sub: int)
    requires forall i :: 0 <= i < |arr| ==> ElementGenerated(arr[i], emin, emax, vmin, vmax, sub)
    ensures Depth(arr) <= Max0(sub)
    ensures sub <= 0 ==> Depth(arr) == 0
    decreases arr
  {
    if arr != [] {
      var n := |arr| - 1;
      GeneratedDepth(arr[..n], emin, emax, vmin, vmax, sub);
      match arr[n]
      case Int(_) =>
      case List(es) =>
        assert ElementGenerated(arr[n], emin, emax, vmin, vmax, sub);
        assert Generated(es, emin, emax, vmin, vmax, sub - 1);
        GeneratedDepth(es, emin, emax, vmin, vmax, sub - 1);
    }
  }
}
