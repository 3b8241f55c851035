/**
 * MainView (src/views.py): the rules the main window applies to the model.
 * These are the (level, value) pairs the graph is drawn from, the order in
 * which selected items are deleted, the double-click editability rule and
 * the colouring of second-level items.
 */
module Views {
  import opened Items
  import opened Models

  // ---------------------------------------------------------------------------
  // update_graph: prepare_arr_for_graph

  /** One graph pair: the nesting level of an element and its value. */
  datatype Point = Point(level: int, value: int)

  /** The number of elements of a nested list, counted at every depth. */
  function Size(ds: seq<Data>): nat
    decreases ds
  {
    if ds == [] then 0 else Size(ds[..|ds| - 1]) + SizeOne(ds[|ds| - 1])
  }

  function SizeOne(d: Data): nat
    decreases d
  {
    match d
    case Int(_) => 1
    case List(es) => 1 + Size(es)
  }

  /** The sum of all integers nested anywhere in a list. */
  function Total(ds: seq<Data>): int
    decreases ds
  {
    if ds == [] then 0 else Total(ds[..|ds| - 1]) + TotalOne(ds[|ds| - 1])
  }

  /** An integer's own value; a list's nested total. */
  function TotalOne(d: Data): int
    decreases d
  {
    match d
    case Int(n) => n
    case List(es) => Total(es)
  }

  /** The sum of the values of the pairs at one level. */
  function LevelSum(vs: seq<Point>, level: int): int
  {
    if vs == [] then 0
    else LevelSum(vs[..|vs| - 1], level) + (if vs[|vs| - 1].level == level then vs[|vs| - 1].value else 0)
  }

  /** The pairs at one level, in order. */
  function AtLevel(vs: seq<Point>, level: int): (ws: seq<Point>)
    ensures forall i :: 0 <= i < |ws| ==> ws[i].level == level
  {
    if vs == [] then []
    else AtLevel(vs[..|vs| - 1], level) + (if vs[|vs| - 1].level == level then [vs[|vs| - 1]] else [])
  }

  /**
   * What prepare_arr_for_graph(data, level) returns: the elements' pairs in
   * order.  It emits one pair per element at every depth, none below the
   * starting level.
   */
  function GraphPoints(ds: seq<Data>, level: int): (arr: seq<Point>)
    ensures |arr| == Size(ds)
    ensures forall i :: 0 <= i < |arr| ==> arr[i].level >= level
    decreases ds
  {
    if ds == [] then []
    else GraphPoints(ds[..|ds| - 1], level) + ElementPoints(ds[|ds| - 1], level)
  }

  /**
   * The pairs of one element: an integer gives (level, itself); a list gives
   * (level, sum of its level + 1 pairs) followed by its contents' pairs.
   */
  function ElementPoints(d: Data, level: int): (arr: seq<Point>)
    ensures |arr| == SizeOne(d)
    ensures forall i :: 0 <= i < |arr| ==> arr[i].level >= level
    ensures arr[0].level == level
    decreases d
  {
    match d
    case Int(n) => [Point(level, n)]
    case List(es) =>
      var vs := GraphPoints(es, level + 1);
      [Point(level, LevelSum(vs, level + 1))] + vs
  }

  lemma {:induction false} LevelSumAppend(a: seq<Point>, b: seq<Point>, level: int)
    ensures LevelSum(a + b, level) == LevelSum(a, level) + LevelSum(b, level)
    ensures AtLevel(a + b, level) == AtLevel(a, level) + AtLevel(b, level)
    decreases |b|
  {
    if b == [] {
      assert a + b == a;
    } else {
      var n := |b| - 1;
      assert (a + b)[..|a + b| - 1] == a + b[..n];
      assert (a + b)[|a + b| - 1] == b[n];
      LevelSumAppend(a, b[..n], level);
    }
  }

  /** Pairs all deeper than a level contribute nothing at that level. */
  lemma {:induction false} LevelSumDeeper(vs: seq<Point>, level: int)
    requires forall i :: 0 <= i < |vs| ==> vs[i].level > level
    ensures LevelSum(vs, level) == 0 && AtLevel(vs, level) == []
  {
    if vs != [] {
      LevelSumDeeper(vs[..|vs| - 1], level);
    }
  }

  /** One pair per element of a list, at the given level, holding its total. */
  function TopPoints(ds: seq<Data>, level: int): (ps: seq<Point>)
    ensures |ps| == |ds|
    ensures forall i :: 0 <= i < |ds| ==> ps[i] == Point(level, TotalOne(ds[i]))
  {
    if ds == [] then [] else TopPoints(ds[..|ds| - 1], level) + [Point(level, TotalOne(ds[|ds| - 1]))]
  }

  /**
   * The pairs at the starting level are the list's direct elements, one
   * each and in order, each carrying its nested total; so they sum to the
   * list's total.
   */
  lemma {:induction false} GraphPointsTopLevel(ds: seq<Data>, level: int)
    ensures AtLevel(GraphPoints(ds, level), level) == TopPoints(ds, level)
    ensures LevelSum(GraphPoints(ds, level), level) == Total(ds)
    decreases ds
  {
    if ds != [] {
      var n := |ds| - 1;
      GraphPointsTopLevel(ds[..n], level);
      ElementPointsTopLevel(ds[n], level);
      LevelSumAppend(GraphPoints(ds[..n], level), ElementPoints(ds[n], level), level);
    }
  }

  /** An element's own pair is the only one at its level, and it carries the element's total. */
  lemma {:induction false} ElementPointsTopLevel(d: Data, level: int)
    ensures ElementPoints(d, level)[0] == Point(level, TotalOne(d))
    ensures AtLevel(ElementPoints(d, level), level) == [Point(level, TotalOne(d))]
    ensures LevelSum(ElementPoints(d, level), level) == TotalOne(d)
    decreases d
  {
    match d
    case Int(n) =>
      assert [Point(level, n)][..0] == [];
    case List(es) =>
      var vs := GraphPoints(es, level + 1);
      GraphPointsTopLevel(es, level + 1);
      LevelSumDeeper(vs, level);
      var head := [Point(level, LevelSum(vs, level + 1))];
      assert head[..0] == [];
      LevelSumAppend(head, vs, level);
  }

  /**
   * Pre-order: the pairs of element i sit right after those of the elements
   * before it (GraphPointsHead: its own pair first).
   */
  lemma GraphPointsPreOrder(ds: seq<Data>, level: int, i: nat)
    requires i < |ds|
    ensures Size(ds[..i]) + SizeOne(ds[i]) <= Size(ds)
    ensures GraphPoints(ds, level)[Size(ds[..i])..Size(ds[..i]) + SizeOne(ds[i])] == ElementPoints(ds[i], level)
  {
    var x := [ds[i]];
    var pre, e, post := GraphPoints(ds[..i], level), ElementPoints(ds[i], level), GraphPoints(ds[i + 1..], level);
    assert ds == ds[..i] + x + ds[i + 1..];
    GraphPointsAppend(ds[..i] + x, ds[i + 1..], level);
    GraphPointsAppend(ds[..i], x, level);
    assert x[..0] == [];
    assert GraphPoints(x, level) == e;
    SliceMiddle(pre, e, post);
  }

  /** Each element's pairs start with its own pair, carrying its nested total. */
  lemma GraphPointsHead(ds: seq<Data>, level: int, i: nat)
    requires i < |ds|
    ensures Size(ds[..i]) < Size(ds)
    ensures GraphPoints(ds, level)[Size(ds[..i])] == Point(level, TotalOne(ds[i]))
  {
    GraphPointsPreOrder(ds, level, i);
    var a := Size(ds[..i]);
    var e := ElementPoints(ds[i], level);
    assert GraphPoints(ds, level)[a..a + |e|] == e;
    assert GraphPoints(ds, level)[a] == e[0];
    ElementPointsTopLevel(ds[i], level);
  }

  /** The pairs of a concatenation are the pairs of its parts, in order. */
  lemma {:induction false} GraphPointsAppend(xs: seq<Data>, ys: seq<Data>, level: int)
    ensures GraphPoints(xs + ys, level) == GraphPoints(xs, level) + GraphPoints(ys, level)
    decreases |ys|
  {
    if ys == [] {
      assert xs + ys == xs;
    } else {
      var n := |ys| - 1;
      assert (xs + ys)[..|xs + ys| - 1] == xs + ys[..n];
      assert (xs + ys)[|xs + ys| - 1] == ys[n];
      GraphPointsAppend(xs, ys[..n], level);
    }
  }

  lemma SliceMiddle(pre: seq<Point>, e: seq<Point>, post: seq<Point>)
    ensures (pre + e + post)[|pre|..|pre| + |e|] == e
  {
    assert (pre + e + post)[|pre|..] == e + post;
    assert (e + post)[..|e|] == e;
  }

  /** prepare_arr_for_graph(data, level): the loop over the list's elements. */
  method PrepareArrForGraph(ds: seq<Data>, level: int) returns (arr: seq<Point>)
    ensures arr == GraphPoints(ds, level)
    decreases ds
  {
    arr := [];
    for i := 0 to |ds|
      invariant arr == GraphPoints(ds[..i], level)
    {
      GraphPointsStep(ds, level, i);
      match ds[i] {
        case List(es) =>
          var values := PrepareArrForGraph(es, level + 1);
          arr := arr + [Point(level, LevelSum(values, level + 1))];
          arr := arr + values;
        case Int(n) =>
          arr := arr + [Point(level, n)];
      }
    }
    assert ds[..|ds|] == ds;
  }

  /** One more element adds its own pairs at the end. */
  lemma GraphPointsStep(ds: seq<Data>, level: int, i: nat)
    requires i < |ds|
    ensures GraphPoints(ds[..i + 1], level) == GraphPoints(ds[..i], level) + ElementPoints(ds[i], level)
  {
    assert ds[..i + 1][..i] == ds[..i];
  }

  // ---------------------------------------------------------------------------
  // delete_tree_item: get_index_level and the sort key

  /** The decimal digit character for 0 <= n < 10. */
  function Digit(n: int): char
    requires 0 <= n < 10
  {
    ('0' as int + n) as char
  }

  predicate IsDigits(s: string)
  {
    forall i :: 0 <= i < |s| ==> '0' <= s[i] <= '9'
  }

  /** str(n) for n >= 0: its decimal digits, most significant first, without leading zeros. */
  function Decimal(n: nat): (s: string)
    ensures |s| >= 1 && IsDigits(s)
    ensures n < 10 <==> |s| == 1
  {
    if n < 10 then [Digit(n)] else Decimal(n / 10) + [Digit(n % 10)]
  }

  /** int(s) for a string of digits. */
  function Parse(s: string): (n: nat)
    requires IsDigits(s)
  {
    if s == [] then 0 else Parse(s[..|s| - 1]) * 10 + (s[|s| - 1] as int - '0' as int)
  }

  function Pow10(k: nat): (p: nat)
    ensures p >= 1
  {
    if k == 0 then 1 else 10 * Pow10(k - 1)
  }

  /** int(str(n)) == n. */
  lemma {:induction false} ParseDecimal(n: nat)
    ensures Parse(Decimal(n)) == n
  {
    if n >= 10 {
      var s := Decimal(n);
      assert s[..|s| - 1] == Decimal(n / 10);
      ParseDecimal(n / 10);
    }
  }

  /** int(a + b) shifts a by the length of b. */
  lemma {:induction false} ParseConcat(a: string, b: string)
    requires IsDigits(a) && IsDigits(b)
    ensures IsDigits(a + b)
    ensures Parse(a + b) == Parse(a) * Pow10(|b|) + Parse(b)
    decreases |b|
  {
    if b == [] {
      assert a + b == a;
    } else {
      var n := |b| - 1;
      var ab := a + b;
      assert ab[..|ab| - 1] == a + b[..n];
      assert ab[|ab| - 1] == b[n];
      ParseConcat(a, b[..n]);
      var x, y, z, d := Parse(a), Pow10(n), Parse(b[..n]), b[n] as int - '0' as int;
      assert Parse(ab) == Parse(a + b[..n]) * 10 + d;
      assert Parse(b) == z * 10 + d;
      assert Pow10(|b|) == y * 10;
      Distribute(x, y, z, d);
    }
  }

  lemma Distribute(x: int, y: int, z: int, d: int)
    ensures (x * y + z) * 10 + d == x * (y * 10) + (z * 10 + d)
  {
  }

  /** A larger number has at least as many digits. */
  lemma {:induction false} DecimalLength(j: nat, k: nat)
    requires j <= k
    ensures |Decimal(j)| <= |Decimal(k)|
    decreases k
  {
    if j >= 10 {
      DecimalLength(j / 10, k / 10);
    }
  }

  /**
   * get_index_level(index) for the item at p: the decimal rows of the path
   * from its top-level ancestor down to the item, one per depth; a
   * top-level item gives just its own row.
   */
  function GetIndexLevel(p: Path): (levels: seq<string>)
    requires p != []
    ensures |levels| == |p|
    ensures forall i :: 0 <= i < |p| ==> levels[i] == Decimal(p[i])
    decreases |p|
  {
    if |p| >= 2 then GetIndexLevel(Parent(p)) + [Decimal(p[|p| - 1])]
    else [Decimal(p[0])]
  }

  /** ''.join(strings) */
  function Join(ss: seq<string>): string
  {
    if ss == [] then [] else Join(ss[..|ss| - 1]) + ss[|ss| - 1]
  }

  lemma {:induction false} JoinDigits(ss: seq<string>)
    requires forall i :: 0 <= i < |ss| ==> IsDigits(ss[i])
    ensures IsDigits(Join(ss))
  {
    if ss != [] {
      JoinDigits(ss[..|ss| - 1]);
    }
  }

  /** index.row(): the last row of the path, -1 for the invalid index. */
  function Row(p: Path): int
  {
    if p == [] then -1 else p[|p| - 1]
  }

  /**
   * The deletion sort key: the integer written by the index's rows joined
   * together (so [1, 2] and [12] share the key 12, and [0, 5] has key 5).
   */
  function SortKey(p: Path): (k: int)
    ensures p != [] ==> k >= 0
  {
    if p == [] then -1
    else
      var levels := GetIndexLevel(p);
      JoinDigits(levels);
      Parse(Join(levels))
  }

  /** Going one level deeper appends the row's digits to the key. */
  lemma KeyAppend(p: Path, r: nat)
    requires p != []
    ensures SortKey(p + [r]) == SortKey(p) * Pow10(|Decimal(r)|) + r
  {
    var q := p + [r];
    assert Parent(q) == p;
    var levels := GetIndexLevel(p);
    assert GetIndexLevel(q) == levels + [Decimal(r)];
    assert (levels + [Decimal(r)])[..|levels|] == levels;
    JoinDigits(levels);
    ParseConcat(Join(levels), Decimal(r));
    ParseDecimal(r);
  }

  /** A path made only of row 0: [0], [0, 0], ... */
  predicate AllZero(p: Path)
  {
    forall i :: 0 <= i < |p| ==> p[i] == 0
  }

  /**
   * Going one level deeper never lowers the key; it keeps it only when both
   * the key and the new row are 0.
   */
  lemma KeyGrow(p: Path, r: nat)
    requires p != []
    ensures SortKey(p + [r]) >= SortKey(p)
    ensures SortKey(p + [r]) == SortKey(p) ==> SortKey(p) == 0 && r == 0
    ensures SortKey(p + [r]) == 0 <==> SortKey(p) == 0 && r == 0
  {
    KeyAppend(p, r);
    Pow10Monotone(1, |Decimal(r)|);
    Scale(SortKey(p), Pow10(|Decimal(r)|), r);
  }

  /** The arithmetic behind appending digits: x * P + l with P >= 10. */
  lemma Scale(x: nat, P: nat, l: nat)
    requires P >= 10
    ensures x * P + l >= x
    ensures x * P + l == x ==> x == 0 && l == 0
    ensures x * P + l == 0 <==> x == 0 && l == 0
  {
  }

  /** Only the paths of zeros have key 0. */
  lemma {:induction false} KeyZero(p: Path)
    requires p != []
    ensures SortKey(p) == 0 <==> AllZero(p)
    decreases |p|
  {
    if |p| == 1 {
      KeySingle(p[0]);
      assert p == [p[0]];
    } else {
      var q := Parent(p);
      var last := p[|p| - 1];
      assert p == q + [last];
      KeyGrow(q, last);
      KeyZero(q);
      AllZeroAppend(q, last);
    }
  }

  /**
   * A descendant's key is at least its ancestor's, and equal only when both
   * are paths of zeros.
   */
  lemma {:induction false} KeyExtend(p: Path, r: Path)
    requires p != [] && p < r
    ensures SortKey(p) <= SortKey(r)
    ensures SortKey(p) == SortKey(r) ==> AllZero(p) && AllZero(r)
    decreases |r|
  {
    var q := Parent(r);
    var last := r[|r| - 1];
    assert r == q + [last];
    KeyGrow(q, last);
    assert p <= q;
    if q != p {
      KeyExtend(p, q);
    }
    if SortKey(p) == SortKey(r) {
      KeyZero(q);
      KeyZero(p);
      AllZeroAppend(q, last);
    }
  }

  lemma AllZeroAppend(q: Path, last: nat)
    ensures AllZero(q + [last]) <==> AllZero(q) && last == 0
  {
    assert (q + [last])[|q|] == last;
    assert forall i :: 0 <= i < |q| ==> (q + [last])[i] == q[i];
  }

  /** A later sibling has a larger key. */
  lemma KeySibling(a: Path, j: nat, k: nat)
    requires j < k
    ensures SortKey(a + [j]) < SortKey(a + [k])
  {
    if a == [] {
      assert [] + [j] == [j] && [] + [k] == [k];
      KeySingle(j);
      KeySingle(k);
    } else {
      KeyAppend(a, j);
      KeyAppend(a, k);
      DecimalLength(j, k);
      Pow10Monotone(|Decimal(j)|, |Decimal(k)|);
      MulMonotone(SortKey(a), Pow10(|Decimal(j)|), Pow10(|Decimal(k)|));
    }
  }

  /** A top-level item's key is its row. */
  lemma KeySingle(n: nat)
    ensures SortKey([n]) == n
  {
    assert GetIndexLevel([n]) == [Decimal(n)];
    assert [Decimal(n)][..0] == [];
    assert Join([Decimal(n)]) == Decimal(n);
    ParseDecimal(n);
  }

  lemma {:induction false} Pow10Monotone(i: nat, j: nat)
    requires i <= j
    ensures Pow10(i) <= Pow10(j)
    decreases j
  {
    if i < j {
      Pow10Monotone(i, j - 1);
    }
  }

  lemma MulMonotone(a: nat, x: nat, y: nat)
    requires x <= y
    ensures a * x <= a * y
  {
  }

  /**
   * Deleting p moves or removes the item at r: p is r itself or one of its
   * ancestors, or p is an earlier sibling of r or of one of r's ancestors.
   * If p disturbs r, then r has the larger key, unless both are paths of
   * zeros and p is the ancestor.
   */
  lemma DisturbsKey(p: Path, r: Path)
    requires r != [] && p != r
    ensures Disturbs(p, r) ==> SortKey(p) < SortKey(r) || (AllZero(p) && AllZero(r) && p < r)
  {
    if Disturbs(p, r) {
      if p <= r {
        KeyExtend(p, r);
      } else {
        var a := Parent(p);
        var j := p[|p| - 1];
        var k := r[|p| - 1];
        var s := a + [k];
        assert s <= r;
        KeySibling(a, j, k);
        if s != r {
          KeyExtend(s, r);
        }
      }
    }
  }


  // ---------------------------------------------------------------------------
  // delete_tree_item: the deletion order

  /** The sort keys delete_tree_item uses (ByDepth only in the correction). */
  datatype SortBy = ByRow | ByKey | ByDepth

  function KeyOf(k: SortBy, p: Path): int
  {
    match k
    case ByRow => Row(p)
    case ByKey => SortKey(p)
    case ByDepth => |p|
  }

  /**
   * a may come before b when ordered by the keys in turn, each largest
   * first, a later key deciding only between equal earlier ones.
   */
  predicate Before(keys: seq<SortBy>, a: Path, b: Path)
    decreases |keys|
  {
    keys == [] ||
    KeyOf(keys[0], a) > KeyOf(keys[0], b) ||
    (KeyOf(keys[0], a) == KeyOf(keys[0], b) && Before(keys[1..], a, b))
  }

  predicate SortedBy(r: seq<Path>, keys: seq<SortBy>)
  {
    forall i, j :: 0 <= i < j < |r| ==> Before(keys, r[i], r[j])
  }

  /** Insert x into r after every leading element whose key is at least x's. */
  function Insert(r: seq<Path>, x: Path, key: SortBy): (u: seq<Path>)
    ensures multiset(u) == multiset(r) + multiset{x}
  {
    if r == [] then [x]
    else if KeyOf(key, r[0]) >= KeyOf(key, x) then
      assert r == [r[0]] + r[1..];
      [r[0]] + Insert(r[1..], x, key)
    else [x] + r
  }

  /**
   * sorted(s, key=..., reverse=True): a permutation of s, largest key first,
   * stable also when reversed (SortDescStable).
   */
  function SortDesc(s: seq<Path>, key: SortBy): (r: seq<Path>)
    ensures multiset(r) == multiset(s)
  {
    if s == [] then []
    else
      assert s == s[..|s| - 1] + [s[|s| - 1]];
      Insert(SortDesc(s[..|s| - 1], key), s[|s| - 1], key)
  }

  lemma {:induction false} InsertSorted(r: seq<Path>, x: Path, key: SortBy, rest: seq<SortBy>)
    requires SortedBy(r, [key] + rest)
    requires forall y :: y in r ==> Before(rest, y, x)
    ensures SortedBy(Insert(r, x, key), [key] + rest)
  {
    if r != [] && KeyOf(key, r[0]) >= KeyOf(key, x) {
      SortedTail(r, [key] + rest);
      InsertSorted(r[1..], x, key, rest);
      InsertSortedAfter(r, x, key, rest);
    } else if r != [] {
      InsertSortedFirst(r, x, key, rest);
    }
  }

  /** A sorted list stays sorted without its first element, which comes before all the others. */
  lemma {:induction false} SortedTail(r: seq<Path>, keys: seq<SortBy>)
    requires r != [] && SortedBy(r, keys)
    ensures SortedBy(r[1..], keys)
    ensures forall y :: y in r[1..] ==> Before(keys, r[0], y)
  {
    forall i, j | 0 <= i < j < |r[1..]|
      ensures Before(keys, r[1..][i], r[1..][j])
    {
      assert r[1..][i] == r[i + 1] && r[1..][j] == r[j + 1];
    }
    forall y | y in r[1..]
      ensures Before(keys, r[0], y)
    {
      var k :| 0 <= k < |r[1..]| && r[1..][k] == y;
      assert r[k + 1] == y;
    }
  }

  /** x goes after r's first element, which keeps its place ahead of the rest. */
  lemma {:induction false} InsertSortedAfter(r: seq<Path>, x: Path, key: SortBy, rest: seq<SortBy>)
    requires r != [] && KeyOf(key, r[0]) >= KeyOf(key, x) && Before(rest, r[0], x)
    requires forall y :: y in r[1..] ==> Before([key] + rest, r[0], y)
    requires SortedBy(Insert(r[1..], x, key), [key] + rest)
    ensures SortedBy(Insert(r, x, key), [key] + rest)
  {
    var keys := [key] + rest;
    assert keys[1..] == rest;
    assert Before(keys, r[0], x);
    var tail := Insert(r[1..], x, key);
    assert Insert(r, x, key) == [r[0]] + tail;
    forall y | y in tail
      ensures Before(keys, r[0], y)
    {
      InsertMember(r[1..], x, key, y);
    }
    SortedCons(r[0], tail, keys);
  }

  /** Every element of Insert(r, x, key) is x or an element of r. */
  lemma {:induction false} InsertMember(r: seq<Path>, x: Path, key: SortBy, y: Path)
    requires y in Insert(r, x, key)
    ensures y == x || y in r
  {
    if r != [] && KeyOf(key, r[0]) >= KeyOf(key, x) && y != r[0] {
      InsertMember(r[1..], x, key, y);
    }
  }

  /** x goes first when its key is larger than the first element's. */
  lemma {:induction false} InsertSortedFirst(r: seq<Path>, x: Path, key: SortBy, rest: seq<SortBy>)
    requires r != [] && KeyOf(key, r[0]) < KeyOf(key, x)
    requires SortedBy(r, [key] + rest)
    ensures SortedBy(Insert(r, x, key), [key] + rest)
  {
    var keys := [key] + rest;
    SortedTail(r, keys);
    assert r == [r[0]] + r[1..];
    forall y | y in r
      ensures Before(keys, x, y)
    {
      if y != r[0] {
        assert y in r[1..];
        assert Before(keys, r[0], y);
      }
    }
    SortedCons(x, r, keys);
  }

  /** A sorted list stays sorted behind an element that comes before all of it. */
  lemma {:induction false} SortedCons(h: Path, tail: seq<Path>, keys: seq<SortBy>)
    requires SortedBy(tail, keys)
    requires forall y :: y in tail ==> Before(keys, h, y)
    ensures SortedBy([h] + tail, keys)
  {
    var u := [h] + tail;
    forall i, j | 0 <= i < j < |u|
      ensures Before(keys, u[i], u[j])
    {
      if i == 0 {
        assert u[j] == tail[j - 1];
        assert u[j] in tail;
      } else {
        assert u[i] == tail[i - 1] && u[j] == tail[j - 1];
      }
    }
  }

  /**
   * Stability: sorting by key a list already ordered by other keys orders
   * it by the key first, then by the others.
   */
  lemma {:induction false} SortDescStable(s: seq<Path>, key: SortBy, rest: seq<SortBy>)
    requires SortedBy(s, rest)
    ensures SortedBy(SortDesc(s, key), [key] + rest)
  {
    if s != [] {
      var n := |s| - 1;
      assert SortedBy(s[..n], rest) by {
        forall i, j | 0 <= i < j < n
          ensures Before(rest, s[..n][i], s[..n][j])
        {
          assert s[..n][i] == s[i] && s[..n][j] == s[j];
        }
      }
      SortDescStable(s[..n], key, rest);
      forall y | y in SortDesc(s[..n], key)
        ensures Before(rest, y, s[n])
      {
        assert y in multiset(s[..n]);
        var k :| 0 <= k < n && s[..n][k] == y;
        assert s[k] == y;
      }
      InsertSorted(SortDesc(s[..n], key), s[n], key, rest);
    }
  }

  /**
   * The order delete_tree_item deletes the selected items in: sorted by row,
   * then by the key, both largest first.
   */
  function DeletionOrder(sel: seq<Path>): (o: seq<Path>)
    ensures multiset(o) == multiset(sel) && |o| == |sel|
  {
    SortDesc(SortDesc(sel, ByRow), ByKey)
  }

  /**
   * The selection in descending key order, equal keys in descending row
   * order.
   */
  lemma DeletionOrderSorted(sel: seq<Path>)
    ensures multiset(DeletionOrder(sel)) == multiset(sel)
    ensures var o := DeletionOrder(sel);
            forall i, j :: 0 <= i < j < |o| ==>
              SortKey(o[i]) > SortKey(o[j]) || (SortKey(o[i]) == SortKey(o[j]) && Row(o[i]) >= Row(o[j]))
  {
    assert SortedBy(sel, []);
    SortDescStable(sel, ByRow, []);
    SortDescStable(SortDesc(sel, ByRow), ByKey, [ByRow]);
    var o := DeletionOrder(sel);
    assert [ByKey] + [ByRow] == [ByKey, ByRow];
    forall i, j | 0 <= i < j < |o|
      ensures SortKey(o[i]) > SortKey(o[j]) || (SortKey(o[i]) == SortKey(o[j]) && Row(o[i]) >= Row(o[j]))
    {
      BeforeKeyRow(o[i], o[j]);
    }
  }

  lemma BeforeKeyRow(a: Path, b: Path)
    requires Before([ByKey, ByRow], a, b)
    ensures SortKey(a) > SortKey(b) || (SortKey(a) == SortKey(b) && Row(a) >= Row(b))
  {
    assert [ByKey, ByRow][1..] == [ByRow];
    assert [ByRow][1..] == [];
  }

  /** No element of the order disturbs a later one. */
  predicate Safe(order: seq<Path>)
  {
    forall i, j :: 0 <= i < j < |order| ==> !Disturbs(order[i], order[j])
  }

  predicate Distinct(s: seq<Path>)
  {
    forall i, j :: 0 <= i < j < |s| ==> s[i] != s[j]
  }

  lemma {:induction false} DistinctCount(s: seq<Path>, x: Path)
    requires Distinct(s)
    ensures multiset(s)[x] <= 1
  {
    if s != [] {
      var n := |s| - 1;
      assert s == s[..n] + [s[n]];
      DistinctCount(s[..n], x);
      if x == s[n] {
        assert x !in s[..n];
      }
    }
  }

  /** A permutation of a list without duplicates has none. */
  lemma DistinctPermutation(a: seq<Path>, b: seq<Path>)
    requires multiset(a) == multiset(b) && Distinct(b)
    ensures Distinct(a)
  {
    forall i, j | 0 <= i < j < |a|
      ensures a[i] != a[j]
    {
      if a[i] == a[j] {
        assert a == a[..j] + a[j..];
        assert a[i] in a[..j] && a[j] in a[j..];
        assert multiset(a)[a[i]] == multiset(a[..j])[a[i]] + multiset(a[j..])[a[i]];
        DistinctCount(b, a[i]);
        assert false;
      }
    }
  }

  /** The selection holds at most one path made only of zeros. */
  predicate OneZeroPath(sel: seq<Path>)
  {
    forall i, j :: 0 <= i < j < |sel| ==> !(AllZero(sel[i]) && AllZero(sel[j]))
  }

  /**
   * With at most one all-zero path selected, no deletion disturbs an item
   * still to be deleted.
   */
  lemma DeletionOrderSafe(sel: seq<Path>)
    requires forall i :: 0 <= i < |sel| ==> sel[i] != []
    requires Distinct(sel) && OneZeroPath(sel)
    ensures Safe(DeletionOrder(sel))
  {
    var o := DeletionOrder(sel);
    DeletionOrderSorted(sel);
    DistinctPermutation(o, sel);
    forall i, j | 0 <= i < j < |o|
      ensures !Disturbs(o[i], o[j])
    {
      assert o[i] in multiset(sel) && o[j] in multiset(sel);
      var a :| 0 <= a < |sel| && sel[a] == o[i];
      var b :| 0 <= b < |sel| && sel[b] == o[j];
      assert a != b;
      assert !(AllZero(o[i]) && AllZero(o[j])) by {
        if a < b {
          assert !(AllZero(sel[a]) && AllZero(sel[b]));
        } else {
          assert !(AllZero(sel[b]) && AllZero(sel[a]));
        }
      }
      DisturbsKey(o[i], o[j]);
    }
  }

  /** Each path still names an item when its turn comes. */
  predicate DeletableInTurn(t: Item, order: seq<Path>)
    decreases |order|
  {
    order == [] ||
    (order[0] != [] && ValidPath(t, order[0]) && DeletableInTurn(Deleted(t, order[0]), order[1..]))
  }

  /** delete_item applied to each path in turn. */
  function DeletedInTurn(t: Item, order: seq<Path>): (u: Item)
    requires DeletableInTurn(t, order)
    ensures Own(u) == Own(t)
    decreases |order|
  {
    if order == [] then t else DeletedInTurn(Deleted(t, order[0]), order[1..])
  }

  /** A safe order of paths that name items can be deleted in turn. */
  lemma {:induction false} SafeDeletable(t: Item, order: seq<Path>)
    requires forall i :: 0 <= i < |order| ==> order[i] != [] && ValidPath(t, order[i])
    requires Safe(order)
    ensures DeletableInTurn(t, order)
    decreases |order|
  {
    if order != [] {
      var u := Deleted(t, order[0]);
      forall j | 1 <= j < |order|
        ensures ValidPath(u, order[j])
      {
        DeleteItemKeepsPath(t, order[0], order[j]);
      }
      assert Safe(order[1..]) by {
        forall i, j | 0 <= i < j < |order[1..]|
          ensures !Disturbs(order[1..][i], order[1..][j])
        {
          assert order[1..][i] == order[i + 1] && order[1..][j] == order[j + 1];
        }
      }
      SafeDeletable(u, order[1..]);
    }
  }

  /**
   * A selection of distinct items, at most one of them a path of zeros, can
   * be deleted in the deletion order: each path still names its item when
   * its turn comes.
   */
  lemma DeletionOrderDeletable(t: Item, sel: seq<Path>)
    requires forall i :: 0 <= i < |sel| ==> sel[i] != [] && ValidPath(t, sel[i])
    requires Distinct(sel) && OneZeroPath(sel)
    ensures DeletableInTurn(t, DeletionOrder(sel))
  {
    var o := DeletionOrder(sel);
    DeletionOrderSorted(sel);
    DeletionOrderSafe(sel);
    forall i | 0 <= i < |o|
      ensures o[i] != [] && ValidPath(t, o[i])
    {
      assert o[i] in multiset(sel);
      var a :| 0 <= a < |sel| && sel[a] == o[i];
    }
    SafeDeletable(t, o);
  }

  /** Deleting in turn keeps every item obeying the sum rule. */
  lemma {:induction false} DeletedInTurnKeepsSums(t: Item, order: seq<Path>)
    requires DeletableInTurn(t, order) && AllSummed(t)
    ensures AllSummed(DeletedInTurn(t, order))
    decreases |order|
  {
    if order != [] {
      DeleteItemKeepsSums(t, order[0]);
      DeletedInTurnKeepsSums(Deleted(t, order[0]), order[1..]);
    }
  }

  /**
   * Selecting a top-level item [0] and then its first row [0, 0]: both have
   * key 0 and row 0, so the parent is deleted first, after which [0, 0] no
   * longer names the selected row.
   */
  lemma DeletionOrderZeroExample()
    ensures DeletionOrder([[0], [0, 0]]) == [[0], [0, 0]]
    ensures Disturbs([0], [0, 0])
    ensures var t := EmptyRoot.(children := [NewItem(5).(children := [NewItem(5)])]);
            ValidPath(t, [0]) && ValidPath(t, [0, 0]) && !DeletableInTurn(t, DeletionOrder([[0], [0, 0]]))
  {
    KeySingle(0);
    KeyZero([0, 0]);
    SortDescPair([0], [0, 0], ByRow);
    SortDescPair([0], [0, 0], ByKey);
    var t := EmptyRoot.(children := [NewItem(5).(children := [NewItem(5)])]);
    assert ValidPath(t.children[0], [0]);
    var u := Deleted(t, [0]);
    DeletedUnfold(t, [0]);
    assert u.children == [];
    assert [[0], [0, 0]][1..] == [[0, 0]];
  }

  /** Two paths already in order by a key stay as they are. */
  lemma SortDescPair(x: Path, y: Path, key: SortBy)
    requires KeyOf(key, x) >= KeyOf(key, y)
    ensures SortDesc([x, y], key) == [x, y]
  {
    assert [x][..0] == [];
    assert SortDesc([x], key) == [x];
    assert [x][1..] == [];
    assert Insert([x], y, key) == [x, y];
    assert [x, y][..1] == [x];
  }

  /** Deleting deeper items first among equal keys and rows (the correction). */
  function FixedDeletionOrder(sel: seq<Path>): seq<Path>
  {
    SortDesc(SortDesc(SortDesc(sel, ByDepth), ByRow), ByKey)
  }

  /** The corrected order: by key, then row, then depth, each largest first. */
  lemma FixedDeletionOrderSorted(sel: seq<Path>)
    ensures multiset(FixedDeletionOrder(sel)) == multiset(sel)
    ensures SortedBy(FixedDeletionOrder(sel), [ByKey, ByRow, ByDepth])
  {
    assert SortedBy(sel, []);
    SortDescStable(sel, ByDepth, []);
    SortDescStable(SortDesc(sel, ByDepth), ByRow, [ByDepth]);
    assert [ByRow] + [ByDepth] == [ByRow, ByDepth];
    SortDescStable(SortDesc(SortDesc(sel, ByDepth), ByRow), ByKey, [ByRow, ByDepth]);
    assert [ByKey] + [ByRow, ByDepth] == [ByKey, ByRow, ByDepth];
  }

  /** An item ordered before another by key, row and depth does not disturb it. */
  lemma FixedBeforeUndisturbed(p: Path, r: Path)
    requires r != [] && p != r
    requires Before([ByKey, ByRow, ByDepth], p, r)
    ensures !Disturbs(p, r)
  {
    assert [ByKey, ByRow, ByDepth][1..] == [ByRow, ByDepth];
    assert [ByRow, ByDepth][1..] == [ByDepth];
    DisturbsKey(p, r);
    if p != [] && AllZero(p) && AllZero(r) && p < r {
      KeyZero(p);
      KeyZero(r);
    }
  }

  /** With the correction every selection of distinct items is deleted safely. */
  lemma FixedDeletionOrderSafe(sel: seq<Path>)
    requires forall i :: 0 <= i < |sel| ==> sel[i] != []
    requires Distinct(sel)
    ensures multiset(FixedDeletionOrder(sel)) == multiset(sel)
    ensures Safe(FixedDeletionOrder(sel))
  {
    FixedDeletionOrderSorted(sel);
    var o := FixedDeletionOrder(sel);
    DistinctPermutation(o, sel);
    forall i, j | 0 <= i < j < |o|
      ensures !Disturbs(o[i], o[j])
    {
      assert o[j] in multiset(sel);
      FixedBeforeUndisturbed(o[i], o[j]);
    }
  }

  // ---------------------------------------------------------------------------
  // handle_double_click_on_tree_item and update_bg_color_second_lvl_elements

  /** The item at p after a double click: editable exactly when it has no rows. */
  function DoubleClicked(t: Item, p: Path): (u: Item)
    requires ValidPath(t, p)
    ensures ValidPath(u, p) && (At(u, p).editable <==> At(t, p).children == [])
    ensures At(u, p).(editable := true) == At(t, p).(editable := true)
    ensures p != [] ==> Own(u) == Own(t)
  {
    var x := At(t, p);
    Replace(t, p, x.(editable := x.children == []))
  }

  /**
   * A double click makes the item editable if and only if it has no rows,
   * and changes nothing else.
   */
  lemma DoubleClickEditable(t: Item, p: Path, r: Path)
    requires ValidPath(t, p)
    ensures ValidPath(DoubleClicked(t, p), r) <==> ValidPath(t, r)
    ensures At(DoubleClicked(t, p), p).editable <==> At(t, p).children == []
    ensures ValidPath(t, r) ==>
              Own(At(DoubleClicked(t, p), r)) ==
                if r == p then Own(At(t, p)).(editable := At(t, p).children == []) else Own(At(t, r))
    ensures ValidPath(t, r) ==> At(DoubleClicked(t, p), r).children == At(t, r).children || r < p
  {
    var x := At(t, p);
    ReplaceOwn(t, p, x.(editable := x.children == []), r);
  }

  /** '#9CCC65' and '#EF5350'. */
  const Green: int := 0x9CCC65
  const Red: int := 0xEF5350

  /**
   * The brush a second-level item gets: a node green when its value is not
   * negative and red when it is, a leaf the default brush.
   */
  function SecondLevelBrush(it: Item): (b: Brush)
    ensures b == Solid(Green) <==> it.children != [] && it.value >= 0
    ensures b == Solid(Red) <==> it.children != [] && it.value < 0
    ensures b == NoBrush <==> it.children == []
  {
    if it.children != [] then (if it.value >= 0 then Solid(Green) else Solid(Red)) else NoBrush
  }

  function Painted(it: Item): (r: Item)
    ensures r.(background := it.background) == it
    ensures r.background == NoBrush <==> it.children == []
  {
    it.(background := SecondLevelBrush(it))
  }

  function RecolouredTop(top: Item): (r: Item)
    ensures Own(r) == Own(top) && |r.children| == |top.children|
    ensures forall j :: 0 <= j < |top.children| ==>
              r.children[j].(background := top.children[j].background) == top.children[j]
  {
    top.(children := seq(|top.children|, j requires 0 <= j < |top.children| => Painted(top.children[j])))
  }

  /** The tree after update_bg_color_second_lvl_elements. */
  function Recoloured(t: Item): (u: Item)
    ensures Own(u) == Own(t) && |u.children| == |t.children|
    ensures forall i :: 0 <= i < |t.children| ==> Own(u.children[i]) == Own(t.children[i])
  {
    t.(children := seq(|t.children|, i requires 0 <= i < |t.children| => RecolouredTop(t.children[i])))
  }

  /**
   * Recolouring sets the brush of the second-level items and touches
   * nothing else: the same paths exist, the invisible root and the top-level
   * items keep their own attributes, and everything below the second level
   * is unchanged.
   */
  lemma RecolouredAt(t: Item, r: Path)
    ensures ValidPath(Recoloured(t), r) <==> ValidPath(t, r)
    ensures ValidPath(t, r) ==> At(Recoloured(t), r).children == At(t, r).children || |r| < 2
    ensures ValidPath(t, r) && |r| == 2 ==>
              Own(At(Recoloured(t), r)) == Own(At(t, r)).(background := SecondLevelBrush(At(t, r)))
    ensures ValidPath(t, r) && |r| != 2 ==> Own(At(Recoloured(t), r)) == Own(At(t, r))
    ensures ValidPath(t, r) && |r| > 2 ==> At(Recoloured(t), r) == At(t, r)
  {
    var u := Recoloured(t);
    if |r| >= 1 && r[0] < |t.children| {
      var top := t.children[r[0]];
      var v := u.children[r[0]];
      assert v == RecolouredTop(top);
      var s := r[1..];
      if |s| >= 1 && s[0] < |top.children| {
        var c := top.children[s[0]];
        assert v.children[s[0]] == Painted(c);
        ValidPathOwnChildren(Painted(c), c, s[1..]);
        if ValidPath(c, s[1..]) {
          assert At(u, r) == At(Painted(c), s[1..]);
          assert At(t, r) == At(c, s[1..]);
        }
      }
    }
  }

  /** Items with the same rows have the same paths below them, and the same subtrees below the first. */
  lemma ValidPathOwnChildren(a: Item, b: Item, s: Path)
    requires a.children == b.children
    ensures ValidPath(a, s) <==> ValidPath(b, s)
    ensures ValidPath(a, s) && s != [] ==> At(a, s) == At(b, s)
  {
  }

  /** Recolouring twice is recolouring once. */
  lemma RecolouredIdempotent(t: Item)
    ensures Recoloured(Recoloured(t)) == t.(children := Recoloured(t).children)
    ensures Recoloured(Recoloured(t)) == Recoloured(t)
  {
    var u := Recoloured(t);
    assert forall i :: 0 <= i < |u.children| ==> RecolouredTop(u.children[i]) == u.children[i] by {
      forall i | 0 <= i < |u.children|
        ensures RecolouredTop(u.children[i]) == u.children[i]
      {
        var top := u.children[i];
        assert forall j :: 0 <= j < |top.children| ==> Painted(top.children[j]) == top.children[j];
      }
    }
  }

  // ---------------------------------------------------------------------------
  // The main window

  /** MainView: the window over a TreeViewModel. */
  class MainView {
    const model: TreeViewModel

    constructor (treeViewModel: TreeViewModel)
      ensures model == treeViewModel
    {
      model := treeViewModel;
    }

    /** handle_double_click_on_tree_item(index) for the item at p. */
    method HandleDoubleClickOnTreeItem(p: Path)
      requires p != [] && ValidPath(model.root, p)
      modifies model
      ensures model.root == DoubleClicked(old(model.root), p)
    {
      var item := At(model.root, p);
      if |item.children| > 0 {
        model.root := Replace(model.root, p, item.(editable := false));
      } else {
        model.root := Replace(model.root, p, item.(editable := true));
      }
    }

    /** update_bg_color_second_lvl_elements(): for each top-level item, for each of its rows. */
    method UpdateBgColorSecondLvlElements()
      modifies model
      ensures model.root == Recoloured(old(model.root))
    {
      ghost var t := model.root;
      for i := 0 to |model.root.children|
        invariant |model.root.children| == |t.children|
        invariant Own(model.root) == Own(t)
        invariant forall k :: 0 <= k < i ==> model.root.children[k] == RecolouredTop(t.children[k])
        invariant forall k :: i <= k < |t.children| ==> model.root.children[k] == t.children[k]
      {
        ghost var top := t.children[i];
        for ii := 0 to |model.root.children[i].children|
          invariant |model.root.children| == |t.children|
          invariant Own(model.root) == Own(t)
          invariant forall k :: 0 <= k < i ==> model.root.children[k] == RecolouredTop(t.children[k])
          invariant forall k :: i < k < |t.children| ==> model.root.children[k] == t.children[k]
          invariant Own(model.root.children[i]) == Own(top)
          invariant |model.root.children[i].children| == |top.children|
          invariant forall k :: 0 <= k < ii ==> model.root.children[i].children[k] == Painted(top.children[k])
          invariant forall k :: ii <= k < |top.children| ==> model.root.children[i].children[k] == top.children[k]
        {
          var lvl1 := model.root.children[i];
          var lvl2 := lvl1.children[ii];
          var brush;
          if |lvl2.children| > 0 {
            if lvl2.value >= 0 {
              brush := Solid(Green);
            } else {
              brush := Solid(Red);
            }
          } else {
            brush := NoBrush;
          }
          model.root := model.root.(children := model.root.children[i := lvl1.(children := lvl1.children[ii := lvl2.(background := brush)])]);
        }
        assert model.root.children[i].children == RecolouredTop(top).children;
        assert model.root.children[i] == RecolouredTop(top);
      }
      assert model.root.children == Recoloured(t).children;
    }

    /**
     * delete_tree_item() for the selected items sel: they are sorted by row
     * and then by key, both largest first, and deleted in that order.
     */
    method DeleteTreeItem(sel: seq<Path>)
      requires forall i :: 0 <= i < |sel| ==> sel[i] != [] && ValidPath(model.root, sel[i])
      requires Distinct(sel) && OneZeroPath(sel)
      modifies model
      ensures DeletableInTurn(old(model.root), DeletionOrder(sel))
      ensures model.root == DeletedInTurn(old(model.root), DeletionOrder(sel))
    {
      var indexes := SortDesc(sel, ByRow);
      indexes := SortDesc(indexes, ByKey);
      DeletionOrderDeletable(model.root, sel);
      ghost var t := model.root;
      for k := 0 to |indexes|
        invariant DeletableInTurn(model.root, indexes[k..])
        invariant DeletedInTurn(model.root, indexes[k..]) == DeletedInTurn(t, indexes)
      {
        assert indexes[k..][1..] == indexes[k + 1..];
        model.DeleteItem(indexes[k]);
      }
    }
  }
}
