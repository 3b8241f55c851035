/**
 * The item hierarchy behind the tree view: a QStandardItemModel is a tree of
 * QStandardItems whose text is an integer.  Items are modelled as values; an
 * item is addressed by its row path from the invisible root item, the empty
 * path naming the invisible root itself.
 */
module Items {

  /** A background brush: Qt's default (empty) brush or a solid colour 0xRRGGBB. */
  datatype Brush = NoBrush | Solid(rgb: int)

  /**
   * One QStandardItem: its integer text, its rows in order, its editable flag
   * and its background brush.
   */
  datatype Item = Item(value: int, children: seq<Item>, editable: bool, background: Brush)

  /** The nested lists that are loaded and saved: an int or a list of such values. */
  datatype Data = Int(n: int) | List(elems: seq<Data>)

  /** Row path from the invisible root item; [] is the root, [i] a top-level item. */
  type Path = seq<nat>

  /** A freshly constructed QStandardItem(str(v)): no rows, editable, default brush. */
  function NewItem(v: int): (it: Item)
    ensures it.value == v && it.children == [] && it.editable && it.background == NoBrush
  {
    Item(v, [], true, NoBrush)
  }

  /** The attributes an item carries itself, without its rows. */
  function Own(it: Item): (o: Item)
    ensures o.children == []
    ensures o.value == it.value && o.editable == it.editable && o.background == it.background
  {
    it.(children := [])
  }

  /** The sum of the values of a sequence of rows. */
  function Sum(items: seq<Item>): int
  {
    if items == [] then 0 else Sum(items[..|items| - 1]) + items[|items| - 1].value
  }

  /**
   * The sum rule for one item: an item with rows (a "node") shows the sum of
   * its rows' values; an item without rows (a "leaf") holds its own integer.
   */
  predicate Summed(it: Item)
  {
    it.children != [] ==> it.value == Sum(it.children)
  }

  /** True when p names an item of the tree rooted at t. */
  predicate ValidPath(t: Item, p: Path)
    decreases |p|
  {
    p == [] || (p[0] < |t.children| && ValidPath(t.children[p[0]], p[1..]))
  }

  /** The item that path p names. */
  function At(t: Item, p: Path): Item
    requires ValidPath(t, p)
    decreases |p|
  {
    if p == [] then t else At(t.children[p[0]], p[1..])
  }

  /** The tree t with the item at path p (and its whole subtree) replaced by x. */
  function Replace(t: Item, p: Path, x: Item): (u: Item)
    requires ValidPath(t, p)
    ensures ValidPath(u, p) && At(u, p) == x
    ensures p != [] ==> Own(u) == Own(t)
    decreases |p|
  {
    if p == [] then x
    else t.(children := t.children[p[0] := Replace(t.children[p[0]], p[1..], x)])
  }

  /** The path of the parent item: p without its last row. */
  function Parent(p: Path): (q: Path)
    requires |p| >= 1
    ensures |q| == |p| - 1 && q < p && q + [p[|p| - 1]] == p
  {
    p[..|p| - 1]
  }

  // ---------------------------------------------------------------------------
  // Sums

  lemma SumAppend(s: seq<Item>, x: Item)
    ensures Sum(s + [x]) == Sum(s) + x.value
  {
    assert (s + [x])[..|s|] == s;
  }

  lemma {:induction false} SumUpdate(s: seq<Item>, i: nat, x: Item)
    requires i < |s|
    ensures Sum(s[i := x]) == Sum(s) - s[i].value + x.value
  {
    var n := |s| - 1;
    if i < n {
      assert s[i := x][..n] == s[..n][i := x];
      SumUpdate(s[..n], i, x);
    } else {
      assert s[i := x][..n] == s[..n];
    }
  }

  lemma {:induction false} SumRemove(s: seq<Item>, i: nat)
    requires i < |s|
    ensures Sum(s[..i] + s[i + 1..]) == Sum(s) - s[i].value
  {
    var n := |s| - 1;
    if i == n {
      assert s[..i] + s[i + 1..] == s[..n];
    } else {
      var r := s[..i] + s[i + 1..];
      assert r[..|r| - 1] == s[..n][..i] + s[..n][i + 1..];
      assert r[|r| - 1] == s[n];
      SumRemove(s[..n], i);
    }
  }

  // ---------------------------------------------------------------------------
  // Paths

  /** Every prefix of a valid path is valid. */
  lemma {:induction false} PrefixValid(t: Item, p: Path, r: Path)
    requires ValidPath(t, p) && r <= p
    ensures ValidPath(t, r)
    decreases |p|
  {
    if r != [] {
      PrefixValid(t.children[p[0]], p[1..], r[1..]);
    }
  }

  /** The parent of a valid path is valid, and the last row is one of its rows. */
  lemma ParentValid(t: Item, p: Path)
    requires ValidPath(t, p) && p != []
    ensures ValidPath(t, Parent(p)) && p[|p| - 1] < |At(t, Parent(p)).children|
    ensures At(t, Parent(p)).children[p[|p| - 1]] == At(t, p)
  {
    PrefixValid(t, p, Parent(p));
    AtConcat(t, Parent(p), [p[|p| - 1]]);
  }

  /** A row of a valid path's item is reached by one more step. */
  lemma ChildValid(t: Item, p: Path, k: nat)
    requires ValidPath(t, p) && k < |At(t, p).children|
    ensures ValidPath(t, p + [k]) && At(t, p + [k]) == At(t, p).children[k]
  {
    AtConcat(t, p, [k]);
  }

  /** Walking p and then s is walking p + s. */
  lemma {:induction false} AtConcat(t: Item, p: Path, s: Path)
    requires ValidPath(t, p)
    ensures ValidPath(t, p + s) <==> ValidPath(At(t, p), s)
    ensures ValidPath(t, p + s) ==> At(t, p + s) == At(At(t, p), s)
    decreases |p|
  {
    if p == [] {
      assert p + s == s;
    } else {
      assert (p + s)[0] == p[0] && (p + s)[1..] == p[1..] + s;
      AtConcat(t.children[p[0]], p[1..], s);
    }
  }

  /**
   * What Replace(t, p, x) looks like along every path r: an ancestor of p (or
   * p itself) is the old item with the replacement made inside it; the
   * subtree below p is x's; every other item is untouched.
   */
  lemma {:induction false} ReplaceAt(t: Item, p: Path, x: Item, r: Path)
    requires ValidPath(t, p)
    ensures r <= p ==>
              && ValidPath(t, r) && ValidPath(Replace(t, p, x), r)
              && ValidPath(At(t, r), p[|r|..])
              && At(Replace(t, p, x), r) == Replace(At(t, r), p[|r|..], x)
    ensures p <= r ==>
              && (ValidPath(Replace(t, p, x), r) <==> ValidPath(x, r[|p|..]))
              && (ValidPath(x, r[|p|..]) ==> At(Replace(t, p, x), r) == At(x, r[|p|..]))
    ensures !(r <= p) && !(p <= r) ==>
              && (ValidPath(Replace(t, p, x), r) <==> ValidPath(t, r))
              && (ValidPath(t, r) ==> At(Replace(t, p, x), r) == At(t, r))
    decreases |p|
  {
    if p != [] && r != [] {
      var i := p[0];
      var c := t.children[i];
      var u := Replace(t, p, x);
      assert u.children == t.children[i := Replace(c, p[1..], x)];
      if r[0] == i {
        ReplaceAt(c, p[1..], x, r[1..]);
        assert r <= p <==> r[1..] <= p[1..];
        assert p <= r <==> p[1..] <= r[1..];
        assert r <= p ==> p[|r|..] == p[1..][|r[1..]|..];
        assert p <= r ==> r[|p|..] == r[1..][|p[1..]|..];
      } else {
        assert !(r <= p) && !(p <= r);
      }
    }
  }

  /**
   * Replacing the item at p by one with the same rows changes the item at p
   * and nothing else: the same paths exist, every other item keeps its own
   * attributes, and only the ancestors of p see a different subtree.
   */
  lemma ReplaceOwn(t: Item, p: Path, y: Item, r: Path)
    requires ValidPath(t, p) && y.children == At(t, p).children
    ensures ValidPath(Replace(t, p, y), r) <==> ValidPath(t, r)
    ensures ValidPath(t, r) ==> Own(At(Replace(t, p, y), r)) == if r == p then Own(y) else Own(At(t, r))
    ensures ValidPath(t, r) && !(r < p) ==> At(Replace(t, p, y), r).children == At(t, r).children
    ensures ValidPath(t, r) && !(r <= p) ==> At(Replace(t, p, y), r) == At(t, r)
  {
    ReplaceAt(t, p, y, r);
    if p <= r && r != p {
      var s := r[|p|..];
      assert r == p + s;
      AtConcat(t, p, s);
    }
  }

  /** Replacing at p and then at an ancestor q of p is replacing at q. */
  lemma {:induction false} ReplaceTwice(t: Item, p: Path, x: Item, q: Path, y: Item)
    requires ValidPath(t, p) && q <= p
    ensures ValidPath(t, q) && ValidPath(Replace(t, p, x), q)
    ensures Replace(Replace(t, p, x), q, y) == Replace(t, q, y)
    decreases |q|
  {
    ReplaceAt(t, p, x, q);
    if q != [] {
      ReplaceTwice(t.children[p[0]], p[1..], x, q[1..], y);
    }
  }
}
