/**
 * TreeViewModel (src/models.py): the item model behind the tree view.  Every
 * structural or value change recomputes, bottom-up, the values of the
 * changed item's ancestors as the sum of their rows.
 *
 * Each operation is first given as a function on the tree (the reference
 * definition the class methods are proved against), followed by the lemmas
 * that say what it does.
 */
module Models {
  import opened Items

  // ---------------------------------------------------------------------------
  // update_node_data and update_item_parents_data

  /** update_node_data(item): the item at p takes the sum of its rows' values. */
  function Resummed(t: Item, p: Path): (u: Item)
    requires ValidPath(t, p)
    ensures ValidPath(u, p) && At(u, p).children == At(t, p).children && Summed(At(u, p))
    ensures Own(At(u, p)) == Own(At(t, p)).(value := At(u, p).value)
  {
    var x := At(t, p);
    Replace(t, p, x.(value := Sum(x.children)))
  }

  /**
   * update_item_parents_data(item): while the item has a parent (a top-level
   * item has none), resum the parent and continue from it.
   */
  function ParentsResummed(t: Item, p: Path): (u: Item)
    requires ValidPath(t, p)
    ensures Own(u) == Own(t)
    decreases |p|
  {
    if |p| <= 1 then t
    else
      var q := Parent(p);
      PrefixValid(t, p, q);
      ParentsResummed(Resummed(t, q), q)
  }

  /** Every item from the top-level ancestor of p down to p itself obeys the sum rule. */
  ghost predicate SummedAlong(t: Item, p: Path)
  {
    forall a :: 1 <= |a| && a <= p && ValidPath(t, a) ==> Summed(At(t, a))
  }

  /** Every item of the tree except the invisible root obeys the sum rule. */
  ghost predicate AllSummed(t: Item)
  {
    forall r :: 1 <= |r| && ValidPath(t, r) ==> Summed(At(t, r))
  }

  /**
   * Resumming p changes the value of the item at p and nothing else: the
   * same paths exist, and every other item keeps its own attributes.
   */
  lemma ResummedAt(t: Item, p: Path, r: Path)
    requires ValidPath(t, p)
    ensures ValidPath(Resummed(t, p), r) <==> ValidPath(t, r)
    ensures ValidPath(t, r) ==>
              Own(At(Resummed(t, p), r)) ==
                if r == p then Own(At(t, p)).(value := Sum(At(t, p).children)) else Own(At(t, r))
    ensures ValidPath(t, r) && !(r < p) ==> At(Resummed(t, p), r).children == At(t, r).children
    ensures ValidPath(t, r) && !(r <= p) ==> At(Resummed(t, p), r) == At(t, r)
  {
    var x := At(t, p);
    ReplaceOwn(t, p, x.(value := Sum(x.children)), r);
  }

  /**
   * update_item_parents_data(item at p): the same paths exist; each proper
   * ancestor of p below the invisible root ends up showing the sum of its
   * rows; every other item, the root included, keeps its own attributes, and
   * nothing outside the chain of ancestors changes at all.
   */
  lemma {:induction false} ParentsResummedAt(t: Item, p: Path, r: Path)
    requires ValidPath(t, p)
    ensures ValidPath(ParentsResummed(t, p), r) <==> ValidPath(t, r)
    ensures ValidPath(t, r) && !(r < p) ==> At(ParentsResummed(t, p), r) == At(t, r)
    ensures ValidPath(t, r) && !(1 <= |r| && r < p) ==>
              Own(At(ParentsResummed(t, p), r)) == Own(At(t, r))
    ensures ValidPath(t, r) && 1 <= |r| && r < p ==>
              && At(ParentsResummed(t, p), r).value == Sum(At(ParentsResummed(t, p), r).children)
              && Own(At(ParentsResummed(t, p), r)) == Own(At(t, r)).(value := At(ParentsResummed(t, p), r).value)
    decreases |p|
  {
    if |p| > 1 {
      var q := Parent(p);
      PrefixValid(t, p, q);
      var t1 := Resummed(t, q);
      ResummedAt(t, q, q);
      ResummedAt(t, q, r);
      ParentsResummedAt(t1, q, r);
      assert ParentsResummed(t, p) == ParentsResummed(t1, q);
      if r < p && r != q {
        assert r < q;
      }
    }
  }

  /**
   * When the item at p changes its value by d and every proper ancestor of p
   * obeyed the sum rule, update_item_parents_data changes the value of each
   * of those ancestors by exactly d.
   */
  lemma {:induction false} ParentsResummedDelta(t: Item, p: Path, x: Item, r: Path)
    requires ValidPath(t, p) && |p| >= 1 && SummedAlong(t, Parent(p))
    requires 1 <= |r| && r < p
    ensures ValidPath(t, r) && ValidPath(ParentsResummed(Replace(t, p, x), p), r)
    ensures At(ParentsResummed(Replace(t, p, x), p), r).value == At(t, r).value + x.value - At(t, p).value
    decreases |p|
  {
    var q := Parent(p);
    var i := p[|p| - 1];
    var tp := Replace(t, p, x);
    PrefixValid(t, p, q);
    PrefixValid(t, p, r);
    ReplaceAt(t, p, x, q);
    assert p[|q|..] == [i];
    var z := At(tp, q).(value := Sum(At(tp, q).children));
    assert At(tp, q).children == At(t, q).children[i := x];
    AtConcat(t, q, [i]);
    assert At(t, q).children[i] == At(t, p);
    SumUpdate(At(t, q).children, i, x);
    assert Summed(At(t, q));
    assert z.value == At(t, q).value + x.value - At(t, p).value;
    ReplaceTwice(t, p, x, q, z);
    assert ParentsResummed(tp, p) == ParentsResummed(Replace(t, q, z), q);
    ParentsResummedAt(Replace(t, q, z), q, r);
    if r != q {
      assert r < q;
      ParentsResummedDelta(t, q, z, r);
    }
  }

  // ---------------------------------------------------------------------------
  // add_item

  /**
   * The rows the target of add_item ends with: a childless target that is an
   * item (not the invisible root) is first promoted, its own value moving
   * into a first row; the new leaf is appended last.
   */
  function AddedRows(t: Item, p: Path, v: int): (rows: seq<Item>)
    requires ValidPath(t, p)
    ensures |rows| >= 1 && rows[|rows| - 1] == NewItem(v)
  {
    var x := At(t, p);
    if p != [] && x.children == [] then [NewItem(x.value), NewItem(v)]
    else x.children + [NewItem(v)]
  }

  /**
   * add_item(value, index): the item at p (the invisible root when there is
   * no index) gets the new row, then the new row's ancestors are resummed.
   */
  function Added(t: Item, p: Path, v: int): (u: Item)
    requires ValidPath(t, p)
    ensures p == [] ==> u == t.(children := t.children + [NewItem(v)])
  {
    var x := At(t, p);
    var rows := AddedRows(t, p, v);
    var t1 := Replace(t, p, x.(children := rows));
    ChildValid(t1, p, |rows| - 1);
    ParentsResummed(t1, p + [|rows| - 1])
  }

  /** Added as one replacement of the target followed by resumming its ancestors. */
  lemma AddedUnfold(t: Item, p: Path, v: int)
    requires ValidPath(t, p)
    ensures var x := At(t, p);
            var rows := AddedRows(t, p, v);
            var y := if p == [] then x.(children := rows) else x.(children := rows, value := Sum(rows));
            Added(t, p, v) == ParentsResummed(Replace(t, p, y), p)
  {
    var x := At(t, p);
    var rows := AddedRows(t, p, v);
    var t1 := Replace(t, p, x.(children := rows));
    var k := |rows| - 1;
    ChildValid(t1, p, k);
    if p == [] {
      assert [] + [k] == [k];
    } else {
      var y := x.(children := rows, value := Sum(rows));
      ParentsResummedStep(t1, p, k);
      assert Resummed(t1, p) == Replace(t1, p, y);
      ReplaceTwice(t, p, x.(children := rows), p, y);
    }
  }

  /** Resumming the ancestors of a row below p starts with p itself. */
  lemma ParentsResummedStep(t: Item, p: Path, k: nat)
    requires p != [] && ValidPath(t, p + [k])
    ensures ValidPath(t, p)
    ensures ParentsResummed(t, p + [k]) == ParentsResummed(Resummed(t, p), p)
  {
    PrefixValid(t, p + [k], p);
    assert |p + [k]| >= 2 && Parent(p + [k]) == p;
  }

  /**
   * add_item on a childless item promotes it to a node: its rows become
   * exactly its old value and the new value, in that order, and it shows
   * their sum; its own flags and brush stay as they were.
   */
  lemma AddItemPromotes(t: Item, p: Path, v: int)
    requires ValidPath(t, p) && p != [] && At(t, p).children == []
    ensures ValidPath(Added(t, p, v), p)
    ensures At(Added(t, p, v), p).children == [NewItem(At(t, p).value), NewItem(v)]
    ensures At(Added(t, p, v), p).value == At(t, p).value + v
    ensures Own(At(Added(t, p, v), p)) == Own(At(t, p)).(value := At(t, p).value + v)
  {
    AddedTargetAt(t, p, v);
    var rows := [NewItem(At(t, p).value), NewItem(v)];
    SumAppend([NewItem(At(t, p).value)], NewItem(v));
    assert [NewItem(At(t, p).value)] + [NewItem(v)] == rows;
    assert Sum([NewItem(At(t, p).value)]) == At(t, p).value by {
      assert [NewItem(At(t, p).value)] == [] + [NewItem(At(t, p).value)];
      SumAppend([], NewItem(At(t, p).value));
    }
  }

  /**
   * add_item on an item that already has rows appends the new leaf after
   * them and the item shows the sum of its rows; when it showed that sum
   * before, its value grows by exactly the new value.
   */
  lemma AddItemExtends(t: Item, p: Path, v: int)
    requires ValidPath(t, p) && p != [] && At(t, p).children != []
    ensures ValidPath(Added(t, p, v), p)
    ensures At(Added(t, p, v), p).children == At(t, p).children + [NewItem(v)]
    ensures At(Added(t, p, v), p).value == Sum(At(Added(t, p, v), p).children)
    ensures Summed(At(t, p)) ==> At(Added(t, p, v), p).value == At(t, p).value + v
    ensures Own(At(Added(t, p, v), p)) == Own(At(t, p)).(value := At(Added(t, p, v), p).value)
  {
    AddedTargetAt(t, p, v);
    SumAppend(At(t, p).children, NewItem(v));
  }

  /** The target of add_item after the call, as a helper for the lemmas above. */
  lemma AddedTargetAt(t: Item, p: Path, v: int)
    requires ValidPath(t, p) && p != []
    ensures ValidPath(Added(t, p, v), p)
    ensures At(Added(t, p, v), p) == At(t, p).(children := AddedRows(t, p, v), value := Sum(AddedRows(t, p, v)))
  {
    var x := At(t, p);
    var rows := AddedRows(t, p, v);
    var y := x.(children := rows, value := Sum(rows));
    AddedUnfold(t, p, v);
    ParentsResummedAt(Replace(t, p, y), p, p);
  }

  /**
   * add_item resums every ancestor of the target below the invisible root;
   * when the target and its ancestors obeyed the sum rule, each ancestor's
   * value grows by exactly the new value.
   */
  lemma AddItemAncestors(t: Item, p: Path, v: int, a: Path)
    requires ValidPath(t, p) && 1 <= |a| && a < p
    ensures ValidPath(t, a) && ValidPath(Added(t, p, v), a)
    ensures At(Added(t, p, v), a).value == Sum(At(Added(t, p, v), a).children)
    ensures SummedAlong(t, p) ==> At(Added(t, p, v), a).value == At(t, a).value + v
    ensures Own(At(Added(t, p, v), a)) == Own(At(t, a)).(value := At(Added(t, p, v), a).value)
  {
    var x := At(t, p);
    var rows := AddedRows(t, p, v);
    var y := x.(children := rows, value := Sum(rows));
    PrefixValid(t, p, a);
    AddedUnfold(t, p, v);
    ParentsResummedAt(Replace(t, p, y), p, a);
    ReplaceAt(t, p, y, a);
    assert p[|a|..] != [];
    if SummedAlong(t, p) {
      assert Summed(x);
      AddedTargetAt(t, p, v);
      if x.children == [] {
        AddItemPromotes(t, p, v);
      } else {
        AddItemExtends(t, p, v);
      }
      assert y.value == x.value + v;
      assert SummedAlong(t, Parent(p));
      ParentsResummedDelta(t, p, y, a);
    }
  }

  /**
   * add_item changes nothing outside the target's ancestors and subtree: the
   * invisible root keeps its own attributes, and every item that is neither
   * an ancestor nor a descendant of the target is unchanged.
   */
  lemma AddItemElsewhere(t: Item, p: Path, v: int, r: Path)
    requires ValidPath(t, p)
    ensures Own(Added(t, p, v)) == Own(t)
    ensures !(r <= p) && !(p <= r) ==>
              && (ValidPath(Added(t, p, v), r) <==> ValidPath(t, r))
              && (ValidPath(t, r) ==> At(Added(t, p, v), r) == At(t, r))
  {
    var x := At(t, p);
    var rows := AddedRows(t, p, v);
    var y := if p == [] then x.(children := rows) else x.(children := rows, value := Sum(rows));
    AddedUnfold(t, p, v);
    ParentsResummedAt(Replace(t, p, y), p, []);
    ReplaceAt(t, p, y, []);
    ParentsResummedAt(Replace(t, p, y), p, r);
    ReplaceAt(t, p, y, r);
  }

  /** add_item keeps the sum rule of a tree that obeyed it everywhere. */
  lemma AddItemKeepsSums(t: Item, p: Path, v: int)
    requires ValidPath(t, p) && AllSummed(t)
    ensures AllSummed(Added(t, p, v))
  {
    forall r | 1 <= |r| && ValidPath(Added(t, p, v), r)
      ensures Summed(At(Added(t, p, v), r))
    {
      AddedSummedAt(t, p, v, r);
    }
  }

  lemma AddedSummedAt(t: Item, p: Path, v: int, r: Path)
    requires ValidPath(t, p) && AllSummed(t)
    requires 1 <= |r| && ValidPath(Added(t, p, v), r)
    ensures Summed(At(Added(t, p, v), r))
  {
    var x := At(t, p);
    var rows := AddedRows(t, p, v);
    var y := if p == [] then x.(children := rows) else x.(children := rows, value := Sum(rows));
    var ty := Replace(t, p, y);
    AddedUnfold(t, p, v);
    ParentsResummedAt(ty, p, r);
    ReplaceAt(t, p, y, r);
    if r == p {
      SumAppend(x.children, NewItem(v));
    } else if p <= r {
      var s := r[|p|..];
      assert At(ty, r) == At(y, s);
      assert ValidPath(y, s) && s != [];
      assert y.children[s[0]] == rows[s[0]];
      AddedRowSummed(t, p, v, s);
    }
  }

  /** Below the target of add_item every item is an old one or one of the new leaves. */
  lemma AddedRowSummed(t: Item, p: Path, v: int, s: Path)
    requires ValidPath(t, p) && AllSummed(t) && s != []
    requires s[0] < |AddedRows(t, p, v)| && ValidPath(AddedRows(t, p, v)[s[0]], s[1..])
    ensures Summed(At(AddedRows(t, p, v)[s[0]], s[1..]))
  {
    var x := At(t, p);
    var rows := AddedRows(t, p, v);
    var j := s[0];
    if rows[j].children != [] {
      assert j < |x.children| && rows[j] == x.children[j];
      assert ValidPath(x, s) && At(x, s) == At(rows[j], s[1..]);
      AtConcat(t, p, s);
    }
  }

  // ---------------------------------------------------------------------------
  // delete_item

  /** The rows s without row i. */
  function Without(s: seq<Item>, i: nat): (w: seq<Item>)
    requires i < |s|
    ensures |w| == |s| - 1
    ensures forall j :: 0 <= j < i ==> w[j] == s[j]
    ensures forall j :: i <= j < |w| ==> w[j] == s[j + 1]
  {
    s[..i] + s[i + 1..]
  }

  /**
   * delete_item(index): the row at p is removed from its parent; a parent
   * that is an item (not the invisible root) is then resummed, and so are
   * its own ancestors.
   */
  function Deleted(t: Item, p: Path): (u: Item)
    requires ValidPath(t, p) && p != []
    ensures |p| == 1 ==> u == t.(children := Without(t.children, p[0]))
    ensures Own(u) == Own(t)
  {
    var q := Parent(p);
    var i := p[|p| - 1];
    ParentValid(t, p);
    var x := At(t, q);
    var t1 := Replace(t, q, x.(children := Without(x.children, i)));
    if q == [] then t1 else ParentsResummed(Resummed(t1, q), q)
  }

  /** Deleted as one replacement of the parent followed by resumming its ancestors. */
  lemma DeletedUnfold(t: Item, p: Path)
    requires ValidPath(t, p) && p != []
    ensures ValidPath(t, Parent(p)) && p[|p| - 1] < |At(t, Parent(p)).children|
    ensures var q := Parent(p);
            var rest := Without(At(t, q).children, p[|p| - 1]);
            var y := if q == [] then At(t, q).(children := rest) else At(t, q).(children := rest, value := Sum(rest));
            Deleted(t, p) == ParentsResummed(Replace(t, q, y), q)
  {
    var q := Parent(p);
    var i := p[|p| - 1];
    ParentValid(t, p);
    var x := At(t, q);
    var rest := Without(x.children, i);
    if q != [] {
      ReplaceTwice(t, q, x.(children := rest), q, x.(children := rest, value := Sum(rest)));
    }
  }

  /**
   * delete_item removes exactly the indexed row from its parent's rows; a
   * parent item then shows the sum of the rows left, so one left without
   * rows stays in the tree as a leaf showing 0.  The parent's flags and
   * brush are kept.
   */
  lemma DeleteItemRemovesRow(t: Item, p: Path)
    requires ValidPath(t, p) && p != []
    ensures ValidPath(t, Parent(p)) && p[|p| - 1] < |At(t, Parent(p)).children|
    ensures ValidPath(Deleted(t, p), Parent(p))
    ensures At(Deleted(t, p), Parent(p)).children == Without(At(t, Parent(p)).children, p[|p| - 1])
    ensures Parent(p) != [] ==> At(Deleted(t, p), Parent(p)).value == Sum(At(Deleted(t, p), Parent(p)).children)
    ensures Parent(p) != [] && |At(t, Parent(p)).children| == 1 ==>
              At(Deleted(t, p), Parent(p)).children == [] && At(Deleted(t, p), Parent(p)).value == 0
    ensures Own(At(Deleted(t, p), Parent(p))) == Own(At(t, Parent(p))).(value := At(Deleted(t, p), Parent(p)).value)
  {
    var q := Parent(p);
    ParentValid(t, p);
    var rest := Without(At(t, q).children, p[|p| - 1]);
    var y := if q == [] then At(t, q).(children := rest) else At(t, q).(children := rest, value := Sum(rest));
    DeletedUnfold(t, p);
    ParentsResummedAt(Replace(t, q, y), q, q);
  }

  /**
   * delete_item resums the ancestors of the removed row below the invisible
   * root: each of them ends up showing the sum of its rows.
   */
  lemma DeleteItemAncestors(t: Item, p: Path, a: Path)
    requires ValidPath(t, p) && 1 <= |a| && a < p
    ensures ValidPath(t, a) && ValidPath(Deleted(t, p), a)
    ensures At(Deleted(t, p), a).value == Sum(At(Deleted(t, p), a).children)
    ensures Own(At(Deleted(t, p), a)) == Own(At(t, a)).(value := At(Deleted(t, p), a).value)
  {
    var q := Parent(p);
    ParentValid(t, p);
    var rest := Without(At(t, q).children, p[|p| - 1]);
    var y := At(t, q).(children := rest, value := Sum(rest));
    PrefixValid(t, p, a);
    DeletedUnfold(t, p);
    assert Deleted(t, p) == ParentsResummed(Replace(t, q, y), q);
    ReplaceAt(t, q, y, a);
    ParentsResummedAt(Replace(t, q, y), q, a);
    if a != q {
      assert q[|a|..] != [];
    }
  }

  /**
   * When the parent of the deleted row and its ancestors obeyed the sum rule,
   * each of them loses exactly the deleted row's value.
   */
  lemma DeleteItemAncestorsLose(t: Item, p: Path, a: Path)
    requires ValidPath(t, p) && 1 <= |a| && a < p && SummedAlong(t, Parent(p))
    ensures ValidPath(t, a) && ValidPath(Deleted(t, p), a)
    ensures At(Deleted(t, p), a).value == At(t, a).value - At(t, p).value
  {
    var q := Parent(p);
    var i := p[|p| - 1];
    ParentValid(t, p);
    var x := At(t, q);
    var rest := Without(x.children, i);
    var y := x.(children := rest, value := Sum(rest));
    PrefixValid(t, p, a);
    DeletedUnfold(t, p);
    assert Deleted(t, p) == ParentsResummed(Replace(t, q, y), q);
    SumRemove(x.children, i);
    assert Summed(x);
    assert y.value == x.value - At(t, p).value;
    if a == q {
      ParentsResummedAt(Replace(t, q, y), q, q);
    } else {
      assert a < q;
      ParentsResummedDelta(t, q, y, a);
    }
  }

  /**
   * delete_item changes nothing outside the parent's ancestors and subtree:
   * the invisible root keeps its own attributes, and every item that is
   * neither an ancestor nor a descendant of the parent is unchanged.
   */
  lemma DeleteItemElsewhere(t: Item, p: Path, r: Path)
    requires ValidPath(t, p) && p != []
    ensures Own(Deleted(t, p)) == Own(t)
    ensures !(r <= Parent(p)) && !(Parent(p) <= r) ==>
              && (ValidPath(Deleted(t, p), r) <==> ValidPath(t, r))
              && (ValidPath(t, r) ==> At(Deleted(t, p), r) == At(t, r))
  {
    var q := Parent(p);
    ParentValid(t, p);
    var rest := Without(At(t, q).children, p[|p| - 1]);
    var y := if q == [] then At(t, q).(children := rest) else At(t, q).(children := rest, value := Sum(rest));
    DeletedUnfold(t, p);
    ParentsResummedAt(Replace(t, q, y), q, []);
    ReplaceAt(t, q, y, []);
    ParentsResummedAt(Replace(t, q, y), q, r);
    ReplaceAt(t, q, y, r);
  }

  /** delete_item keeps the sum rule of a tree that obeyed it everywhere. */
  lemma DeleteItemKeepsSums(t: Item, p: Path)
    requires ValidPath(t, p) && p != [] && AllSummed(t)
    ensures AllSummed(Deleted(t, p))
  {
    forall r | 1 <= |r| && ValidPath(Deleted(t, p), r)
      ensures Summed(At(Deleted(t, p), r))
    {
      DeletedSummedAt(t, p, r);
    }
  }

  lemma DeletedSummedAt(t: Item, p: Path, r: Path)
    requires ValidPath(t, p) && p != [] && AllSummed(t)
    requires 1 <= |r| && ValidPath(Deleted(t, p), r)
    ensures Summed(At(Deleted(t, p), r))
  {
    var q := Parent(p);
    var i := p[|p| - 1];
    ParentValid(t, p);
    var x := At(t, q);
    var rest := Without(x.children, i);
    var y := if q == [] then x.(children := rest) else x.(children := rest, value := Sum(rest));
    var tq := Replace(t, q, y);
    DeletedUnfold(t, p);
    ParentsResummedAt(tq, q, r);
    ReplaceAt(t, q, y, r);
    if q < r {
      var s := r[|q|..];
      assert At(tq, r) == At(y, s);
      assert ValidPath(y, s) && s != [];
      assert y.children == rest;
      DeletedRowSummed(t, p, s);
    }
  }

  /** Below the parent of the deleted row every item is an old one. */
  lemma DeletedRowSummed(t: Item, p: Path, s: Path)
    requires ValidPath(t, p) && p != [] && AllSummed(t) && s != []
    requires ValidPath(t, Parent(p)) && p[|p| - 1] < |At(t, Parent(p)).children|
    requires var rest := Without(At(t, Parent(p)).children, p[|p| - 1]);
             s[0] < |rest| && ValidPath(rest[s[0]], s[1..])
    ensures Summed(At(Without(At(t, Parent(p)).children, p[|p| - 1])[s[0]], s[1..]))
  {
    var q := Parent(p);
    var i := p[|p| - 1];
    var x := At(t, q);
    var rest := Without(x.children, i);
    var j := s[0];
    var k := if j < i then j else j + 1;
    assert rest[j] == x.children[k];
    var s' := [k] + s[1..];
    assert s'[1..] == s[1..];
    assert ValidPath(x, s') && At(x, s') == At(rest[j], s[1..]);
    AtConcat(t, q, s');
  }

  /**
   * Whether deleting the row at p disturbs the row at r: r is p itself or
   * lies inside p's subtree, or r runs through a later sibling of p, whose
   * row number drops by one.
   */
  predicate Disturbs(p: Path, r: Path)
  {
    p != [] &&
    (p <= r || (|p| <= |r| && Parent(p) <= r && r[|p| - 1] > p[|p| - 1]))
  }

  /**
   * A row that delete_item does not disturb keeps its path and is the same
   * row: off the parent's chain of ancestors it is unchanged, and on it it
   * keeps its flags and brush, only its value being resummed.
   */
  lemma DeleteItemKeepsPath(t: Item, p: Path, r: Path)
    requires ValidPath(t, p) && p != [] && ValidPath(t, r) && !Disturbs(p, r)
    ensures ValidPath(Deleted(t, p), r)
    ensures !(r <= Parent(p)) ==> At(Deleted(t, p), r) == At(t, r)
    ensures r <= Parent(p) ==> Own(At(Deleted(t, p), r)) == Own(At(t, r)).(value := At(Deleted(t, p), r).value)
  {
    var q := Parent(p);
    if r == [] {
    } else if r <= q {
      DeleteItemAncestors(t, p, r);
    } else {
      var i := p[|p| - 1];
      DeletedUnfold(t, p);
      var x := At(t, q);
      var rest := Without(x.children, i);
      var y := if q == [] then x.(children := rest) else x.(children := rest, value := Sum(rest));
      assert p == q + [i];
      assert q < r && r[|q|] == i ==> p <= r;
      WithoutKeepsPath(t, q, i, y, r);
      ParentsResummedAt(Replace(t, q, y), q, r);
    }
  }

  /**
   * Dropping row i of the item at q keeps every path that does not run
   * through row i or a later row of that item.
   */
  lemma WithoutKeepsPath(t: Item, q: Path, i: nat, y: Item, r: Path)
    requires ValidPath(t, q) && i < |At(t, q).children|
    requires y.children == Without(At(t, q).children, i)
    requires ValidPath(t, r) && (q < r ==> r[|q|] < i)
    ensures ValidPath(Replace(t, q, y), r)
    ensures !(r <= q) ==> At(Replace(t, q, y), r) == At(t, r)
  {
    ReplaceAt(t, q, y, r);
    if q < r {
      var s := r[|q|..];
      assert r == q + s;
      AtConcat(t, q, s);
      assert y.children[s[0]] == At(t, q).children[s[0]];
    }
  }

  // ---------------------------------------------------------------------------
  // load_data and get_data

  /**
   * The invisible root item after clear(): no rows; its text is empty in the
   * source, shown here as 0, and it is not editable.
   */
  const EmptyRoot: Item := Item(0, [], false, NoBrush)

  /**
   * The item update_item_data fills from one element, starting from a fresh
   * QStandardItem('0').  An int becomes a leaf holding it.  A list becomes an
   * item whose rows are its elements' items; because the item is resummed
   * before each row is appended, it ends up showing the sum of all its rows
   * but the last (0 for an empty or one-element list).
   */
  function Loaded(d: Data): (it: Item)
    ensures it.editable && it.background == NoBrush
    ensures it.children == [] <==> d.Int? || d.elems == []
    ensures d.Int? ==> it.value == d.n
    ensures d.List? ==> |it.children| == |d.elems|
    decreases d
  {
    match d
    case Int(n) => NewItem(n)
    case List(es) =>
      var rows := LoadedAll(es);
      NewItem(0).(value := if rows == [] then 0 else Sum(rows[..|rows| - 1]), children := rows)
  }

  /** The items of a list's elements, in order. */
  function LoadedAll(ds: seq<Data>): (rows: seq<Item>)
    ensures |rows| == |ds|
    ensures forall i :: 0 <= i < |ds| ==> (rows[i].children == [] <==> ds[i].Int? || ds[i].elems == [])
    ensures forall i :: 0 <= i < |ds| && ds[i].Int? ==> rows[i].value == ds[i].n
    decreases ds
  {
    seq(|ds|, i requires 0 <= i < |ds| => Loaded(ds[i]))
  }

  /**
   * What get_item_data(item) returns: one element per row, in row order; a
   * row without rows of its own gives its integer, a row with rows gives the
   * list of its rows' elements.
   */
  function ItemData(t: Item): (ds: seq<Data>)
    ensures |ds| == |t.children|
    ensures forall i :: 0 <= i < |ds| ==> (ds[i].Int? <==> t.children[i].children == [])
    ensures forall i :: 0 <= i < |ds| && ds[i].Int? ==> ds[i].n == t.children[i].value
    ensures forall i :: 0 <= i < |ds| && ds[i].List? ==> |ds[i].elems| == |t.children[i].children|
  {
    seq(|t.children|, i requires 0 <= i < |t.children| =>
      if t.children[i].children != [] then List(ItemData(t.children[i]))
      else Int(t.children[i].value))
  }

  /** What a list comes back as after load_data and get_data: an empty nested list becomes 0. */
  function Normalized(ds: seq<Data>): (ns: seq<Data>)
    ensures |ns| == |ds|
    decreases ds
  {
    seq(|ds|, i requires 0 <= i < |ds| => NormalizedOne(ds[i]))
  }

  function NormalizedOne(d: Data): Data
    decreases d
  {
    match d
    case Int(_) => d
    case List(es) => if es == [] then Int(0) else List(Normalized(es))
  }

  /** A list in which no nested list is empty. */
  predicate NoEmptyList(ds: seq<Data>)
    decreases ds
  {
    forall i :: 0 <= i < |ds| ==> (ds[i].List? ==> ds[i].elems != [] && NoEmptyList(ds[i].elems))
  }

  /**
   * get_data after load_data(ds) gives ds back, except that an empty nested
   * list comes back as 0; the values load_data leaves on the nodes do not
   * matter, as get_data reads only the leaves.
   */
  lemma {:induction false} ItemDataOfLoaded(x: Item, ds: seq<Data>)
    requires x.children == LoadedAll(ds)
    ensures ItemData(x) == Normalized(ds)
    decreases ds
  {
    forall i | 0 <= i < |ds|
      ensures ItemData(x)[i] == Normalized(ds)[i]
    {
      match ds[i]
      case Int(_) =>
      case List(es) =>
        if es != [] {
          ItemDataOfLoaded(Loaded(ds[i]), es);
        }
    }
  }

  /** Without empty nested lists the round trip is exact. */
  lemma {:induction false} NormalizedNoEmptyList(ds: seq<Data>)
    requires NoEmptyList(ds)
    ensures Normalized(ds) == ds
    decreases ds
  {
    forall i | 0 <= i < |ds|
      ensures Normalized(ds)[i] == ds[i]
    {
      match ds[i]
      case Int(_) =>
      case List(es) =>
        NormalizedNoEmptyList(es);
    }
  }

  /**
   * A node built by load_data obeys the sum rule exactly when its last row
   * shows 0: its value leaves that row out.
   */
  lemma LoadedNodeSum(es: seq<Data>)
    requires es != []
    ensures var it := Loaded(List(es));
            it.value == Sum(it.children) - it.children[|it.children| - 1].value
    ensures Summed(Loaded(List(es))) <==> Loaded(es[|es| - 1]).value == 0
  {
    var rows := LoadedAll(es);
    assert rows == rows[..|rows| - 1] + [rows[|rows| - 1]];
    SumAppend(rows[..|rows| - 1], rows[|rows| - 1]);
  }

  /** The smallest input that shows it: [[1, 2]] loads as a node showing 1 over rows 1 and 2. */
  lemma LoadQuirkExample()
    ensures var it := Loaded(List([Int(1), Int(2)]));
            it.children == [NewItem(1), NewItem(2)] && it.value == 1 && !Summed(it)
  {
    var rows := LoadedAll([Int(1), Int(2)]);
    assert rows == [NewItem(1), NewItem(2)];
    assert rows[..1] == [NewItem(1)];
    assert Sum([NewItem(1)]) == 1 by { assert [NewItem(1)][..0] == []; }
    assert Sum(rows) == 3 by { assert rows[..1] == [NewItem(1)]; }
  }

  /**
   * Loading as evidently intended: a node is resummed after its last row is
   * appended, so it shows the sum of all its rows.
   */
  function LoadedSummed(d: Data): (it: Item)
    ensures it.children == [] ==> it.value == (if d.Int? then d.n else 0)
    decreases d
  {
    match d
    case Int(n) => NewItem(n)
    case List(es) =>
      var rows := LoadedSummedAll(es);
      NewItem(0).(value := Sum(rows), children := rows)
  }

  function LoadedSummedAll(ds: seq<Data>): (rows: seq<Item>)
    ensures |rows| == |ds|
    decreases ds
  {
    seq(|ds|, i requires 0 <= i < |ds| => LoadedSummed(ds[i]))
  }

  /** Every item of a subtree obeys the sum rule. */
  ghost predicate SummedTree(it: Item)
  {
    forall r :: ValidPath(it, r) ==> Summed(At(it, r))
  }

  lemma {:induction false} LoadedSummedTree(d: Data)
    ensures SummedTree(LoadedSummed(d))
    decreases d
  {
    var it := LoadedSummed(d);
    forall r | ValidPath(it, r)
      ensures Summed(At(it, r))
    {
      match d
      case Int(_) =>
      case List(es) =>
        if r != [] {
          assert it.children == LoadedSummedAll(es);
          assert it.children[r[0]] == LoadedSummed(es[r[0]]);
          LoadedSummedTree(es[r[0]]);
        }
    }
  }

  /** With the correction every loaded item obeys the sum rule... */
  lemma LoadedSummedAllSummed(ds: seq<Data>)
    ensures AllSummed(EmptyRoot.(children := LoadedSummedAll(ds)))
  {
    var root := EmptyRoot.(children := LoadedSummedAll(ds));
    forall r | 1 <= |r| && ValidPath(root, r)
      ensures Summed(At(root, r))
    {
      LoadedSummedTree(ds[r[0]]);
      assert At(root, r) == At(LoadedSummed(ds[r[0]]), r[1..]);
    }
  }

  /** ...and get_data gives the same lists back, as it reads only the leaves. */
  lemma {:induction false} ItemDataOfLoadedSummed(x: Item, ds: seq<Data>)
    requires x.children == LoadedSummedAll(ds)
    ensures ItemData(x) == Normalized(ds)
    decreases ds
  {
    forall i | 0 <= i < |ds|
      ensures ItemData(x)[i] == Normalized(ds)[i]
    {
      match ds[i]
      case Int(_) =>
      case List(es) =>
        if es != [] {
          ItemDataOfLoadedSummed(LoadedSummed(ds[i]), es);
        }
    }
  }

  // ---------------------------------------------------------------------------
  // The model object

  /**
   * update_item_data(QStandardItem('0'), d), the helper nested in load_data:
   * an int is set as the item's text; for a list, each element's item is
   * built, then the item is resummed (update_node_data), then the element's
   * item is appended as its last row.
   */
  method UpdateItemData(d: Data) returns (item: Item)
    ensures item == Loaded(d)
    decreases d
  {
    item := NewItem(0);
    match d {
      case Int(n) =>
        item := item.(value := n);
      case List(es) =>
        for i := 0 to |es|
          invariant item.children == LoadedAll(es[..i])
          invariant item.value == if i == 0 then 0 else Sum(item.children[..i - 1])
          invariant item.editable && item.background == NoBrush
        {
          var child := UpdateItemData(es[i]);
          item := item.(value := Sum(item.children));
          assert LoadedAll(es[..i + 1]) == LoadedAll(es[..i]) + [child];
          item := item.(children := item.children + [child]);
          assert item.children[..i] == LoadedAll(es[..i]);
        }
        assert es[..|es|] == es;
    }
  }

  /** get_item_data(item): the loop over the item's rows. */
  method GetItemData(t: Item) returns (ds: seq<Data>)
    ensures ds == ItemData(t)
    decreases t
  {
    ds := [];
    for i := 0 to |t.children|
      invariant ds == ItemData(t)[..i]
    {
      var child := t.children[i];
      if child.children != [] {
        var sub := GetItemData(child);
        ds := ds + [List(sub)];
      } else {
        ds := ds + [Int(child.value)];
      }
    }
  }

  /**
   * TreeViewModel: a QStandardItemModel whose items hold integers.  The
   * dataUpdated signal that add_item, delete_item and load_data emit at
   * their end is not modelled.
   */
  class TreeViewModel {
    /** The invisible root item; its rows are the top-level items. */
    var root: Item

    constructor ()
      ensures root == EmptyRoot
    {
      root := EmptyRoot;
    }

    /** update_node_data(item) for the item at p. */
    method UpdateNodeData(p: Path)
      requires ValidPath(root, p)
      modifies this
      ensures root == Resummed(old(root), p)
      ensures ValidPath(root, p) && At(root, p).value == Sum(At(old(root), p).children)
      ensures At(old(root), p).children == [] ==> At(root, p).value == 0
    {
      var item := At(root, p);
      root := Replace(root, p, item.(value := Sum(item.children)));
    }

    /** update_item_parents_data(item) for the item at p. */
    method UpdateItemParentsData(p: Path)
      requires ValidPath(root, p)
      modifies this
      ensures root == ParentsResummed(old(root), p)
      decreases |p|
    {
      if |p| > 1 {
        var parent := Parent(p);
        PrefixValid(root, p, parent);
        UpdateNodeData(parent);
        UpdateItemParentsData(parent);
      }
    }

    /**
     * add_item(value, index): p is the index's path, [] when no index is
     * given (the invisible root item).
     */
    method AddItem(v: int, p: Path)
      requires ValidPath(root, p)
      modifies this
      ensures root == Added(old(root), p, v)
    {
      ghost var t := root;
      ghost var rows := AddedRows(t, p, v);
      var parent := At(root, p);
      if p != [] && parent.children == [] {
        var promoted := parent.(children := [NewItem(parent.value)]);
        root := Replace(root, p, promoted);
        ReplaceTwice(t, p, promoted, p, promoted.(children := rows));
        parent := At(root, p);
      }
      assert parent.children + [NewItem(v)] == rows;
      var k := |parent.children|;
      root := Replace(root, p, parent.(children := parent.children + [NewItem(v)]));
      assert root == Replace(t, p, At(t, p).(children := rows));
      AtConcat(root, p, [k]);
      UpdateItemParentsData(p + [k]);
    }

    /** delete_item(index) for the item at p. */
    method DeleteItem(p: Path)
      requires ValidPath(root, p) && p != []
      modifies this
      ensures root == Deleted(old(root), p)
    {
      var q := Parent(p);
      ParentValid(root, p);
      var parent := At(root, q);
      root := Replace(root, q, parent.(children := Without(parent.children, p[|p| - 1])));
      if q != [] {
        UpdateNodeData(q);
        UpdateItemParentsData(q);
      }
    }

    /**
     * load_data(data): clear the model, then build one top-level item per
     * element and append it to the invisible root.
     */
    method LoadData(data: seq<Data>)
      modifies this
      ensures root == EmptyRoot.(children := LoadedAll(data))
      ensures ItemData(root) == Normalized(data)
    {
      root := EmptyRoot;
      for i := 0 to |data|
        invariant root == EmptyRoot.(children := LoadedAll(data[..i]))
      {
        var item := UpdateItemData(data[i]);
        assert LoadedAll(data[..i + 1]) == LoadedAll(data[..i]) + [item];
        root := root.(children := root.children + [item]);
      }
      assert data[..|data|] == data;
      ItemDataOfLoaded(root, data);
    }

    /** get_data(): the nested list of the invisible root's rows. */
    method GetData() returns (data: seq<Data>)
      ensures data == ItemData(root)
    {
      data := GetItemData(root);
    }
  }
}
