/** Stacks of distinct items: taking one out, putting one in, lifting one below another. */
module Stacks {
  ghost predicate Distinct<T>(items: seq<T>) {
    forall i, j :: 0 <= i < j < |items| ==> items[i] != items[j]
  }

  ghost function IndexOf<T>(items: seq<T>, x: T): (h: int)
    ensures -1 <= h < |items|
    ensures h >= 0 ==> items[h] == x
    ensures h < 0 <==> x !in items
  {
    if h :| 0 <= h < |items| && items[h] == x then h else -1
  }

  function Without<T>(items: seq<T>, i: nat): (r: seq<T>)
    requires i < |items|
    ensures |r| == |items| - 1
  {
    items[..i] + items[i + 1..]
  }

  function Inserted<T>(items: seq<T>, at: nat, item: T): (r: seq<T>)
    requires at <= |items|
    ensures |r| == |items| + 1
  {
    items[..at] + [item] + items[at..]
  }

  /** The items without the one at h, if there is one. */
  function Removed<T>(items: seq<T>, h: int): (r: seq<T>)
    requires h < |items|
    ensures |r| == if h < 0 then |items| else |items| - 1
  {
    if h < 0 then items else Without(items, h)
  }

  ghost function Hidden<T>(items: seq<T>, x: T): (r: seq<T>) {
    Removed(items, IndexOf(items, x))
  }

  /** x comes to lie at a height, counted without it; on top if there are fewer items. */
  ghost function Lifted<T>(items: seq<T>, x: T, height: nat): (r: seq<T>) {
    var rest := Hidden(items, x);
    Inserted(rest, if height < |rest| then height else |rest|, x)
  }

  // ---------------------------------------------------------------- where the items go

  lemma WithoutAt<T>(items: seq<T>, i: nat)
    requires i < |items|
    ensures forall k :: 0 <= k < |items| - 1 ==> Without(items, i)[k] == items[if k < i then k else k + 1]
  {
  }

  lemma InsertedAt<T>(items: seq<T>, at: nat, item: T, k: nat)
    requires at <= |items| && k < |items|
    ensures Inserted(items, at, item)[if k < at then k else k + 1] == items[k]
  {
  }

  lemma WithoutInserted<T>(items: seq<T>, at: nat, item: T)
    requires at <= |items|
    ensures Inserted(items, at, item)[at] == item && Without(Inserted(items, at, item), at) == items
  {
  }

  lemma IndexUnique<T>(items: seq<T>, h: nat)
    requires Distinct(items) && h < |items|
    ensures IndexOf(items, items[h]) == h
  {
  }

  lemma HiddenIs<T>(items: seq<T>, x: T)
    requires Distinct(items)
    ensures Distinct(Hidden(items, x)) && x !in Hidden(items, x)
    ensures forall y :: y in Hidden(items, x) <==> y in items && y != x
  {
    var h := IndexOf(items, x);
    var rest := Hidden(items, x);
    if h >= 0 {
      WithoutAt(items, h);
      hide Without;
      forall y | y in items && y != x ensures y in rest {
        var i := IndexOf(items, y);
        assert rest[if i < h then i else i - 1] == y;
      }
    }
  }

  lemma NoneHidden<T>(x: T)
    ensures Distinct<T>([]) && Hidden([], x) == []
  {
  }

  lemma DistinctPrefix<T>(items: seq<T>, i: nat)
    requires Distinct(items) && i <= |items|
    ensures Distinct(items[..i])
  {
  }

  /** Where an item comes to be when another one is taken out. */
  lemma HiddenIndex<T>(items: seq<T>, x: T, y: T)
    requires Distinct(items) && y in items && y != x
    ensures y in Hidden(items, x)
    ensures IndexOf(Hidden(items, x), y) ==
      if 0 <= IndexOf(items, x) < IndexOf(items, y) then IndexOf(items, y) - 1 else IndexOf(items, y)
  {
    var h, i := IndexOf(items, x), IndexOf(items, y);
    HiddenIs(items, x);
    if h >= 0 {
      WithoutAt(items, h);
      IndexUnique(Hidden(items, x), if h < i then i - 1 else i);
    }
  }

  lemma HiddenAppend<T>(items: seq<T>, y: T, x: T)
    requires Distinct(items + [y])
    ensures Distinct(items)
    ensures Hidden(items + [y], x) == if y == x then items else Hidden(items, x) + [y]
    ensures y == x ==> Hidden(items, x) == items
  {
    hide Distinct, IndexOf;
    var all := items + [y];
    assert all[..|items|] == items;
    DistinctPrefix(all, |items|);
    LastIsNew(items, y);
    if y == x {
      IndexUnique(all, |items|);
    } else if x in items {
      var h := IndexOf(items, x);
      IndexUnique(all, h);
      assert Without(all, h) == Without(items, h) + [y];
    }
  }

  lemma LastIsNew<T>(items: seq<T>, y: T)
    requires Distinct(items + [y])
    ensures y !in items
  {
    var all := items + [y];
    forall i | 0 <= i < |items| ensures items[i] != y {
      assert all[i] != all[|items|];
    }
  }

  lemma InsertedIs<T>(items: seq<T>, at: nat, x: T)
    requires Distinct(items) && at <= |items| && x !in items
    ensures Distinct(Inserted(items, at, x))
    ensures forall y :: y in Inserted(items, at, x) <==> y == x || y in items
  {
    var all := Inserted(items, at, x);
    forall k | 0 <= k < |all| ensures all[k] == if k < at then items[k] else if k == at then x else items[k - 1] {
    }
    assert all[at] == x;
    hide Inserted;
    forall y | y in items ensures y in all {
      var i := IndexOf(items, y);
      assert all[if i < at then i else i + 1] == y;
    }
  }

  lemma LiftedIs<T>(items: seq<T>, x: T, height: nat)
    requires Distinct(items)
    ensures Distinct(Lifted(items, x, height))
    ensures forall y :: y in Lifted(items, x, height) <==> y == x || y in items
    ensures Hidden(Lifted(items, x, height), x) == Hidden(items, x)
    ensures IndexOf(Lifted(items, x, height), x) == if height < |Hidden(items, x)| then height else |Hidden(items, x)|
  {
    var rest := Hidden(items, x);
    var at := if height < |rest| then height else |rest|;
    HiddenIs(items, x);
    InsertedIs(rest, at, x);
    WithoutInserted(rest, at, x);
    var all := Lifted(items, x, height);
    IndexUnique(all, at);
    hide Inserted, Without, Distinct;
  }

  lemma LiftedWithin<T>(items: seq<T>, x: T, height: nat, all: seq<T>)
    requires Distinct(items) && x in all && forall y :: y in items ==> y in all
    ensures forall y :: y in Lifted(items, x, height) ==> y in all
  {
    LiftedIs(items, x, height);
    hide *;
  }

  /** Lifting in terms of the place where x is found. */
  lemma LiftedFrom<T>(items: seq<T>, x: T, height: nat, h: nat)
    requires Distinct(items) && h <= |items| && (if h < |items| then items[h] == x else x !in items)
    ensures var at := if height < |items| then height else |items|;
      Lifted(items, x, height) == if h == |items| then Inserted(items, at, x)
                                  else Inserted(Without(items, h), if at == |items| then at - 1 else at, x)
  {
    if h < |items| {
      IndexUnique(items, h);
    }
  }

  /** Lifting x to the bottom and from there to one below the height of mouse puts it directly below
      mouse. */
  lemma LiftedBelow<T>(items: seq<T>, x: T, mouse: T)
    requires Distinct(items) && mouse in items && mouse != x
    ensures var low := Lifted(items, x, 0); var rest := Hidden(items, x);
      && IndexOf(low, mouse) == IndexOf(rest, mouse) + 1 && mouse in rest
      && Lifted(low, x, IndexOf(rest, mouse)) == Inserted(rest, IndexOf(rest, mouse), x)
  {
    var rest, low := Hidden(items, x), Lifted(items, x, 0);
    HiddenIs(items, x);
    LiftedIs(items, x, 0);
    var j := IndexOf(rest, mouse);
    InsertedAt(rest, 0, x, j);
    IndexUnique(low, j + 1);
  }

  /** What belongs to the items that stay, stays. */
  lemma LooksKept<T, U>(was: seq<T>, looks: seq<U>, looks': seq<U>, h: int)
    requires h < |was| && |looks| == |was| && |looks'| == |Removed(was, h)|
    requires forall i, k :: 0 <= i < |was| && 0 <= k < |looks'| && was[i] == Removed(was, h)[k] ==> looks[i] == looks'[k]
    ensures looks' == Removed(looks, h)
  {
    if h >= 0 {
      WithoutAt(was, h);
      WithoutAt(looks, h);
    }
    hide Without;
    forall k | 0 <= k < |looks'| ensures looks'[k] == Removed(looks, h)[k] {
      var i := if h < 0 || k < h then k else k + 1;
      assert was[i] == Removed(was, h)[k];
    }
  }

  /** What belongs to the other items is reordered with them. */
  lemma LooksFollow<T, U>(was: seq<T>, now: seq<T>, looks: seq<U>, looks': seq<U>, h: int, j: nat, item: T)
    requires h < |was| && j <= |Removed(was, h)| && now == Inserted(Removed(was, h), j, item)
    requires |looks| == |was| && |looks'| == |now|
    requires item !in Removed(was, h)
    requires forall i, k :: 0 <= i < |was| && 0 <= k < |now| && was[i] == now[k] && was[i] != item ==> looks[i] == looks'[k]
    ensures Without(looks', j) == Removed(looks, h)
  {
    var rest := Removed(was, h);
    WithoutAt(looks', j);
    if h >= 0 {
      WithoutAt(was, h);
      WithoutAt(looks, h);
    }
    hide Without, Inserted;
    forall k | 0 <= k < |rest| ensures Without(looks', j)[k] == Removed(looks, h)[k] {
      var i := if h < 0 || k < h then k else k + 1;
      InsertedAt(rest, j, item, k);
      assert rest[k] == was[i] == now[if k < j then k else k + 1];
    }
  }
}
