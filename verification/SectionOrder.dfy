/** In which orders removed sections can be put back: exactly when this gives the list back, and with
    it every pointer.
*/
module SectionOrder {
  import opened Optional
  import opened SectionChain
  import opened SectionRestore

  // ----- the list without some of its members

  function ToSet(xs: seq<Section>): set<Section> {
    set x | x in xs
  }

  function Without(list: seq<Section>, r: set<Section>): seq<Section> {
    if list == [] then []
    else (if list[0] in r then [] else [list[0]]) + Without(list[1..], r)
  }

  lemma {:induction false} WithoutAppend(a: seq<Section>, b: seq<Section>, r: set<Section>)
    ensures Without(a + b, r) == Without(a, r) + Without(b, r)
    decreases a
  {
    if a == [] {
      assert a + b == b;
    } else {
      assert (a + b)[1..] == a[1..] + b;
      WithoutAppend(a[1..], b, r);
    }
  }

  lemma {:induction false} WithoutMembers(list: seq<Section>, r: set<Section>, x: Section)
    ensures x in Without(list, r) <==> x in list && x !in r
    ensures Distinct(list) ==> Distinct(Without(list, r))
    decreases list
  {
    if list == [] {
    } else {
      WithoutMembers(list[1..], r, x);
      WithoutMembers(list[1..], r, list[0]);
      assert list == [list[0]] + list[1..];
    }
  }

  lemma {:induction false} WithoutMore(list: seq<Section>, r: set<Section>, x: Section)
    requires x !in list
    ensures Without(list, r + {x}) == Without(list, r)
    decreases list
  {
    if list == [] {
    } else {
      WithoutMore(list[1..], r, x);
    }
  }

  lemma {:induction false} WithoutNone(list: seq<Section>)
    ensures Without(list, {}) == list
    decreases list
  {
    if list == [] {
    } else {
      WithoutNone(list[1..]);
    }
  }

  lemma WithoutAround(list: seq<Section>, r: set<Section>, i: nat)
    requires i < |list| && list[i] !in r
    ensures Without(list, r) == Without(list[..i], r) + [list[i]] + Without(list[i + 1..], r)
  {
    assert list == list[..i] + [list[i]] + list[i + 1..];
    WithoutAppend(list[..i] + [list[i]], list[i + 1..], r);
    WithoutAppend(list[..i], [list[i]], r);
    assert [list[i]][1..] == [];
  }

  lemma WithoutAroundMore(list: seq<Section>, r: set<Section>, i: nat)
    requires Distinct(list) && i < |list|
    ensures Without(list, r + {list[i]}) == Without(list[..i], r) + Without(list[i + 1..], r)
  {
    var x := list[i];
    assert list == list[..i] + [x] + list[i + 1..];
    WithoutAppend(list[..i] + [x], list[i + 1..], r + {x});
    WithoutAppend(list[..i], [x], r + {x});
    assert [x][1..] == [];
    WithoutMore(list[..i], r, x);
    WithoutMore(list[i + 1..], r, x);
  }

  lemma {:induction false} WithoutTwice(list: seq<Section>, r: set<Section>, x: Section)
    ensures Without(Without(list, r), {x}) == Without(list, r + {x})
    decreases list
  {
    if list == [] {
    } else {
      WithoutTwice(list[1..], r, x);
      WithoutAppend(if list[0] in r then [] else [list[0]], Without(list[1..], r), {x});
      assert [list[0]][1..] == [];
    }
  }

  /** The position of the nearest section to the left of i that is not in `r`; -1 if there is none. */
  function LeftOf(list: seq<Section>, r: set<Section>, i: nat): (j: int)
    requires i <= |list|
    ensures -1 <= j < i
    ensures j >= 0 ==> list[j] !in r
    ensures forall k :: j < k < i ==> list[k] in r
  {
    if i == 0 then -1 else if list[i - 1] !in r then i - 1 else LeftOf(list, r, i - 1)
  }

  lemma LeftOfIs(list: seq<Section>, r: set<Section>, i: nat, j: int)
    requires -1 <= j < i <= |list|
    requires j >= 0 ==> list[j] !in r
    requires forall k :: j < k < i ==> list[k] in r
    ensures LeftOf(list, r, i) == j
  {
  }

  /** It is the last of what is left of the part before i. */
  lemma {:induction false} LastLeft(list: seq<Section>, r: set<Section>, i: nat)
    requires i <= |list|
    ensures var front := Without(list[..i], r);
            At(front, |front| - 1) == At(list, LeftOf(list, r, i))
    decreases i
  {
    if i == 0 {
    } else {
      assert list[..i] == list[..i - 1] + [list[i - 1]];
      WithoutAppend(list[..i - 1], [list[i - 1]], r);
      assert [list[i - 1]][1..] == [];
      if list[i - 1] in r {
        LastLeft(list, r, i - 1);
      }
    }
  }

  lemma Seam(front: seq<Section>, x: Section, back: seq<Section>)
    ensures var list := front + [x] + back;
            && list[|front|] == x
            && Around(list, |front|).prev == At(front, |front| - 1)
            && RemoveAt(list, |front|) == front + back
  {
  }

  /** Removing one more from what is left: what stays, and what the section points back at. */
  lemma RemoveOneMore(list: seq<Section>, r: set<Section>, i: nat)
    requires Distinct(list) && i < |list| && list[i] !in r
    ensures var rest := Without(list, r);
            && list[i] in rest
            && Around(rest, IndexOf(rest, list[i])).prev == At(list, LeftOf(list, r, i))
            && RemoveAt(rest, IndexOf(rest, list[i])) == Without(list, r + {list[i]})
  {
    var x, rest, front, back := list[i], Without(list, r), Without(list[..i], r), Without(list[i + 1..], r);
    WithoutMembers(list, r, x);
    WithoutAround(list, r, i);
    WithoutAroundMore(list, r, i);
    LastLeft(list, r, i);
    hide Without, LeftOf;
    Seam(front, x, back);
    IndexIs(rest, |front|);
  }

  /** Putting one back: the place is right exactly if the section before it is the nearest one left. */
  lemma InsertOneBack(list: seq<Section>, r: set<Section>, i: nat, k: nat)
    requires Distinct(list) && i < |list| && list[i] !in r
    requires k <= |Without(list, r + {list[i]})|
    ensures var rest := Without(list, r + {list[i]});
            InsertAt(rest, k, list[i]) == Without(list, r) <==> At(rest, k - 1) == At(list, LeftOf(list, r, i))
  {
    var x, front, back := list[i], Without(list[..i], r), Without(list[i + 1..], r);
    WithoutMembers(list, r + {x}, x);
    WithoutMembers(list, r, x);
    WithoutAround(list, r, i);
    WithoutAroundMore(list, r, i);
    LastLeft(list, r, i);
    hide Without, LeftOf;
    RightPlace(front, x, back, k);
  }

  lemma RightPlace(front: seq<Section>, x: Section, back: seq<Section>, k: nat)
    requires Distinct(front + back) && Distinct(front + [x] + back) && k <= |front + back|
    ensures InsertAt(front + back, k, x) == front + [x] + back <==> At(front + back, k - 1) == At(front, |front| - 1)
  {
    var list, whole := front + back, front + [x] + back;
    assert InsertAt(list, k, x)[k] == x && whole[|front|] == x;
    if k == |front| {
      assert list[..k] == front && list[k..] == back;
    } else {
      assert k > 0 ==> At(list, k - 1) == list[k - 1];
      assert |front| > 0 ==> At(front, |front| - 1) == list[|front| - 1];
    }
  }

  // ----- what the stale links say

  /** The section that `x` points back at, as it was left when `x` was removed. */
  function Prev(d: Chain, x: Section): Section? {
    LinksOf(d, x).prev
  }

  lemma ToSetStep(r: set<Section>, xs: seq<Section>, k: nat)
    requires 0 < k <= |xs|
    ensures r + {xs[0]} + ToSet(xs[1..][..k - 1]) == r + ToSet(xs[..k])
  {
    assert xs[..k] == [xs[0]] + xs[1..][..k - 1];
  }

  /** Removing `x` from what is left of `c` without `r`. */
  lemma RemovedIsWithout(c: Chain, e: Chain, r: set<Section>, x: Section)
    requires WellFormed(c) && e.list == Without(c.list, r) && x in e.list
    ensures x in c.list && x !in r
    ensures Removed(e, x).list == Without(c.list, r + {x})
    ensures Prev(Removed(e, x), x) == At(c.list, LeftOf(c.list, r, IndexOf(c.list, x)))
  {
    WithoutMembers(c.list, r, x);
    WithoutMembers(c.list, r + {x}, x);
    RemoveOneMore(c.list, r, IndexOf(c.list, x));
    hide Without, LeftOf, Distinct, NoStalePair, Closed;
  }

  lemma ToSetCons(r: set<Section>, xs: seq<Section>)
    requires xs != []
    ensures r + {xs[0]} + ToSet(xs[1..]) == r + ToSet(xs)
  {
    assert xs == [xs[0]] + xs[1..];
  }

  lemma {:induction false} RemoveAllIsWithout(c: Chain, e: Chain, r: set<Section>, xs: seq<Section>)
    requires WellFormed(c) && e.list == Without(c.list, r) && RemoveAll(e, xs).Some?
    ensures RemoveAll(e, xs).value.list == Without(c.list, r + ToSet(xs))
    decreases xs
  {
    if xs == [] {
      assert r + ToSet(xs) == r;
    } else {
      RemovedIsWithout(c, e, r, xs[0]);
      ToSetCons(r, xs);
      hide WellFormed, Without, Removed, ToSet;
      RemoveAllIsWithout(c, Removed(e, xs[0]), r + {xs[0]}, xs[1..]);
    }
  }

  /** Each removed section points back at the nearest one to its left not removed before it. */
  lemma {:induction false} StalePrev(c: Chain, e: Chain, r: set<Section>, xs: seq<Section>, k: nat)
    requires WellFormed(c) && WellFormed(e) && e.list == Without(c.list, r)
    requires RemoveAll(e, xs).Some? && k < |xs|
    ensures xs[k] in c.list
    ensures Prev(RemoveAll(e, xs).value, xs[k]) ==
            At(c.list, LeftOf(c.list, r + ToSet(xs[..k]), IndexOf(c.list, xs[k])))
    decreases k
  {
    var x, next := xs[0], Removed(e, xs[0]);
    RemovedKeeps(e, x);
    RemovedIsWithout(c, e, r, x);
    if k == 0 {
      assert x !in next.list by {
        RemovedPool(e, x);
      }
      StaleKept(next, xs[1..], x);
      assert r + ToSet(xs[..0]) == r;
    } else {
      ToSetStep(r, xs, k);
      hide WellFormed, Without, Removed, LeftOf;
      StalePrev(c, next, r + {x}, xs[1..], k - 1);
    }
  }

  // ----- putting back one after the other

  /** The chain with the sections in `r` still out, carrying the links they have in `d`. */
  function Partial(c: Chain, d: Chain, r: set<Section>): Chain {
    Chain(Without(c.list, r), map x | x in d.stale && (x in r || x in c.stale) :: d.stale[x])
  }

  /** `d` has the stale links of `c`, and more. */
  ghost predicate Extends(c: Chain, d: Chain) {
    forall x :: x in c.stale ==> x in d.stale && d.stale[x] == c.stale[x]
  }

  lemma PartialIsWhole(c: Chain, d: Chain)
    requires Extends(c, d)
    ensures Partial(c, d, {}) == c
  {
    WithoutNone(c.list);
    assert Partial(c, d, {}).stale == c.stale;
  }

  lemma {:induction false} StaleMember(c: Chain, xs: seq<Section>, x: Section)
    requires RemoveAll(c, xs).Some?
    ensures x in RemoveAll(c, xs).value.stale <==> x in c.stale || x in xs
    decreases xs
  {
    if xs == [] {
    } else {
      StaleMember(Removed(c, xs[0]), xs[1..], x);
      assert xs == [xs[0]] + xs[1..];
    }
  }

  lemma StaleExtends(c: Chain, xs: seq<Section>)
    requires WellFormed(c) && RemoveAll(c, xs).Some?
    ensures Extends(c, RemoveAll(c, xs).value)
  {
    var d := RemoveAll(c, xs).value;
    RemoveAllKeeps(c, xs);
    forall x | x in c.stale
      ensures x in d.stale && d.stale[x] == c.stale[x]
    {
      StaleMember(c, xs, x);
      StaleKept(c, xs, x);
    }
  }

  lemma RemovedIsPartial(c: Chain, xs: seq<Section>)
    requires WellFormed(c) && RemoveAll(c, xs).Some?
    ensures RemoveAll(c, xs).value == Partial(c, RemoveAll(c, xs).value, ToSet(xs))
  {
    var d, r := RemoveAll(c, xs).value, ToSet(xs);
    WithoutNone(c.list);
    RemoveAllIsWithout(c, c, {}, xs);
    assert {} + r == r;
    hide RemoveAll, WellFormed, Without;
    forall x: Section
      ensures x in d.stale <==> x in c.stale || x in xs
    {
      StaleMember(c, xs, x);
    }
    assert d.stale == Partial(c, d, r).stale;
  }

  lemma OutOfPartial(c: Chain, d: Chain, r: set<Section>, y: Section)
    requires WellFormed(c) && y in c.list && y !in r && y in d.stale && y !in d.list
    ensures y !in Partial(c, d, r + {y}).list && y in Partial(c, d, r + {y}).stale
    ensures Prev(Partial(c, d, r + {y}), y) == Prev(d, y)
    ensures Partial(c, d, r + {y}).stale - {y} == Partial(c, d, r).stale
  {
    WithoutMembers(c.list, r + {y}, y);
  }

  /** One section put back: it ends up where it was among those left exactly if it points back at the
      nearest one to its left. */
  lemma RestoreOne(c: Chain, d: Chain, r: set<Section>, y: Section)
    requires WellFormed(c) && y in c.list && y !in r && y in d.stale && y !in d.list
    ensures var e := Partial(c, d, r + {y});
            var q := At(c.list, LeftOf(c.list, r, IndexOf(c.list, y)));
            && (Prev(d, y) == q ==> Restore(e, y) == Some(Partial(c, d, r)))
            && (Prev(d, y) != q && Restore(e, y).Some? ==> Restore(e, y).value.list != Without(c.list, r))
  {
    var e, i, p := Partial(c, d, r + {y}), IndexOf(c.list, y), Prev(d, y);
    var j := LeftOf(c.list, r, i);
    OutOfPartial(c, d, r, y);
    hide WellFormed, Without, LeftOf, Distinct;
    if p == null || p in e.list {
      var k := if p == null then 0 else IndexOf(e.list, p) + 1;
      InsertOneBack(c.list, r, i, k);
      assert Restore(e, y) == Some(Inserted(e, k, y));
    } else if j >= 0 {
      WithoutMembers(c.list, r + {y}, c.list[j]);
    }
  }

  lemma RestoreInserts(e: Chain, y: Section) returns (k: nat)
    requires Restore(e, y).Some?
    ensures k <= |e.list| && Restore(e, y) == Some(Inserted(e, k, y))
    ensures forall t :: t in Inserted(e, k, y).list <==> t in e.list || t == y
  {
    var p := Prev(e, y);
    k := if p == null then 0 else IndexOf(e.list, p) + 1;
  }

  lemma {:induction false} WithoutAbsent(list: seq<Section>, y: Section)
    requires y !in list
    ensures Without(list, {y}) == list
    decreases list
  {
    if list == [] {
    } else {
      WithoutAbsent(list[1..], y);
    }
  }

  lemma WithoutMiddle(a: seq<Section>, y: Section, b: seq<Section>)
    requires y !in a && y !in b
    ensures Without(a + [y] + b, {y}) == a + b
  {
    WithoutAbsent(a, y);
    WithoutAbsent(b, y);
    WithoutAppend(a + [y], b, {y});
    WithoutAppend(a, [y], {y});
    assert [y][1..] == [] && Without([y], {y}) == [];
    hide Without;
    assert a + [] == a;
  }

  lemma WithoutInserted(list: seq<Section>, k: nat, y: Section)
    requires k <= |list| && y !in list
    ensures Without(InsertAt(list, k, y), {y}) == list
  {
    var a, b := list[..k], list[k..];
    assert list == a + b && y !in a && y !in b;
    hide Without;
    WithoutMiddle(a, y, b);
  }

  /** What is put back into is what is left. */
  lemma {:induction false} RestoredInto(c: Chain, e: Chain, ys: seq<Section>)
    requires Distinct(ys) && forall y :: y in ys ==> y !in e.list
    requires RestoreInOrder(e, ys) == Some(c)
    ensures e.list == Without(c.list, ToSet(ys))
    decreases ys
  {
    if ys == [] {
      assert ToSet(ys) == {};
      WithoutNone(c.list);
    } else {
      var y, rest := ys[0], ToSet(ys[1..]);
      var k := RestoreInserts(e, y);
      assert ys == [y] + ys[1..];
      assert rest + {y} == ToSet(ys);
      WithoutInserted(e.list, k, y);
      assert Inserted(e, k, y).list == InsertAt(e.list, k, y);
      hide Restore, Inserted, InsertAt, Without, ToSet;
      RestoredInto(c, Inserted(e, k, y), ys[1..]);
      WithoutTwice(c.list, rest, y);
    }
  }

  // ----- the order put back, section by section

  /** The m-th section put back points at the nearest one to its left that is not still out. */
  ghost predicate PlacedAt(c: Chain, d: Chain, ys: seq<Section>, m: nat)
    requires m < |ys|
  {
    && ys[m] in c.list
    && Prev(d, ys[m]) == At(c.list, LeftOf(c.list, ToSet(ys[m + 1..]), IndexOf(c.list, ys[m])))
  }

  ghost predicate Placed(c: Chain, d: Chain, ys: seq<Section>) {
    forall m :: 0 <= m < |ys| ==> PlacedAt(c, d, ys, m)
  }

  lemma PlacedTail(c: Chain, d: Chain, ys: seq<Section>)
    requires ys != []
    ensures Placed(c, d, ys) <==> PlacedAt(c, d, ys, 0) && Placed(c, d, ys[1..])
  {
    forall m | 0 <= m < |ys| - 1
      ensures PlacedAt(c, d, ys[1..], m) <==> PlacedAt(c, d, ys, m + 1)
    {
      assert ys[1..][m + 1..] == ys[m + 2..];
    }
    assert forall m :: 0 < m < |ys| ==> (PlacedAt(c, d, ys, m) <==> PlacedAt(c, d, ys[1..], m - 1));
  }

  lemma {:induction false} RestoreIsPlaced(c: Chain, d: Chain, ys: seq<Section>)
    requires WellFormed(c) && Extends(c, d) && Distinct(ys)
    requires forall y :: y in ys ==> y in c.list && y in d.stale && y !in d.list
    ensures RestoreInOrder(Partial(c, d, ToSet(ys)), ys) == Some(c) <==> Placed(c, d, ys)
    decreases ys
  {
    if ys == [] {
      assert ToSet(ys) == {};
      PartialIsWhole(c, d);
    } else {
      var y, rest := ys[0], ToSet(ys[1..]);
      assert ys == [y] + ys[1..];
      assert rest + {y} == ToSet(ys);
      PlacedTail(c, d, ys);
      RestoreOne(c, d, rest, y);
      RestoreIsPlaced(c, d, ys[1..]);
      var e := Partial(c, d, ToSet(ys));
      if !PlacedAt(c, d, ys, 0) && RestoreInOrder(e, ys) == Some(c) {
        forall z | z in ys
          ensures z !in e.list
        {
          PartialExcludes(c, d, ys, z);
        }
        RestoredRest(c, e, ys);
      }
    }
  }

  lemma PartialExcludes(c: Chain, d: Chain, ys: seq<Section>, y: Section)
    requires y in ys
    ensures y !in Partial(c, d, ToSet(ys)).list
  {
    WithoutMembers(c.list, ToSet(ys), y);
  }

  lemma RestoredRest(c: Chain, e: Chain, ys: seq<Section>)
    requires ys != [] && Distinct(ys) && forall y :: y in ys ==> y !in e.list
    requires RestoreInOrder(e, ys) == Some(c)
    ensures Restore(e, ys[0]).value.list == Without(c.list, ToSet(ys[1..]))
  {
    var f := Restore(e, ys[0]).value;
    assert RestoreInOrder(f, ys[1..]) == Some(c);
    var k := RestoreInserts(e, ys[0]);
    assert ys == [ys[0]] + ys[1..];
    hide Restore, RestoreInOrder, Inserted, Without, ToSet;
    RestoredInto(c, f, ys[1..]);
  }

  // ----- before and after

  predicate Before(s: seq<Section>, a: Section, b: Section) {
    a in s && b in s && IndexOf(s, a) < IndexOf(s, b)
  }

  lemma BeforeTransitive(s: seq<Section>, x: Section, y: Section, z: Section)
    ensures Before(s, x, y) && Before(s, y, z) ==> Before(s, x, z)
    ensures Before(s, x, y) ==> !Before(s, y, x)
  {
  }

  lemma BeforeIsFront(s: seq<Section>, a: Section, k: nat)
    requires Distinct(s) && k < |s|
    ensures Before(s, a, s[k]) <==> a in s[..k]
  {
    IndexIs(s, k);
    if a in s[..k] {
      IndexIs(s, IndexOf(s[..k], a));
    }
  }

  lemma BeforeIsBack(s: seq<Section>, k: nat, b: Section)
    requires Distinct(s) && k < |s|
    ensures Before(s, s[k], b) <==> b in s[k + 1..]
  {
    IndexIs(s, k);
    if b in s[k + 1..] {
      var i := IndexOf(s[k + 1..], b);
      assert s[k + 1 + i] == b;
      IndexIs(s, k + 1 + i);
    }
  }

  /** The position that a removed section points back at; -1 if it had become the first. */
  function Slot(c: Chain, xs: seq<Section>, x: Section): (j: int)
    requires x in xs && x in c.list
    ensures -1 <= j < IndexOf(c.list, x)
  {
    LeftOf(c.list, ToSet(xs[..IndexOf(xs, x)]), IndexOf(c.list, x))
  }

  /** A removed section points back at its slot. What is between was removed before it, and what is in
      the slot was not. */
  lemma SlotMeaning(c: Chain, xs: seq<Section>, x: Section)
    requires WellFormed(c) && RemoveAll(c, xs).Some? && x in xs
    ensures x in c.list && Distinct(xs)
    ensures Prev(RemoveAll(c, xs).value, x) == At(c.list, Slot(c, xs, x))
    ensures Slot(c, xs, x) >= 0 ==> !Before(xs, c.list[Slot(c, xs, x)], x)
    ensures forall k :: Slot(c, xs, x) < k < IndexOf(c.list, x) ==> Before(xs, c.list[k], x)
  {
    var n := IndexOf(xs, x);
    WithoutNone(c.list);
    StalePrev(c, c, {}, xs, n);
    assert {} + ToSet(xs[..n]) == ToSet(xs[..n]);
    RemoveAllDistinct(c, xs);
    hide WellFormed, RemoveAll, Without, Distinct;
    forall k | 0 <= k < |c.list|
      ensures Before(xs, c.list[k], x) <==> c.list[k] in ToSet(xs[..n])
    {
      BeforeIsFront(xs, c.list[k], n);
    }
  }

  /** A section comes back after the one it points at, if that one is out too; and of two sections that
      point at the same one, the first removed comes back last. */
  ghost predicate Restorable(d: Chain, xs: seq<Section>, ys: seq<Section>) {
    && (forall a, b :: a in xs && b in xs && Prev(d, b) == a ==> Before(ys, a, b))
    && (forall a, b :: a in xs && b in xs && Before(xs, a, b) && Prev(d, a) == Prev(d, b) ==> Before(ys, b, a))
  }

  /** A section between another and its slot was removed before it, and has its slot there too. */
  lemma SlotsNest(c: Chain, xs: seq<Section>, y: Section, k: nat)
    requires WellFormed(c) && RemoveAll(c, xs).Some?
    requires y in xs && y in c.list && Slot(c, xs, y) < k < IndexOf(c.list, y)
    ensures Before(xs, c.list[k], y) && IndexOf(c.list, c.list[k]) == k
    ensures Slot(c, xs, y) <= Slot(c, xs, c.list[k])
  {
    SlotMeaning(c, xs, y);
    SlotMeaning(c, xs, c.list[k]);
    IndexIs(c.list, k);
    hide WellFormed, RemoveAll, Slot;
  }

  /** What a section between another and its slot points at: the same, or something also between. */
  lemma NestedPrev(c: Chain, xs: seq<Section>, y: Section, k: nat)
    requires WellFormed(c) && RemoveAll(c, xs).Some?
    requires y in xs && y in c.list && Slot(c, xs, y) < k < IndexOf(c.list, y)
    ensures Before(xs, c.list[k], y) && Slot(c, xs, y) <= Slot(c, xs, c.list[k]) < k
    ensures var d, z, i := RemoveAll(c, xs).value, c.list[k], Slot(c, xs, c.list[k]);
            if i == Slot(c, xs, y) then Prev(d, z) == Prev(d, y) else Prev(d, z) == c.list[i] && c.list[i] in xs
  {
    SlotsNest(c, xs, y, k);
    SlotMeaning(c, xs, y);
    SlotMeaning(c, xs, c.list[k]);
    hide WellFormed, RemoveAll, Slot, Prev, Distinct;
  }

  /** What lies between a section and its slot comes back after it. */
  lemma {:induction false} BetweenComesLater(c: Chain, xs: seq<Section>, ys: seq<Section>, y: Section, k: nat)
    requires WellFormed(c) && RemoveAll(c, xs).Some? && Restorable(RemoveAll(c, xs).value, xs, ys)
    requires y in xs && y in c.list && Slot(c, xs, y) < k < IndexOf(c.list, y)
    ensures Before(ys, y, c.list[k])
    decreases k
  {
    NestedPrev(c, xs, y, k);
    var z, i := c.list[k], Slot(c, xs, c.list[k]);
    assert z in xs;
    if i == Slot(c, xs, y) {
      hide WellFormed, RemoveAll, Slot, Prev, Distinct, Before;
    } else {
      assert Before(ys, c.list[i], z);
      hide WellFormed, RemoveAll, Slot, Prev, Distinct, Before, Restorable;
      BetweenComesLater(c, xs, ys, y, i);
      BeforeTransitive(ys, y, c.list[i], z);
    }
  }

  lemma WellFormedIsDistinct(c: Chain)
    requires WellFormed(c)
    ensures Distinct(c.list)
  {
  }

  lemma SameMembers(xs: seq<Section>, ys: seq<Section>, x: Section)
    requires ToSet(ys) == ToSet(xs)
    ensures x in ys <==> x in xs
  {
    assert x in ToSet(ys) <==> x in ToSet(xs);
  }

  lemma SameSlot(c: Chain, i: int, j: int)
    requires Distinct(c.list) && -1 <= i < |c.list| && -1 <= j < |c.list|
    ensures At(c.list, i) == At(c.list, j) <==> i == j
  {
  }

  lemma BetweenIsOut(c: Chain, xs: seq<Section>, ys: seq<Section>, m: nat, k: nat)
    requires WellFormed(c) && RemoveAll(c, xs).Some? && Restorable(RemoveAll(c, xs).value, xs, ys)
    requires Distinct(ys) && m < |ys| && ys[m] in xs && ys[m] in c.list
    requires Slot(c, xs, ys[m]) < k < IndexOf(c.list, ys[m])
    ensures c.list[k] in ToSet(ys[m + 1..])
  {
    BetweenComesLater(c, xs, ys, ys[m], k);
    hide WellFormed, RemoveAll, Restorable, Slot;
    BeforeIsBack(ys, m, c.list[k]);
  }

  lemma SlotIsBack(c: Chain, xs: seq<Section>, ys: seq<Section>, m: nat)
    requires WellFormed(c) && RemoveAll(c, xs).Some? && Restorable(RemoveAll(c, xs).value, xs, ys)
    requires Distinct(ys) && ToSet(ys) == ToSet(xs) && m < |ys| && ys[m] in xs && ys[m] in c.list
    requires Slot(c, xs, ys[m]) >= 0
    ensures c.list[Slot(c, xs, ys[m])] !in ToSet(ys[m + 1..])
  {
    SlotMeaning(c, xs, ys[m]);
    var p := c.list[Slot(c, xs, ys[m])];
    hide WellFormed, RemoveAll, Slot, Prev, Distinct;
    assert p in ys <==> p in xs by {
      assert p in ToSet(ys) <==> p in ToSet(xs);
    }
    assert p in xs ==> Before(ys, p, ys[m]);
    hide Restorable;
    BeforeIsBack(ys, m, p);
    BeforeTransitive(ys, p, ys[m], p);
  }

  lemma PlacedFrom(c: Chain, d: Chain, ys: seq<Section>, m: nat, j: int)
    requires m < |ys| && ys[m] in c.list
    requires -1 <= j < IndexOf(c.list, ys[m]) && Prev(d, ys[m]) == At(c.list, j)
    requires j >= 0 ==> c.list[j] !in ToSet(ys[m + 1..])
    requires forall k :: j < k < IndexOf(c.list, ys[m]) ==> c.list[k] in ToSet(ys[m + 1..])
    ensures PlacedAt(c, d, ys, m)
  {
    LeftOfIs(c.list, ToSet(ys[m + 1..]), IndexOf(c.list, ys[m]), j);
  }

  lemma RestorableIsPlacedAt(c: Chain, xs: seq<Section>, ys: seq<Section>, m: nat)
    requires WellFormed(c) && RemoveAll(c, xs).Some? && Restorable(RemoveAll(c, xs).value, xs, ys)
    requires Distinct(ys) && ToSet(ys) == ToSet(xs) && m < |ys|
    ensures PlacedAt(c, RemoveAll(c, xs).value, ys, m)
  {
    hide *;
    SameMembers(xs, ys, ys[m]);
    SlotMeaning(c, xs, ys[m]);
    var j := Slot(c, xs, ys[m]);
    forall k | j < k < IndexOf(c.list, ys[m])
      ensures c.list[k] in ToSet(ys[m + 1..])
    {
      BetweenIsOut(c, xs, ys, m, k);
    }
    if j >= 0 {
      SlotIsBack(c, xs, ys, m);
    }
    PlacedFrom(c, RemoveAll(c, xs).value, ys, m, j);
  }

  lemma PlacedMeans(c: Chain, d: Chain, ys: seq<Section>, b: Section) returns (j: int)
    requires Placed(c, d, ys) && Distinct(ys) && b in ys
    ensures b in c.list && -1 <= j < IndexOf(c.list, b) && Prev(d, b) == At(c.list, j)
    ensures j >= 0 ==> !Before(ys, b, c.list[j])
    ensures forall k :: j < k < IndexOf(c.list, b) ==> Before(ys, b, c.list[k])
  {
    var m := IndexOf(ys, b);
    assert PlacedAt(c, d, ys, m);
    j := LeftOf(c.list, ToSet(ys[m + 1..]), IndexOf(c.list, b));
    hide Placed, PlacedAt, Distinct, Prev, LeftOf, Before;
    forall k | 0 <= k < |c.list|
      ensures Before(ys, b, c.list[k]) <==> c.list[k] in ys[m + 1..]
    {
      BeforeIsBack(ys, m, c.list[k]);
    }
  }

  /** If the place is right, everything between a section and its slot is still out when it comes back,
      and its slot is not. */
  lemma PlacedSlot(c: Chain, xs: seq<Section>, ys: seq<Section>, b: Section)
    requires WellFormed(c) && RemoveAll(c, xs).Some? && Placed(c, RemoveAll(c, xs).value, ys)
    requires Distinct(ys) && ToSet(ys) == ToSet(xs) && b in xs
    ensures b in c.list
    ensures Slot(c, xs, b) >= 0 && c.list[Slot(c, xs, b)] in xs ==> Before(ys, c.list[Slot(c, xs, b)], b)
    ensures forall k :: Slot(c, xs, b) < k < IndexOf(c.list, b) ==> Before(ys, b, c.list[k])
  {
    hide *;
    SameMembers(xs, ys, b);
    WellFormedIsDistinct(c);
    SlotMeaning(c, xs, b);
    var j := PlacedMeans(c, RemoveAll(c, xs).value, ys, b);
    SameSlot(c, j, Slot(c, xs, b));
    if j >= 0 && c.list[j] in xs {
      SameMembers(xs, ys, c.list[j]);
      SlotIsAnother(c, b, j);
      EitherFirst(ys, c.list[j], b);
    }
  }

  lemma SlotIsAnother(c: Chain, b: Section, j: nat)
    requires b in c.list && j < IndexOf(c.list, b) && Distinct(c.list)
    ensures c.list[j] != b
  {
  }

  lemma EitherFirst(s: seq<Section>, a: Section, b: Section)
    requires a in s && b in s && a != b
    ensures Before(s, a, b) || Before(s, b, a)
  {
  }

  lemma PointedAtComesFirst(c: Chain, xs: seq<Section>, ys: seq<Section>, a: Section, b: Section)
    requires WellFormed(c) && RemoveAll(c, xs).Some? && Placed(c, RemoveAll(c, xs).value, ys)
    requires Distinct(ys) && ToSet(ys) == ToSet(xs)
    requires a in xs && b in xs && Prev(RemoveAll(c, xs).value, b) == a
    ensures Before(ys, a, b)
  {
    PlacedSlot(c, xs, ys, b);
    SlotMeaning(c, xs, b);
    hide WellFormed, RemoveAll, Placed, Slot, Prev, Before, Distinct, ToSet;
  }

  lemma SharedComesLastFirst(c: Chain, xs: seq<Section>, ys: seq<Section>, a: Section, b: Section)
    requires WellFormed(c) && RemoveAll(c, xs).Some? && Placed(c, RemoveAll(c, xs).value, ys)
    requires Distinct(ys) && ToSet(ys) == ToSet(xs) && a in xs && b in xs
    requires Before(xs, a, b) && Prev(RemoveAll(c, xs).value, a) == Prev(RemoveAll(c, xs).value, b)
    ensures Before(ys, b, a)
  {
    hide *;
    WellFormedIsDistinct(c);
    PlacedSlot(c, xs, ys, b);
    SlotMeaning(c, xs, a);
    SlotMeaning(c, xs, b);
    SameSlot(c, Slot(c, xs, a), Slot(c, xs, b));
    BeforeTransitive(xs, a, b, a);
    BeforeTransitive(xs, b, a, b);
    var i, j := IndexOf(c.list, a), IndexOf(c.list, b);
    assert c.list[i] == a && c.list[j] == b;
  }

  lemma PlacedIsRestorable(c: Chain, xs: seq<Section>, ys: seq<Section>)
    requires WellFormed(c) && RemoveAll(c, xs).Some? && Placed(c, RemoveAll(c, xs).value, ys)
    requires Distinct(ys) && ToSet(ys) == ToSet(xs)
    ensures Restorable(RemoveAll(c, xs).value, xs, ys)
  {
    hide WellFormed, RemoveAll, Placed, Prev, ToSet, Before;
    var d := RemoveAll(c, xs).value;
    forall a, b | a in xs && b in xs && Prev(d, b) == a
      ensures Before(ys, a, b)
    {
      PointedAtComesFirst(c, xs, ys, a, b);
    }
    forall a, b | a in xs && b in xs && Before(xs, a, b) && Prev(d, a) == Prev(d, b)
      ensures Before(ys, b, a)
    {
      SharedComesLastFirst(c, xs, ys, a, b);
    }
  }

  // ----- main results

  /** Removed sections, put back in any order from their own stale links, give the chain back, and with
      it every pointer, if and only if each comes back after the one it points at, and of two that
      point at the same one the later removed comes back first. */
  lemma RestoreExactlyWhenOrdered(c: Chain, xs: seq<Section>, ys: seq<Section>)
    requires WellFormed(c) && RemoveAll(c, xs).Some?
    requires Distinct(ys) && ToSet(ys) == ToSet(xs)
    ensures RestoreInOrder(RemoveAll(c, xs).value, ys) == Some(c) <==> Restorable(RemoveAll(c, xs).value, xs, ys)
  {
    var d := RemoveAll(c, xs).value;
    forall y | y in ys
      ensures y in c.list && y in d.stale && y !in d.list
    {
      assert y in ToSet(ys);
      RemoveAllMember(c, xs, y);
      StaleMember(c, xs, y);
    }
    StaleExtends(c, xs);
    RemovedIsPartial(c, xs);
    RestoreIsPlaced(c, d, ys);
    if Restorable(d, xs, ys) {
      forall m | 0 <= m < |ys|
        ensures PlacedAt(c, d, ys, m)
      {
        RestorableIsPlacedAt(c, xs, ys, m);
      }
    }
    if Placed(c, d, ys) {
      PlacedIsRestorable(c, xs, ys);
    }
  }

  /** No two of the sections in `r` are neighbours. */
  ghost predicate Apart(list: seq<Section>, r: set<Section>) {
    forall i :: 0 < i < |list| ==> !(list[i - 1] in r && list[i] in r)
  }

  lemma SlotWhenApart(c: Chain, xs: seq<Section>, x: Section)
    requires WellFormed(c) && RemoveAll(c, xs).Some? && x in xs && Apart(c.list, ToSet(xs))
    ensures x in c.list && Slot(c, xs, x) == IndexOf(c.list, x) - 1
    ensures Slot(c, xs, x) >= 0 ==> c.list[Slot(c, xs, x)] !in xs
  {
    SlotMeaning(c, xs, x);
    var i := IndexOf(c.list, x);
    assert i > 0 ==> c.list[i - 1] !in ToSet(xs);
  }

  lemma PrevWhenApart(c: Chain, xs: seq<Section>, x: Section)
    requires WellFormed(c) && RemoveAll(c, xs).Some? && x in xs && Apart(c.list, ToSet(xs))
    ensures x in c.list
    ensures var p := Prev(RemoveAll(c, xs).value, x);
            p == At(c.list, IndexOf(c.list, x) - 1) && (p == null || p !in xs)
  {
    SlotWhenApart(c, xs, x);
    SlotMeaning(c, xs, x);
    hide WellFormed, RemoveAll, Slot, Prev;
  }

  lemma PrevsDiffer(c: Chain, xs: seq<Section>, a: Section, b: Section)
    requires WellFormed(c) && RemoveAll(c, xs).Some? && Apart(c.list, ToSet(xs))
    requires a in xs && b in xs && Prev(RemoveAll(c, xs).value, a) == Prev(RemoveAll(c, xs).value, b)
    ensures a == b
  {
    hide *;
    WellFormedIsDistinct(c);
    PrevWhenApart(c, xs, a);
    PrevWhenApart(c, xs, b);
    SameSlot(c, IndexOf(c.list, a) - 1, IndexOf(c.list, b) - 1);
  }

  /** Sections no two of which were neighbours may be put back in any order. */
  lemma RestoreInAnyOrder(c: Chain, xs: seq<Section>, ys: seq<Section>)
    requires WellFormed(c) && RemoveAll(c, xs).Some? && Apart(c.list, ToSet(xs))
    requires Distinct(ys) && ToSet(ys) == ToSet(xs)
    ensures RestoreInOrder(RemoveAll(c, xs).value, ys) == Some(c)
  {
    var d := RemoveAll(c, xs).value;
    hide WellFormed, RemoveAll, Apart, ToSet, Prev, RestoreInOrder;
    forall x | x in xs
      ensures Prev(d, x) == null || Prev(d, x) !in xs
    {
      PrevWhenApart(c, xs, x);
    }
    forall a, b | a in xs && b in xs && Prev(d, a) == Prev(d, b)
      ensures a == b
    {
      PrevsDiffer(c, xs, a, b);
    }
    assert Restorable(d, xs, ys);
    RestoreExactlyWhenOrdered(c, xs, ys);
  }

  /** Putting the first removed section back first restores the chain exactly when no two of the
      sections were neighbours. */
  lemma RestoreInOrderExactlyWhenApart(c: Chain, xs: seq<Section>)
    requires WellFormed(c) && RemoveAll(c, xs).Some?
    ensures RestoreInOrder(RemoveAll(c, xs).value, xs) == Some(c) <==> Apart(c.list, ToSet(xs))
  {
    var d := RemoveAll(c, xs).value;
    RemoveAllDistinct(c, xs);
    RestoreExactlyWhenOrdered(c, xs, xs);
    if Apart(c.list, ToSet(xs)) {
      RestoreInAnyOrder(c, xs, xs);
    } else {
      var i :| 0 < i < |c.list| && c.list[i - 1] in xs && c.list[i] in xs;
      var a, b := c.list[i - 1], c.list[i];
      IndexIs(c.list, i);
      SlotMeaning(c, xs, b);
      if Slot(c, xs, b) < i - 1 && Restorable(d, xs, xs) {
        BetweenComesLater(c, xs, xs, b, i - 1);
      }
    }
  }

  /** Two neighbours removed and put back in the same order change places. */
  lemma NeighboursChangePlaces(a: Section, b: Section)
    requires a != b
    ensures var c := Chain([a, b], map[]);
            && WellFormed(c)
            && RemoveAll(c, [a, b]).Some?
            && RestoreInOrder(RemoveAll(c, [a, b]).value, [a, b]) == Some(Chain([b, a], map[]))
  {
    hide *;
    RemoveNeighbours(a, b);
    PutBackNeighbours(a, b);
  }

  lemma PutBackNeighbours(a: Section, b: Section)
    requires a != b
    ensures RestoreInOrder(Chain([], map[a := Links(b, null), b := Links(null, null)]), [a, b]) ==
            Some(Chain([b, a], map[]))
  {
    var d, e := Chain([], map[a := Links(b, null), b := Links(null, null)]), Chain([a], map[b := Links(null, null)]);
    hide *;
    assert d.stale - {a} == e.stale;
    PutBackFirst(d, a, e);
    assert e.stale - {b} == map[];
    PutBackFirst(e, b, Chain([b, a], map[]));
    PutBackTwo(d, a, b, e, Chain([b, a], map[]));
  }

  lemma PutBackTwo(c: Chain, s: Section, t: Section, d: Chain, e: Chain)
    requires Restore(c, s) == Some(d) && Restore(d, t) == Some(e)
    ensures RestoreInOrder(c, [s, t]) == Some(e)
  {
    hide Restore;
    assert [s, t][1..] == [t] && [t][1..] == [];
    assert RestoreInOrder(e, []) == Some(e);
  }

  lemma RemoveNeighbours(a: Section, b: Section)
    requires a != b
    ensures WellFormed(Chain([a, b], map[]))
    ensures RemoveAll(Chain([a, b], map[]), [a, b]) ==
            Some(Chain([], map[a := Links(b, null), b := Links(null, null)]))
  {
    var c, d := Chain([a, b], map[]), Chain([b], map[a := Links(b, null)]);
    assert Removed(c, a) == d;
    assert Removed(d, b) == Chain([], map[a := Links(b, null), b := Links(null, null)]);
    assert [a, b][1..] == [b] && [b][1..] == [];
    assert RemoveAll(c, [a, b]) == RemoveAll(d, [b]) == RemoveAll(Removed(d, b), []);
  }

  lemma PutBackFirst(c: Chain, s: Section, d: Chain)
    requires s in c.stale && s !in c.list && c.stale[s].prev == null
    requires d.list == [s] + c.list && d.stale == c.stale - {s}
    ensures Restore(c, s) == Some(d)
  {
    assert InsertAt(c.list, 0, s) == d.list;
  }
}
