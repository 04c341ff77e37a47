/** DLChain: a circular list threaded through the items themselves. */
module Chains {
  /** DLChainItem: something that can be in a chain. */
  class Item<T> {
    const value: T
    var next: Item?<T>
    var prev: Item?<T>

    constructor (value: T)
      ensures this.value == value && next == null && prev == null
    {
      this.value, next, prev := value, null, null;
    }
  }

  // The place behind place i, around the circle.
  function Succ(i: nat, n: nat): nat {
    if i + 1 < n then i + 1 else 0
  }

  function With<T>(s: seq<T>, k: nat, x: T): (r: seq<T>)
    requires k <= |s|
    ensures |r| == |s| + 1
  {
    s[..k] + [x] + s[k..]
  }

  function Without<T>(s: seq<T>, k: nat): (r: seq<T>)
    requires k < |s|
    ensures |r| == |s| - 1
  {
    s[..k] + s[k + 1..]
  }

  // The same circle, from its last element on.
  function Turned<T>(s: seq<T>): (r: seq<T>)
    requires s != []
    ensures |r| == |s|
  {
    [s[|s| - 1]] + s[..|s| - 1]
  }

  lemma TurnedRound<T>(s: seq<T>, i: nat)
    requires i < |s|
    ensures var j := if i == 0 then |s| - 1 else i - 1;
            Turned(s)[i] == s[j] && Turned(s)[Succ(i, |s|)] == s[Succ(j, |s|)]
  {
  }

  // Who stands behind whom when one is taken out.
  lemma NextWithout<T>(was: seq<T>, k: nat, i: nat)
    requires k < |was| && i < |was| - 1
    ensures var (s, n) := (Without(was, k), |was|);
            var j := if i < k then i else i + 1;
            s[i] == was[j] && s[Succ(i, n - 1)] == was[if Succ(j, n) == k then Succ(k, n) else Succ(j, n)]
  {
  }

  // Who stands behind whom when one is put in.
  lemma NextWith<T>(was: seq<T>, k: nat, x: T, i: nat)
    requires k < |was| && i <= |was| && i != k + 1
    ensures var (s, n) := (With(was, k + 1, x), |was|);
            var j := if i <= k then i else i - 1;
            s[i] == was[j] && s[Succ(i, n + 1)] == if i == k then x else was[Succ(j, n)]
  {
  }

  class DLChain<T> {
    var head: Item?<T>
    // The items, from the head on.
    ghost var items: seq<Item<T>>

    constructor ()
      ensures Valid() && items == []
    {
      head, items := null, [];
    }

    ghost function Parts(): set<object>
      reads this
    {
      set x | x in items
    }

    ghost predicate Valid()
      reads this, Parts()
    {
      && (forall i, j | 0 <= i < j < |items| :: items[i] != items[j])
      && head == (if |items| > 0 then items[0] else null)
      && forall i | 0 <= i < |items| :: Joined(items[i], items[Succ(i, |items|)])
    }

    ghost predicate Joined(x: Item<T>, y: Item<T>)
      reads x, y
    {
      x.next == y && y.prev == x
    }

    lemma Ends()
      requires Valid()
      ensures head == if items == [] then null else items[0]
    {
    }

    method Append(item: Item<T>)
      requires Valid() && item !in items
      modifies this, item, Parts()
      ensures Valid() && items == old(items) + [item]
    {
      if head == null {
        head := item;
        item.next := item;
        item.prev := item;
        items := [item];
        return;
      }
      ghost var n := |items|;
      assert Joined(items[n - 1], items[Succ(n - 1, n)]);
      item.prev := head.prev;
      item.next := head;
      head.prev.next := item;
      head.prev := item;
      items := items + [item];
      forall i | 0 <= i < |items|
        ensures Joined(items[i], items[Succ(i, |items|)])
      {
        assert i < n ==> old(Joined(items[i], items[Succ(i, n)]));
      }
    }

    method Prepend(item: Item<T>)
      requires Valid() && item !in items
      modifies this, item, Parts()
      ensures Valid() && items == [item] + old(items)
    {
      Append(item);
      head := item;
      ghost var n := |items|;
      ghost var was := items;
      items := Turned(items);
      forall i | 0 <= i < n
        ensures Joined(items[i], items[Succ(i, n)])
      {
        var j := if i == 0 then n - 1 else i - 1;
        TurnedRound(was, i);
        assert Joined(was[j], was[Succ(j, n)]);
      }
    }

    method InsertAfter(ref: Item<T>, item: Item<T>, ghost k: nat)
      requires Valid() && item !in items && k < |items| && items[k] == ref
      modifies this`items, item, Parts()
      ensures Valid() && items == With(old(items), k + 1, item)
    {
      ghost var n := |items|;
      assert Joined(items[k], items[Succ(k, n)]);
      item.next := ref.next;
      item.prev := ref;
      ref.next.prev := item;
      ref.next := item;
      ghost var was := items;
      items := With(items, k + 1, item);
      forall i | 0 <= i < |items|
        ensures Joined(items[i], items[Succ(i, |items|)])
      {
        if i != k + 1 {
          var j := if i <= k then i else i - 1;
          NextWith(was, k, item, i);
          assert old(Joined(was[j], was[Succ(j, n)]));
        }
      }
    }

    method InsertBefore(ref: Item<T>, item: Item<T>, ghost k: nat)
      requires Valid() && item !in items && k < |items| && items[k] == ref
      modifies this, item, Parts()
      ensures Valid() && items == With(old(items), k, item)
    {
      ghost var n := |items|;
      ghost var before := if k == 0 then n - 1 else k - 1;
      assert Joined(items[before], items[Succ(before, n)]);
      InsertAfter(ref.prev, item, before);
      if ref == head {
        head := item;
        ghost var was := items;
        items := Turned(items);
        forall i | 0 <= i < |items|
          ensures Joined(items[i], items[Succ(i, |items|)])
        {
          var j := if i == 0 then n else i - 1;
          TurnedRound(was, i);
          assert Joined(was[j], was[Succ(j, n + 1)]);
        }
      }
    }

    // Whether an item is in the chain, and where.
    method Has(item: Item<T>) returns (found: bool, ghost k: nat)
      requires Valid() && items != []
      ensures found <==> item in items
      ensures found ==> k < |items| && items[k] == item
    {
      k := 0;
      if head == item {
        return true, 0;
      }
      assert Joined(items[0], items[Succ(0, |items|)]);
      var it := head.next;
      k := 1;
      while it != head
        invariant 1 <= k <= |items| && it == (if k < |items| then items[k] else head)
        invariant forall i | 0 <= i < k :: items[i] != item
        decreases |items| - k
      {
        if it == item {
          return true, k;
        }
        assert Joined(items[k], items[Succ(k, |items|)]);
        it := it.next;
        k := k + 1;
      }
      found := false;
    }

    method Remove(item: Item<T>) returns (ok: bool, ghost k: nat)
      requires Valid() && items != []
      modifies this, Parts()
      ensures Valid() && (ok <==> item in old(items))
      ensures !ok ==> items == old(items)
      ensures ok ==> k < |old(items)| && old(items)[k] == item && items == Without(old(items), k)
    {
      ok, k := Has(item);
      if !ok {
        return;
      }
      ghost var n := |items|;
      ghost var was := items;
      assert Joined(items[k], items[Succ(k, n)]);
      Bypass(item, k);
      if head == item {
        head := item.next;
      }
      if head == item {
        head := null;
      }
      items := Without(items, k);
      forall i | 0 <= i < |items|
        ensures Joined(items[i], items[Succ(i, |items|)])
      {
        var j := if i < k then i else i + 1;
        NextWithout(was, k, i);
        assert Succ(j, n) != k ==> old(Joined(was[j], was[Succ(j, n)]));
      }
    }

    // The neighbours of an item are joined to each other.
    method Bypass(item: Item<T>, ghost k: nat)
      requires Valid() && k < |items| && items[k] == item
      modifies Parts()
      ensures item.next == old(item.next)
      ensures var n := |items|;
              forall j | 0 <= j < n && j != k && n > 1 ::
                Joined(items[j], if Succ(j, n) == k then items[Succ(k, n)] else items[Succ(j, n)])
    {
      ghost var n := |items|;
      ghost var before := if k == 0 then n - 1 else k - 1;
      assert Joined(items[before], items[Succ(before, n)]) && Joined(items[k], items[Succ(k, n)]);
      item.prev.next := item.next;
      item.next.prev := item.prev;
      forall j | 0 <= j < n && j != k && n > 1
        ensures Joined(items[j], if Succ(j, n) == k then items[Succ(k, n)] else items[Succ(j, n)])
      {
        assert old(Joined(items[j], items[Succ(j, n)]));
        assert j == before <==> Succ(j, n) == k;
      }
    }

    /** begin() to end(): every item once, from the head on. */
    method Visit() returns (seen: seq<Item<T>>)
      requires Valid()
      ensures seen == items
    {
      seen := [];
      var first, item := true, head;
      while !(first == (head == null) && item == head)
        invariant |seen| <= |items| && seen == items[..|seen|] && (first <==> seen == [])
        invariant item == if |seen| < |items| then items[|seen|] else head
        decreases |items| - |seen|
      {
        seen := seen + [item];
        first := false;
        assert Joined(items[|seen| - 1], items[Succ(|seen| - 1, |items|)]);
        item := item.next;
      }
    }
  }
}
