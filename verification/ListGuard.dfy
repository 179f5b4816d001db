/** Sequences of objects searched with a comparison, as the array classes see them. */
module Searching {
  import opened Basics

  /** An object, by its address. */
  type Item = nat

  type Comparison = (Item, Item) -> bool

  /** The index of the first match, or the length. */
  function IndexOf(s: seq<Item>, same: Comparison, x: Item): (i: nat)
    ensures i <= |s|
    ensures i < |s| ==> same(s[i], x)
    ensures forall j :: 0 <= j < i ==> !same(s[j], x)
  {
    if s == [] || same(s[0], x) then 0 else 1 + IndexOf(s[1..], same, x)
  }

  function DropFirst(s: seq<Item>, same: Comparison, x: Item): seq<Item> {
    var i := IndexOf(s, same, x);
    if i < |s| then DropAt(s, i) else s
  }

  function Unlike(same: Comparison, x: Item): Item -> bool {
    (y: Item) => !same(y, x)
  }

  function Select(s: seq<Item>, keep: Item -> bool): seq<Item> {
    if s == [] then [] else (if keep(s[0]) then [s[0]] else []) + Select(s[1..], keep)
  }

  /** Taking out one element that a selection leaves out does not change the selection. */
  lemma {:induction false} SelectWithoutOne(s: seq<Item>, keep: Item -> bool, i: nat)
    requires i < |s| && !keep(s[i])
    ensures Select(DropAt(s, i), keep) == Select(s, keep)
  {
    if i == 0 {
      assert DropAt(s, 0) == s[1..];
    } else {
      assert DropAt(s, i)[1..] == DropAt(s[1..], i - 1);
      SelectWithoutOne(s[1..], keep, i - 1);
    }
  }

  lemma {:induction false} SelectEverything(s: seq<Item>, keep: Item -> bool)
    requires forall i :: 0 <= i < |s| ==> keep(s[i])
    ensures Select(s, keep) == s
  {
    if s != [] {
      SelectEverything(s[1..], keep);
    }
  }

  /** Every occurrence of what is kept stays, and nothing else. */
  lemma {:induction false} SelectCounts(s: seq<Item>, keep: Item -> bool, x: Item)
    ensures multiset(Select(s, keep))[x] == if keep(x) then multiset(s)[x] else 0
  {
    if s != [] {
      SelectCounts(s[1..], keep, x);
      assert s == [s[0]] + s[1..];
      assert multiset(s) == multiset{s[0]} + multiset(s[1..]);
    }
  }

  lemma DropFirstKeepsSelection(s: seq<Item>, same: Comparison, x: Item)
    ensures Select(DropFirst(s, same, x), Unlike(same, x)) == Select(s, Unlike(same, x))
    ensures IndexOf(s, same, x) < |s| ==> |DropFirst(s, same, x)| < |s|
    ensures IndexOf(s, same, x) == |s| ==> DropFirst(s, same, x) == s
  {
    var i := IndexOf(s, same, x);
    if i < |s| {
      SelectWithoutOne(s, Unlike(same, x), i);
    }
  }

  lemma UnlikeCounts(s: seq<Item>, same: Comparison, x: Item)
    ensures forall y :: multiset(Select(s, Unlike(same, x)))[y] == if same(y, x) then 0 else multiset(s)[y]
  {
    forall y: Item ensures multiset(Select(s, Unlike(same, x)))[y] == if same(y, x) then 0 else multiset(s)[y] {
      SelectCounts(s, Unlike(same, x), y);
    }
  }

  lemma NothingToDrop(s: seq<Item>, same: Comparison, x: Item)
    requires IndexOf(s, same, x) == |s|
    ensures Select(s, Unlike(same, x)) == s
  {
    SelectEverything(s, Unlike(same, x));
  }

  lemma DropAtCounts(s: seq<Item>, i: nat)
    requires i < |s|
    ensures multiset(s) == multiset(DropAt(s, i)) + multiset{s[i]}
  {
    assert s == s[..i] + ([s[i]] + s[i + 1..]);
    assert multiset(s) == multiset(s[..i]) + multiset([s[i]] + s[i + 1..]);
  }

  lemma InsertCounts(s: seq<Item>, i: nat, x: Item)
    requires i <= |s|
    ensures multiset(s[..i] + [x] + s[i..]) == multiset(s) + multiset{x}
  {
    assert s == s[..i] + s[i..];
  }
}

/** Reference counts and the arrays that retain what they hold. */
module AutoArrays {
  import opened Basics
  import opened Searching

  /** The reference counts of all objects; an object without references has been destroyed. */
  class References {
    var counts: multiset<Item>

    predicate Alive(x: Item)
      reads this
    {
      counts[x] > 0
    }

    method Retain(x: Item)
      requires Alive(x)
      modifies this
      ensures counts == old(counts) + multiset{x}
    {
      counts := counts[x := counts[x] + 1];
    }

    method Release(x: Item)
      requires Alive(x)
      modifies this
      ensures counts == old(counts) - multiset{x}
    {
      counts := counts[x := counts[x] - 1];
    }
  }

  method ReleaseAll(heap: References, items: seq<Item>)
    requires multiset(items) <= heap.counts
    modifies heap
    ensures heap.counts + multiset(items) == old(heap.counts)
  {
    ghost var base := heap.counts - multiset(items);
    var i := 0;
    assert items[0..] == items;
    while i < |items|
      invariant 0 <= i <= |items|
      invariant heap.counts == base + multiset(items[i..])
    {
      RestCounts(items, i);
      OneLess(base, heap.counts, items[i], multiset(items[i + 1..]));
      heap.Release(items[i]);
      i := i + 1;
    }
  }

  lemma OneLess(base: multiset<Item>, counts: multiset<Item>, x: Item, rest: multiset<Item>)
    requires counts == base + (multiset{x} + rest)
    ensures counts[x] > 0 && counts - multiset{x} == base + rest
  {}

  lemma RestCounts(s: seq<Item>, i: nat)
    requires i < |s|
    ensures multiset(s[i..]) == multiset{s[i]} + multiset(s[i + 1..])
  {
    assert s[i..] == [s[i]] + s[i + 1..];
  }

  /** Both balances change alike, so a third party's share stays. */
  lemma SameShare(c: multiset<Item>, c': multiset<Item>, v: multiset<Item>, v': multiset<Item>, rest: multiset<Item>)
    requires c == rest + v && c' + v == c + v'
    ensures c' == rest + v'
  {
    forall x ensures c'[x] == (rest + v')[x] {
      assert (c' + v)[x] == (c + v')[x];
    }
    assert c' == rest + v';
  }

  class AutoArray {
    var vector: seq<Item>
    const same: Comparison
    const heap: References

    /** Every occurrence holds one reference. */
    ghost predicate Owning()
      reads this, heap
    {
      multiset(vector) <= heap.counts
    }

    /** What the counts gained is what the array gained. */
    twostate predicate Balanced()
      reads this, heap
    {
      heap.counts + multiset(old(vector)) == old(heap.counts) + multiset(vector)
    }

    constructor (heap: References, same: Comparison)
      ensures vector == [] && this.heap == heap && this.same == same
    {
      vector := [];
      this.heap := heap;
      this.same := same;
    }

    /** The loop of the search; the comparison takes the element first. */
    method IndexOfItem(x: Item) returns (i: int)
      ensures i == if IndexOf(vector, same, x) < |vector| then IndexOf(vector, same, x) else -1
    {
      i := 0;
      while i < |vector|
        invariant 0 <= i <= |vector|
        invariant IndexOf(vector, same, x) == i + IndexOf(vector[i..], same, x)
      {
        if same(vector[i], x) {
          return;
        }
        i := i + 1;
      }
      i := -1;
    }

    method AddItem(x: Item)
      requires Owning() && heap.Alive(x)
      modifies this, heap
      ensures vector == old(vector) + [x] && Owning() && Balanced()
    {
      vector := vector + [x];
      heap.Retain(x);
    }

    method InsertItem(index: nat, x: Item)
      requires Owning() && heap.Alive(x) && index <= |vector|
      modifies this, heap
      ensures vector == old(vector)[..index] + [x] + old(vector)[index..] && Owning() && Balanced()
    {
      InsertCounts(vector, index, x);
      vector := vector[..index] + [x] + vector[index..];
      heap.Retain(x);
    }

    method RemoveItemAt(index: nat)
      requires Owning() && index < |vector|
      modifies this, heap
      ensures vector == old(vector)[..index] + old(vector)[index + 1..]
      ensures vector == DropAt(old(vector), index) && Owning() && Balanced()
    {
      var item := vector[index];
      DropAtCounts(vector, index);
      vector := DropAt(vector, index);
      heap.Release(item);
    }

    method RemoveItem(x: Item) returns (found: bool)
      requires Owning()
      modifies this, heap
      ensures vector == DropFirst(old(vector), same, x) && Owning() && Balanced()
      ensures found == (IndexOf(old(vector), same, x) < |old(vector)|)
    {
      var index := IndexOfItem(x);
      found := index >= 0;
      if found {
        RemoveItemAt(index);
      }
    }

    /** The extra reference keeps the value to compare with alive until the end. */
    method RemoveItems(x: Item)
      requires Owning() && heap.Alive(x)
      modifies this, heap
      ensures forall y :: multiset(vector)[y] == if same(y, x) then 0 else multiset(old(vector))[y]
      ensures vector == Select(old(vector), Unlike(same, x)) && Owning() && Balanced()
    {
      hide Select, IndexOf, DropFirst, Unlike;
      heap.Retain(x);
      ghost var rest := heap.counts - multiset(vector);
      assert x in rest;
      var more := true;
      while more
        invariant heap.counts == rest + multiset(vector)
        invariant Select(vector, Unlike(same, x)) == Select(old(vector), Unlike(same, x))
        invariant more || IndexOf(vector, same, x) == |vector|
        decreases |vector|, more
      {
        ghost var before, counts := vector, heap.counts;
        more := RemoveItem(x);
        SameShare(counts, heap.counts, multiset(before), multiset(vector), rest);
        DropFirstKeepsSelection(before, same, x);
      }
      NothingToDrop(vector, same, x);
      UnlikeCounts(old(vector), same, x);
      heap.Release(x);
    }

    method Clear()
      requires Owning()
      modifies this, heap
      ensures vector == [] && Owning() && Balanced()
    {
      ReleaseAll(heap, vector);
      vector := [];
    }

    /** The old item is released first: it must not take the new one with it. */
    method SetItem(index: nat, x: Item)
      requires Owning() && index < |vector| && Survives(heap.counts, vector[index], x)
      modifies this, heap
      ensures vector == old(vector)[index := x] && Owning() && Balanced()
    {
      DropAtCounts(vector, index);
      DropAtCounts(vector[index := x], index);
      assert DropAt(vector, index) == DropAt(vector[index := x], index);
      Displace(index, x);
      heap.Retain(x);
    }

    /** What SetItem does before it retains the new item, which may be dead by then. */
    method Displace(index: nat, x: Item)
      requires Owning() && index < |vector|
      modifies this, heap
      ensures vector == old(vector)[index := x]
      ensures heap.counts == old(heap.counts) - multiset{old(vector)[index]}
      ensures heap.Alive(x) <==> old(Survives(heap.counts, vector[index], x))
    {
      var item := vector[index];
      vector := vector[index := x];
      heap.Release(item);
    }
  }

  /** Setting an item in its own place leaves everything as it was if somebody else holds it, or else destroys it. */
  method SetOwnItem(a: AutoArray, index: nat) returns (alive: bool)
    requires a.Owning() && index < |a.vector|
    modifies a, a.heap
    ensures alive <==> old(a.heap.counts[a.vector[index]] >= 2)
    ensures a.vector == old(a.vector)
    ensures alive ==> a.heap.counts == old(a.heap.counts)
    ensures !alive ==> !a.heap.Alive(a.vector[index])
  {
    var x := a.vector[index];
    a.Displace(index, x);
    alive := a.heap.Alive(x);
    if alive {
      a.heap.Retain(x);
    }
  }

  /** An object is alive, and is so after another reference has been given up. */
  predicate Survives(counts: multiset<Item>, released: Item, x: Item) {
    (counts - multiset{released})[x] > 0
  }

  /** A live object can be set unless it is the item already there and the array alone holds it, there. */
  lemma SurvivesIff(a: AutoArray, index: nat, x: Item)
    requires a.Owning() && index < |a.vector| && a.heap.Alive(x)
    ensures Survives(a.heap.counts, a.vector[index], x) <==> x != a.vector[index] || a.heap.counts[x] >= 2
    ensures x in DropAt(a.vector, index) ==> Survives(a.heap.counts, a.vector[index], x)
  {
    DropAtCounts(a.vector, index);
    if x in DropAt(a.vector, index) {
      assert multiset(DropAt(a.vector, index))[x] > 0;
    }
  }
}

/** Lists that may be changed while they are iterated over. */
module ListGuards {
  import opened Basics
  import opened Searching
  import opened AutoArrays

  ghost function Pick(its: set<GuardIterator>): (it: GuardIterator)
    requires its != {}
    ensures it in its
  {
    var it :| it in its; it
  }

  /** The objects that the snapshots of some iterators hold, all together. */
  ghost function Total(its: set<GuardIterator>): multiset<Item>
    reads its
  {
    if its == {} then multiset{} else multiset(Pick(its).Held()) + Total(its - {Pick(its)})
  }

  lemma {:induction false} TotalSplit(its: set<GuardIterator>, it: GuardIterator)
    requires it in its
    ensures Total(its) == Total(its - {it}) + multiset(it.Held())
  {
    var p := Pick(its);
    if p != it {
      TotalSplit(its - {p}, it);
      TotalSplit(its - {it}, p);
      assert its - {p} - {it} == its - {it} - {p};
    }
  }

  ghost predicate EndsWith(s: seq<Item>, e: seq<Item>) {
    |e| <= |s| && forall i :: 0 <= i < |e| ==> e[i] == s[|s| - |e| + i]
  }

  /** What others may know of an iterator. */
  datatype Outlook = Outlook(list: ListGuard?, cached: bool, promise: seq<Item>, count: nat) {
    /** A change of the list now would find the iterator before its first item. */
    predicate Unmoved() {
      list != null && !cached && count == 0
    }

    /** Later on, what remains is the same, unless the iterator was made to cache before it moved. */
    predicate Kept(later: Outlook) {
      && later.count == count && later.list == list && (cached ==> later.cached)
      && later.promise == if Unmoved() && later.cached then [] else promise
    }
  }

  lemma KeptAgain(a: Outlook, b: Outlook, c: Outlook)
    requires a.Kept(b) && b.Kept(c)
    ensures a.Kept(c)
  {}

  class GuardIterator {
    /** The inner iterator, which points into the array as it was. */
    const source: AutoArray
    var position: int
    var end: nat
    /** The guarded list, as long as the iterator is registered with it. */
    var list: ListGuard?
    /** The snapshot, retained, and the position in it. */
    var cache: Option<seq<Item>>
    var cachePosition: int
    var status: bool
    /** What the iterator is to yield in all, and how many items of it have been. */
    ghost var promise: seq<Item>
    ghost var count: nat

    ghost predicate Finished()
      reads this
    {
      if cache.Some? then cachePosition >= |cache.value| else position >= end
    }

    /** Of an iterator that has a snapshot, or has finished: the list no longer matters. */
    ghost predicate Independent()
      reads this
    {
      && count <= |promise| && (status <==> count > 0)
      && (Finished() ==> list == null && count == |promise|)
      && (!Finished() ==> cache.Some? && Shows(cache.value))
    }

    /** An iterator without a snapshot points into a list that has not changed since. */
    ghost predicate Following()
      reads this, source
    {
      && !Finished() && cache.None? && list != null && (status <==> count > 0)
      && count <= |promise| && source.vector == promise && end == |promise| && position == count - 1
    }

    ghost predicate Valid()
      reads this, source
    {
      Independent() || Following()
    }

    /** The snapshot is the end of what was promised, and has the current item in it. */
    ghost predicate Shows(items: seq<Item>)
      reads this
    {
      && EndsWith(promise, items)
      && var k := |promise| - |items|;
        cachePosition == count - 1 - k && (k == 0 || k < count)
    }

    ghost function Held(): seq<Item>
      reads this
    {
      if cache.Some? then cache.value else []
    }

    ghost function View(): (f: Outlook)
      reads this
      ensures f.promise == promise && f.count == count && f.list == list && f.cached == cache.Some?
    {
      Outlook(list, cache.Some?, promise, count)
    }

    /** The item is the current one or among those still promised. */
    ghost predicate Owes(x: Item)
      reads this
    {
      exists i :: count - 1 <= i < |promise| && 0 <= i && promise[i] == x
    }

    constructor (g: ListGuard)
      ensures Valid() && source == g.list && list == g
      ensures promise == g.list.vector && count == 0 && cache == None && Held() == []
    {
      source := g.list;
      position := -1;
      end := |g.list.vector|;
      list := g;
      cache := None;
      cachePosition := -1;
      status := false;
      promise := g.list.vector;
      count := 0;
    }

    method GetCurrent() returns (x: Item)
      requires Valid() && count > 0 && !Finished()
      ensures x == promise[count - 1]
    {
      x := if cache.Some? then cache.value[cachePosition] else source.vector[position];
    }

    /** Adds the current item and all that follow to the snapshot. */
    method Remainder() returns (items: seq<Item>)
      requires 0 <= position < end == |source.vector| && source.Owning()
      modifies this`position, source.heap
      ensures items == source.vector[old(position)..]
      ensures source.heap.counts == old(source.heap.counts) + multiset(items)
    {
      items := [];
      var more := true;
      while more
        invariant old(position) <= position <= end && (more <==> position < end)
        invariant items == source.vector[old(position)..position]
        invariant source.Owning()
        invariant source.heap.counts == old(source.heap.counts) + multiset(items)
        decreases end - position
      {
        source.heap.Retain(source.vector[position]);
        items := items + [source.vector[position]];
        position := position + 1;
        more := position < end;
      }
    }

    /**
     * Takes the snapshot: the current item and what follows it. An iterator that has not moved is left
     * with an empty one, except over an empty list, where there is nothing it could read.
     */
    method ListChanged()
      requires Valid() && (View().Unmoved() ==> source.vector != []) && source.Owning()
      modifies this, source.heap
      ensures Valid() && old(View()).Kept(View()) && (list != null ==> cache.Some?)
      ensures source.heap.counts + multiset(old(Held())) == old(source.heap.counts) + multiset(Held())
      ensures old(source.heap.counts) <= source.heap.counts
    {
      if cache.Some? || list == null {
        return;
      }
      var items := [];
      if status {
        items := Remainder();
      } else {
        position := position + 1;
      }
      cache := Some(items);
      cachePosition := -1;
      if status {
        cachePosition := cachePosition + 1;
      } else {
        promise := [];
      }
    }

    method Advance() returns (moved: bool)
      requires Valid()
      modifies this
      ensures promise == old(promise) && cache == old(cache) && list == old(list)
      ensures moved <==> old(count) < |promise|
      ensures moved ==> Valid() && !Finished() && count == old(count) + 1
      ensures !moved ==> Finished() && count == old(count) == |promise| && status == (count > 0)
    {
      if cache.Some? {
        cachePosition := cachePosition + 1;
        moved := cachePosition < |cache.value|;
      } else {
        position := position + 1;
        moved := position < end;
      }
      if moved {
        status := true;
        count := count + 1;
      }
    }

    /** Takes the iterator off the list that it is registered with, if any. */
    method Leave(ghost g: ListGuard)
      requires g.Linked() && this in g.live
      modifies this`list, g`iterators
      ensures g.Linked() && list == null
    {
      if list != null {
        assert list == g;
        list.IteratorUnregister(this);
      }
      list := null;
      assert forall it <- g.live :: it.list == g ==> it in g.iterators;
      assert forall k :: 0 <= k < |g.iterators| ==> g.iterators[k] in g.iterators;
    }

    /** The iterator no longer counts among those of the list. */
    method Part(g: ListGuard)
      requires g.Linked() && this in g.live
      modifies this`list, g`iterators, g`live
      ensures g.Linked() && g.live == old(g.live) - {this}
    {
      Leave(g);
      assert this !in g.iterators;
      g.live := g.live - {this};
    }

    method ReleaseHeld(heap: References)
      requires multiset(Held()) <= heap.counts
      modifies heap
      ensures heap.counts + multiset(Held()) == old(heap.counts)
    {
      if cache.Some? {
        ReleaseAll(heap, cache.value);
      }
    }

    /** The destructor, with that of the snapshot. */
    method Destroy(g: ListGuard)
      requires g.Valid() && this in g.live
      modifies this, g`iterators, g`live, g.heap
      ensures g.Valid() && g.live == old(g.live) - {this}
    {
      hide Total, GuardIterator.Valid, ListGuard.Linked;
      TotalSplit(g.live, this);
      ghost var c, held := g.heap.counts, multiset(Held());
      Part(g);
      ReleaseHeld(g.heap);
      SameShare(c, g.heap.counts, held, multiset{}, g.outside + multiset(g.list.vector) + Total(g.live));
    }

    /** Moves to the next item; at the end the iterator takes itself off the list. */
    method MoveNext(ghost g: ListGuard) returns (moved: bool)
      requires g.Valid() && this in g.live
      modifies this, g`iterators
      ensures g.Valid() && Valid()
      ensures promise == old(promise) && cache == old(cache)
      ensures moved <==> old(count) < |promise|
      ensures moved ==> count == old(count) + 1 && list == old(list) && !Finished()
      ensures !moved ==> count == old(count) && list == null
    {
      hide Total, GuardIterator.Valid;
      TotalSplit(g.live, this);
      moved := Advance();
      if !moved {
        Leave(g);
        ValidAtEnd(this);
      }
      TotalSplit(g.live, this);
    }
  }

  ghost predicate Distinct(s: seq<GuardIterator>) {
    forall i, j :: 0 <= i < j < |s| ==> s[i] != s[j]
  }

  lemma ValidAtEnd(it: GuardIterator)
    requires it.Finished() && it.list == null && it.count == |it.promise| && it.status == (it.count > 0)
    ensures it.Valid()
  {}

  lemma OwningList(g: ListGuard)
    requires g.Valid()
    ensures g.list.heap == g.heap && g.list.Owning()
    ensures g.heap.counts == g.outside + multiset(g.list.vector) + Total(g.live)
  {}

  class ListGuard {
    const list: AutoArray
    const heap: References
    var iterators: seq<GuardIterator>
    /** All iterators that exist, registered or finished. */
    ghost var live: set<GuardIterator>
    /** The references that others hold. */
    ghost var outside: multiset<Item>

    /** The registered iterators are those of the existing ones that still have the list. */
    ghost predicate Linked()
      reads this, live
    {
      && Distinct(iterators)
      && (forall it <- live :: it.source == list && (it.list == null || it.list == this))
      && (forall it <- live :: it.list == this <==> it in iterators)
      && (forall k :: 0 <= k < |iterators| ==> iterators[k] in live)
    }

    /** Every reference is somebody's: of others, of the list, or of a snapshot. */
    ghost predicate Accounted()
      reads this, heap, list, live
    {
      heap.counts == outside + multiset(list.vector) + Total(live)
    }

    ghost predicate Valid()
      reads this, heap, list, live
    {
      list.heap == heap && Linked() && Accounted() && forall it <- live :: it.Valid()
    }

    constructor (heap: References, same: Comparison)
      ensures Valid() && this.heap == heap && list.same == same && fresh(list)
      ensures list.vector == [] && live == {} && outside == heap.counts
    {
      list := new AutoArray(heap, same);
      this.heap := heap;
      iterators := [];
      live := {};
      outside := heap.counts;
    }

    /** No iterator would be notified before its first item while the list has none. */
    ghost predicate Guardable()
      reads this, list, live
    {
      list.vector == [] ==> forall it <- live :: !it.View().Unmoved()
    }

    /** What a change of the list does to iterators: those that had moved go on as if nothing happened. */
    twostate predicate Announced()
      reads this, live
    {
      forall it <- live :: old(allocated(it)) && old(it.View()).Kept(it.View()) && (it.list != null ==> it.cache.Some?)
    }

    method IteratorRegister(it: GuardIterator)
      modifies this`iterators
      ensures iterators == old(iterators) + [it]
    {
      iterators := iterators + [it];
    }

    method IteratorUnregister(it: GuardIterator)
      modifies this`iterators
      requires Distinct(iterators)
      ensures Distinct(iterators)
      ensures forall o :: o in iterators <==> o in old(iterators) && o != it
    {
      var i := 0;
      while i < |iterators| && iterators[i] != it
        invariant 0 <= i <= |iterators| && it !in iterators[..i]
      {
        i := i + 1;
      }
      if i < |iterators| {
        iterators := iterators[..i] + iterators[i + 1..];
      }
    }

    method GetIterator() returns (it: GuardIterator)
      requires Valid()
      modifies this`iterators, this`live
      ensures Valid() && fresh(it) && live == old(live) + {it}
      ensures it.promise == list.vector && it.count == 0 && it.list == this && it.cache == None
    {
      hide GuardIterator.Valid, Total;
      it := new GuardIterator(this);
      IteratorRegister(it);
      live := live + {it};
      TotalSplit(live, it);
      assert live - {it} == old(live);
    }

    method Notify(it: GuardIterator)
      requires Valid() && it in live && (it.View().Unmoved() ==> list.vector != [])
      modifies it, heap
      ensures Valid() && old(it.View()).Kept(it.View()) && (it.list != null ==> it.cache.Some?)
      ensures old(heap.counts) <= heap.counts
    {
      hide GuardIterator.Valid, Total, GuardIterator.Held, AutoArray.Owning, Outlook.Kept;
      OwningList(this);
      TotalSplit(live, it);
      ghost var counts, held := heap.counts, multiset(it.Held());
      ghost var rest := outside + multiset(list.vector) + Total(live - {it});
      it.ListChanged();
      TotalSplit(live, it);
      SameShare(counts, heap.counts, held, multiset(it.Held()), rest);
    }

    /** No iterator depends on what becomes of the list. */
    ghost predicate Independent()
      reads this, live
    {
      list.heap == heap && Linked() && forall it <- live :: it.Independent()
    }

    method GuardIterators()
      requires Valid() && Guardable()
      modifies heap, live
      ensures Valid() && Independent() && Announced() && old(heap.counts) <= heap.counts
    {
      hide ListGuard.Valid, GuardIterator.Valid, GuardIterator.Held, Total;
      AllLive(this);
      forall it <- live ensures it.View().Kept(it.View()) {
        KeptSame(it.View());
      }
      var i := 0;
      while i < |iterators|
        invariant 0 <= i <= |iterators| && Valid() && old(heap.counts) <= heap.counts
        invariant forall k :: 0 <= k < i ==> iterators[k].list != null ==> iterators[k].cache.Some?
        invariant forall it <- live :: old(it.View()).Kept(it.View())
      {
        var it := iterators[i];
        ghost var f := it.View();
        Notify(it);
        KeptAgain(old(it.View()), f, it.View());
        i := i + 1;
      }
      AllRegistered(this);
    }

    method AddItem(x: Item)
      requires Valid() && Guardable() && heap.Alive(x)
      modifies list, heap, live
      ensures Valid() && Announced()
      ensures list.vector == old(list.vector) + [x]
    {
      hide ListGuard.Valid, ListGuard.Independent, AutoArray.Owning, GuardIterator.Held, Total;
      GuardIterators();
      OwningList(this);
      ghost var c, v := heap.counts, multiset(list.vector);
      list.AddItem(x);
      Settle(this, c, v);
    }

    method InsertItem(index: nat, x: Item)
      requires Valid() && Guardable() && heap.Alive(x) && index <= |list.vector|
      modifies list, heap, live
      ensures Valid() && Announced()
      ensures list.vector == old(list.vector)[..index] + [x] + old(list.vector)[index..]
    {
      hide ListGuard.Valid, ListGuard.Independent, AutoArray.Owning, GuardIterator.Held, Total;
      GuardIterators();
      OwningList(this);
      ghost var c, v := heap.counts, multiset(list.vector);
      list.InsertItem(index, x);
      Settle(this, c, v);
    }

    /** Some registered iterator that has moved can still yield the item. */
    ghost predicate Lends(x: Item, its: set<GuardIterator>)
      reads its
    {
      exists it <- its :: it.list != null && it.count > 0 && it.Owes(x)
    }

    /** The new item must live on when the old one is released; a snapshot to be taken helps it to. */
    method SetItem(index: nat, x: Item)
      requires Valid() && Guardable() && index < |list.vector|
      requires Survives(heap.counts, list.vector[index], x) || Lends(x, live)
      modifies list, heap, live
      ensures Valid() && Announced()
      ensures list.vector == old(list.vector)[index := x]
    {
      hide ListGuard.Valid, ListGuard.Independent, AutoArray.Owning, GuardIterator.Held, Total;
      GuardIterators();
      OwningList(this);
      if Lends(x, live) {
        LentSurvives(this, index, x);
      }
      ghost var c, v := heap.counts, multiset(list.vector);
      list.SetItem(index, x);
      Settle(this, c, v);
    }

    method RemoveItemAt(index: nat)
      requires Valid() && Guardable() && index < |list.vector|
      modifies list, heap, live
      ensures Valid() && Announced()
      ensures list.vector == DropAt(old(list.vector), index)
    {
      hide ListGuard.Valid, ListGuard.Independent, AutoArray.Owning, GuardIterator.Held, Total;
      GuardIterators();
      OwningList(this);
      ghost var c, v := heap.counts, multiset(list.vector);
      list.RemoveItemAt(index);
      Settle(this, c, v);
    }

    method RemoveItem(x: Item) returns (found: bool)
      requires Valid() && Guardable()
      modifies list, heap, live
      ensures Valid() && Announced()
      ensures list.vector == DropFirst(old(list.vector), list.same, x)
      ensures found == (IndexOf(old(list.vector), list.same, x) < |old(list.vector)|)
    {
      hide ListGuard.Valid, ListGuard.Independent, AutoArray.Owning, GuardIterator.Held, Total;
      GuardIterators();
      OwningList(this);
      ghost var c, v := heap.counts, multiset(list.vector);
      found := list.RemoveItem(x);
      Settle(this, c, v);
    }

    method RemoveItems(x: Item)
      requires Valid() && Guardable() && heap.Alive(x)
      modifies list, heap, live
      ensures Valid() && Announced()
      ensures list.vector == Select(old(list.vector), Unlike(list.same, x))
    {
      hide ListGuard.Valid, ListGuard.Independent, AutoArray.Owning, GuardIterator.Held, Total;
      GuardIterators();
      OwningList(this);
      ghost var c, v := heap.counts, multiset(list.vector);
      list.RemoveItems(x);
      Settle(this, c, v);
    }

    /** Every registered iterator loses the list. */
    method Detach()
      requires Independent()
      modifies live`list, this`iterators
      ensures Independent() && forall it <- live :: it.list == null
    {
      var i := 0;
      while i < |iterators|
        invariant 0 <= i <= |iterators|
        invariant forall k :: 0 <= k < i ==> iterators[k].list == null
        invariant forall it <- live :: it.list == null || it.list == old(it.list)
        modifies live`list
      {
        iterators[i].list := null;
        i := i + 1;
      }
      assert forall it <- live :: old(it.list) != null ==> it in iterators;
      iterators := [];
    }

    /** The destructor: iterators that have moved outlive the list. */
    method Destroy()
      requires Valid() && Guardable()
      modifies this`iterators, list, heap, live
      ensures Valid() && list.vector == []
      ensures forall it <- live :: it.list == null && it.count == old(it.count)
      ensures forall it <- live :: it.promise == if old(it.View().Unmoved()) then [] else old(it.promise)
    {
      hide ListGuard.Valid, ListGuard.Independent, AutoArray.Owning, Total;
      GuardIterators();
      OwningList(this);
      label attached:
      Detach();
      SameTotal@attached(live);
      ghost var c, v := heap.counts, multiset(list.vector);
      list.Clear();
      Settle(this, c, v);
    }

    /** Others take a reference, or give one up. */
    method Take(x: Item)
      requires Valid() && heap.Alive(x)
      modifies heap, this`outside
      ensures Valid() && outside == old(outside) + multiset{x}
    {
      hide GuardIterator.Valid, Total;
      outside := outside + multiset{x};
      heap.Retain(x);
    }

    method Drop(x: Item)
      requires Valid() && x in outside
      modifies heap, this`outside
      ensures Valid() && outside == old(outside) - multiset{x}
    {
      hide GuardIterator.Valid, Total;
      outside := outside - multiset{x};
      heap.Release(x);
    }

    method Clear()
      requires Valid() && Guardable()
      modifies list, heap, live
      ensures Valid() && Announced()
      ensures list.vector == []
    {
      hide ListGuard.Valid, ListGuard.Independent, AutoArray.Owning, GuardIterator.Held, Total;
      GuardIterators();
      OwningList(this);
      ghost var c, v := heap.counts, multiset(list.vector);
      list.Clear();
      Settle(this, c, v);
    }
  }

  /** A snapshot holds whatever its iterator can still yield. */
  lemma SnapshotHolds(g: ListGuard, it: GuardIterator, x: Item)
    requires it in g.live && it.Independent() && !it.Finished() && it.Owes(x)
    ensures Total(g.live)[x] > 0
  {
    hide Total, GuardIterator.Independent, GuardIterator.Finished, GuardIterator.Owes, GuardIterator.Held;
    OwedHeld(it, x);
    TotalSplit(g.live, it);
  }

  lemma OwedHeld(it: GuardIterator, x: Item)
    requires it.Independent() && !it.Finished() && it.Owes(x)
    ensures x in it.Held()
  {
    var i :| it.count - 1 <= i < |it.promise| && 0 <= i && it.promise[i] == x;
    EndHas(it.promise, it.cache.value, i);
  }

  lemma EndHas(s: seq<Item>, e: seq<Item>, i: nat)
    requires EndsWith(s, e) && |s| - |e| <= i < |s|
    ensures s[i] in e
  {
    assert e[i - (|s| - |e|)] == s[i];
  }

  /** Yields what the iterator still has to give. */
  method Drain(g: ListGuard, it: GuardIterator) returns (items: seq<Item>)
    requires g.Valid() && it in g.live && it.count <= |it.promise|
    modifies it, g`iterators
    ensures g.Valid() && items == old(it.promise)[old(it.count)..]
  {
    hide ListGuard.Valid, GuardIterator.Finished, GuardIterator.Valid;
    items := [];
    var moved := it.MoveNext(g);
    while moved
      invariant g.Valid() && it.promise == old(it.promise) && it.count <= |it.promise|
      invariant moved ==> it.Valid() && !it.Finished() && it.count > 0
      invariant items == it.promise[old(it.count)..if moved then it.count - 1 else it.count]
      invariant !moved ==> it.count == |it.promise|
      invariant old(it.count) <= if moved then it.count - 1 else it.count
      decreases |it.promise| - it.count, moved
    {
      var x := it.GetCurrent();
      items := items + [x];
      moved := it.MoveNext(g);
    }
  }

  /**
   * A list is changed while an iterator is at its first item, or still before it. The iterator yields
   * what the list held in the first case and nothing in the second.
   */
  method IterateAcrossChange(g: ListGuard, x: Item, moveFirst: bool) returns (items: seq<Item>)
    requires g.Valid() && g.list.vector != [] && g.heap.Alive(x)
    modifies g, g.list, g.heap, g.live
    ensures g.Valid() && g.list.vector == old(g.list.vector) + [x]
    ensures items == if moveFirst then old(g.list.vector) else []
  {
    hide ListGuard.Valid, GuardIterator.Valid;
    var it := g.GetIterator();
    items := [];
    if moveFirst {
      var moved := it.MoveNext(g);
      var first := it.GetCurrent();
      items := [first];
    }
    g.AddItem(x);
    var more := Drain(g, it);
    items := items + more;
  }

  lemma LentSurvives(g: ListGuard, index: nat, x: Item)
    requires g.Valid() && g.Independent() && index < |g.list.vector| && g.Lends(x, g.live)
    ensures Survives(g.heap.counts, g.list.vector[index], x)
  {
    var it :| it in g.live && it.list != null && it.count > 0 && it.Owes(x);
    SnapshotHolds(g, it, x);
  }

  /** What an iterator can still yield is alive, whether or not it is still in the list. */
  lemma YieldedAlive(g: ListGuard, it: GuardIterator, x: Item)
    requires g.Valid() && it in g.live && !it.Finished() && it.Owes(x)
    ensures g.heap.Alive(x)
  {
    if it.cache.Some? {
      SnapshotHolds(g, it, x);
    }
  }

  twostate lemma {:induction false} SameTotal(its: set<GuardIterator>)
    requires forall it <- its :: old(allocated(it)) && it.Held() == old(it.Held())
    ensures Total(its) == old(Total(its))
  {
    if its != {} {
      SameTotal(its - {Pick(its)});
    }
  }

  lemma Settle(g: ListGuard, c: multiset<Item>, v: multiset<Item>)
    requires g.Independent() && c == g.outside + v + Total(g.live)
    requires g.heap.counts + v == c + multiset(g.list.vector)
    ensures g.Valid()
  {
    SameShare(c, g.heap.counts, v, multiset(g.list.vector), g.outside + Total(g.live));
  }

  lemma KeptSame(f: Outlook)
    ensures f.Kept(f)
  {}

  lemma AllLive(g: ListGuard)
    requires g.Valid()
    ensures forall k :: 0 <= k < |g.iterators| ==> g.iterators[k] in g.live
  {}

  lemma AllRegistered(g: ListGuard)
    requires g.Valid()
    requires forall k :: 0 <= k < |g.iterators| ==> (g.iterators[k].list != null ==> g.iterators[k].cache.Some?)
    ensures g.Independent()
    ensures forall it <- g.live :: it.list != null ==> it.cache.Some?
  {}
}

/** Programs of nested loops and changes, and what they mean to somebody who iterates over copies. */
module ListPrograms {
  import opened Basics
  import opened Searching
  import opened AutoArrays
  import opened ListGuards

  /** A loop runs the given bodies, one per item, and breaks off when there are no more of them. */
  datatype Action =
    | Add(x: Item)
    | Insert(index: nat, x: Item)
    | Set(index: nat, x: Item)
    | RemoveAt(index: nat)
    | Remove(x: Item)
    | RemoveAll(x: Item)
    | Clear
    | Take(x: Item)
    | Drop(x: Item)
    | Foreach(bodies: Bodies)
  datatype Program = End | Do(first: Action, rest: Program)
  datatype Bodies = Break | Each(body: Program, next: Bodies)

  datatype State = State(items: seq<Item>, outside: multiset<Item>)
  datatype Outcome = Outcome(state: State, trace: seq<Item>)

  /** A program may name objects that somebody holds, the list holds, or an enclosing loop has yielded. */
  predicate Reachable(s: State, lent: set<Item>, x: Item) {
    x in s.outside || x in s.items || x in lent
  }

  /** An object set in its own place needs another holder. */
  predicate Settable(s: State, lent: set<Item>, index: nat, x: Item) {
    && index < |s.items| && Reachable(s, lent, x)
    && (x == s.items[index] ==> x in s.outside || x in DropAt(s.items, index) || x in lent)
  }

  /** What the list asks of its callers: indices that exist and objects that are alive. */
  predicate Allowed(a: Action, s: State, lent: set<Item>)
    requires !a.Foreach?
  {
    match a
    case Add(x) => Reachable(s, lent, x)
    case Insert(i, x) => Reachable(s, lent, x) && i <= |s.items|
    case Set(i, x) => Settable(s, lent, i, x)
    case RemoveAt(i) => i < |s.items|
    case Remove(x) => Reachable(s, lent, x)
    case RemoveAll(x) => Reachable(s, lent, x)
    case Take(x) => Reachable(s, lent, x)
    case Drop(x) => x in s.outside
    case _ => true
  }

  /** What an action other than a loop does. */
  function Change(a: Action, s: State, same: Comparison, lent: set<Item>): State
    requires !a.Foreach? && Allowed(a, s, lent)
  {
    match a
    case Add(x) => s.(items := s.items + [x])
    case Insert(i, x) => s.(items := s.items[..i] + [x] + s.items[i..])
    case Set(i, x) => s.(items := s.items[i := x])
    case RemoveAt(i) => s.(items := DropAt(s.items, i))
    case Remove(x) => s.(items := DropFirst(s.items, same, x))
    case RemoveAll(x) => s.(items := Select(s.items, Unlike(same, x)))
    case Clear => s.(items := [])
    case Take(x) => s.(outside := s.outside + multiset{x})
    case Drop(x) => s.(outside := s.outside - multiset{x})
  }

  function ActionMeaning(a: Action, s: State, same: Comparison, lent: set<Item>): Outcome {
    if a.Foreach? then BodiesMeaning(a.bodies, s.items, 0, s, same, lent)
    else if Allowed(a, s, lent) then Outcome(Change(a, s, same, lent), [])
    else Outcome(s, [])
  }

  function Meaning(p: Program, s: State, same: Comparison, lent: set<Item>): Outcome {
    if p.End? then Outcome(s, []) else
      var first := ActionMeaning(p.first, s, same, lent);
      var rest := Meaning(p.rest, first.state, same, lent);
      Outcome(rest.state, first.trace + rest.trace)
  }

  /** A loop over a copy: whatever the bodies do, the items to come are those of the copy. */
  function BodiesMeaning(b: Bodies, copy: seq<Item>, k: nat, s: State, same: Comparison, lent: set<Item>): Outcome {
    if b.Break? || k >= |copy| then Outcome(s, []) else
      var first := Meaning(b.body, s, same, lent + {copy[k]});
      var rest := BodiesMeaning(b.next, copy, k + 1, first.state, same, lent);
      Outcome(rest.state, [copy[k]] + first.trace + rest.trace)
  }

  /** Everything that a program does is allowed when it does it. */
  predicate ActionPermitted(a: Action, s: State, same: Comparison, lent: set<Item>) {
    if a.Foreach? then BodiesPermitted(a.bodies, s.items, 0, s, same, lent) else Allowed(a, s, lent)
  }

  predicate Permitted(p: Program, s: State, same: Comparison, lent: set<Item>) {
    p.End? || (ActionPermitted(p.first, s, same, lent) &&
      Permitted(p.rest, ActionMeaning(p.first, s, same, lent).state, same, lent))
  }

  predicate BodiesPermitted(b: Bodies, copy: seq<Item>, k: nat, s: State, same: Comparison, lent: set<Item>) {
    b.Break? || k >= |copy| || (Permitted(b.body, s, same, lent + {copy[k]}) &&
      BodiesPermitted(b.next, copy, k + 1, Meaning(b.body, s, same, lent + {copy[k]}).state, same, lent))
  }

  /** What each action asks for, and no more. */
  lemma AllowedMeans(s: State, lent: set<Item>, i: nat, x: Item)
    ensures var alive := x in s.outside || x in s.items || x in lent;
      && (Allowed(Add(x), s, lent) <==> alive)
      && (Allowed(Insert(i, x), s, lent) <==> alive && i <= |s.items|)
      && (Allowed(Remove(x), s, lent) <==> alive)
      && (Allowed(RemoveAll(x), s, lent) <==> alive)
      && (Allowed(Take(x), s, lent) <==> alive)
      && (Allowed(Drop(x), s, lent) <==> x in s.outside)
      && (Allowed(RemoveAt(i), s, lent) <==> i < |s.items|)
      && Allowed(Clear, s, lent)
    ensures i >= |s.items| ==> !Allowed(Set(i, x), s, lent)
    ensures i < |s.items| && s.items[i] != x ==>
      (Allowed(Set(i, x), s, lent) <==> x in s.outside || x in s.items || x in lent)
    ensures i < |s.items| && s.items[i] == x ==>
      (Allowed(Set(i, x), s, lent) <==> x in s.outside || x in lent || multiset(s.items)[x] > 1)
  {
    if i < |s.items| {
      DropAtCounts(s.items, i);
      assert x in multiset(DropAt(s.items, i)) <==> x in DropAt(s.items, i);
    }
  }

  /** Whether an action names only the given objects and no index, and gives up no reference of its own. */
  predicate CarefulAction(a: Action, held: set<Item>) {
    match a
    case Add(x) => x in held
    case Remove(x) => x in held
    case RemoveAll(x) => x in held
    case Take(x) => x in held
    case Clear => true
    case Foreach(b) => CarefulBodies(b, held)
    case _ => false
  }

  predicate Careful(p: Program, held: set<Item>) {
    p.Do? ==> CarefulAction(p.first, held) && Careful(p.rest, held)
  }

  predicate CarefulBodies(b: Bodies, held: set<Item>) {
    b.Each? ==> Careful(b.body, held) && CarefulBodies(b.next, held)
  }

  /** The body of each round may also name the item that the round yields. */
  predicate CarefulRounds(b: Bodies, copy: seq<Item>, k: nat, held: set<Item>) {
    b.Each? && k < |copy| ==> Careful(b.body, held + {copy[k]}) && CarefulRounds(b.next, copy, k + 1, held)
  }

  predicate Held(held: set<Item>, s: State, lent: set<Item>) {
    forall x <- held :: x in s.outside || x in lent
  }

  /** A program that names only objects with another holder may do anything to the list, in loops of any depth. */
  lemma {:induction false} CarefulPermitted(p: Program, held: set<Item>, s: State, same: Comparison, lent: set<Item>)
    requires Careful(p, held) && Held(held, s, lent)
    ensures Permitted(p, s, same, lent)
    ensures s.outside <= Meaning(p, s, same, lent).state.outside
    decreases p, 1
  {
    if p.Do? {
      CarefulActionPermitted(p.first, held, s, same, lent);
      CarefulPermitted(p.rest, held, ActionMeaning(p.first, s, same, lent).state, same, lent);
    }
  }

  lemma {:induction false} CarefulActionPermitted(
      a: Action, held: set<Item>, s: State, same: Comparison, lent: set<Item>)
    requires CarefulAction(a, held) && Held(held, s, lent)
    ensures ActionPermitted(a, s, same, lent)
    ensures s.outside <= ActionMeaning(a, s, same, lent).state.outside
    decreases a, 1
  {
    if a.Foreach? {
      CarefulRoundsPermitted(a.bodies, s.items, 0, held, s, same, lent);
    }
  }

  /** A loop may moreover name the item that it yields, though the list may hold it no more. */
  lemma {:induction false} CarefulRoundsPermitted(
      b: Bodies, copy: seq<Item>, k: nat, held: set<Item>, s: State, same: Comparison, lent: set<Item>)
    requires CarefulBodies(b, held) || CarefulRounds(b, copy, k, held)
    requires Held(held, s, lent)
    ensures BodiesPermitted(b, copy, k, s, same, lent)
    ensures s.outside <= BodiesMeaning(b, copy, k, s, same, lent).state.outside
    decreases b
  {
    if b.Each? && k < |copy| {
      var inside := lent + {copy[k]};
      CarefulPermitted(b.body, if CarefulBodies(b, held) then held else held + {copy[k]}, s, same, inside);
      CarefulRoundsPermitted(b.next, copy, k + 1, held, Meaning(b.body, s, same, inside).state, same, lent);
    }
  }

  function Length(b: Bodies): nat {
    if b.Break? then 0 else 1 + Length(b.next)
  }

  /** What a loop yields from some index of its copy on: everything, or as much as there are bodies for. */
  function Yields(copy: seq<Item>, k: nat, b: Bodies): seq<Item>
    requires k <= |copy|
  {
    copy[k..k + Min(Length(b), |copy| - k)]
  }

  lemma YieldsStep(copy: seq<Item>, k: nat, b: Bodies)
    requires k <= |copy|
    ensures b.Break? || k == |copy| ==> Yields(copy, k, b) == []
    ensures b.Each? && k < |copy| ==> Yields(copy, k, b) == [copy[k]] + Yields(copy, k + 1, b.next)
  {}

  predicate Straight(p: Program) {
    p.Do? ==> !p.first.Foreach? && Straight(p.rest)
  }

  predicate StraightBodies(b: Bodies) {
    b.Each? ==> Straight(b.body) && StraightBodies(b.next)
  }

  lemma {:induction false} StraightTraceless(p: Program, s: State, same: Comparison, lent: set<Item>)
    requires Straight(p)
    ensures Meaning(p, s, same, lent).trace == []
  {
    if p.Do? {
      StraightTraceless(p.rest, ActionMeaning(p.first, s, same, lent).state, same, lent);
    }
  }

  /** A loop over changes alone yields its copy item by item, whatever the changes do to the list. */
  lemma {:induction false} StraightLoopTrace(
      b: Bodies, copy: seq<Item>, k: nat, s: State, same: Comparison, lent: set<Item>)
    requires StraightBodies(b) && k <= |copy|
    ensures BodiesMeaning(b, copy, k, s, same, lent).trace == copy[k..k + Min(Length(b), |copy| - k)]
  {
    if b.Each? && k < |copy| {
      var inside := lent + {copy[k]};
      StraightTraceless(b.body, s, same, inside);
      StraightLoopTrace(b.next, copy, k + 1, Meaning(b.body, s, same, inside).state, same, lent);
    }
  }

  ghost function StateOf(g: ListGuard): State
    reads g, g.list
  {
    State(g.list.vector, g.outside)
  }

  /** Between actions every iterator in use has moved, except one about to start. */
  ghost predicate Moving(its: set<GuardIterator>)
    reads its
  {
    forall it <- its :: !it.View().Unmoved()
  }

  /** To the user of an iterator: whether it still has items to give, and which. */
  datatype Standing = Standing(registered: bool, promise: seq<Item>, count: nat) {
    predicate Lends(x: Item) {
      registered && count > 0 && exists i :: count - 1 <= i < |promise| && promise[i] == x
    }
  }

  ghost function Standings(its: set<GuardIterator>): map<GuardIterator, Standing>
    reads its
  {
    map it | it in its :: Standing(it.list != null, it.promise, it.count)
  }

  ghost predicate AllLent(lent: set<Item>, m: map<GuardIterator, Standing>) {
    forall x <- lent :: exists it <- m :: m[it].Lends(x)
  }

  twostate lemma AnnouncedUndisturbed(g: ListGuard)
    requires old(g.live) == g.live && g.Announced() && old(Moving(g.live))
    ensures Standings(g.live) == old(Standings(g.live)) && Moving(g.live)
  {}

  lemma Lender(g: ListGuard, lent: set<Item>, x: Item) returns (it: GuardIterator)
    requires AllLent(lent, Standings(g.live)) && x in lent
    ensures it in g.live && it.list != null && it.count > 0 && it.Owes(x)
  {
    it :| it in g.live && Standings(g.live)[it].Lends(x);
  }

  lemma ReachableAlive(g: ListGuard, lent: set<Item>, x: Item)
    requires g.Valid() && AllLent(lent, Standings(g.live)) && Reachable(StateOf(g), lent, x)
    ensures g.heap.Alive(x)
  {
    hide Total, GuardIterator.Valid;
    if x in lent {
      var it := Lender(g, lent, x);
      RegisteredNotFinished(g, it);
      YieldedAlive(g, it, x);
    }
  }

  lemma RegisteredNotFinished(g: ListGuard, it: GuardIterator)
    requires g.Valid() && it in g.live && it.list != null
    ensures !it.Finished()
  {}

  lemma SettableSurvives(g: ListGuard, lent: set<Item>, index: nat, x: Item)
    requires g.Valid() && AllLent(lent, Standings(g.live)) && Settable(StateOf(g), lent, index, x)
    ensures Survives(g.heap.counts, g.list.vector[index], x) || g.Lends(x, g.live)
  {
    hide Total, GuardIterator.Valid;
    ReachableAlive(g, lent, x);
    DropAtCounts(g.list.vector, index);
    if x in lent {
      var it := Lender(g, lent, x);
    }
  }

  method Perform(g: ListGuard, a: Action, ghost lent: set<Item>)
    requires !a.Foreach? && g.Valid() && Moving(g.live) && AllLent(lent, Standings(g.live))
    requires Allowed(a, StateOf(g), lent)
    modifies g`outside, g.list, g.heap, g.live
    ensures g.Valid() && Moving(g.live) && Standings(g.live) == old(Standings(g.live))
    ensures StateOf(g) == Change(a, old(StateOf(g)), g.list.same, lent)
  {
    hide ListGuard.Valid, ListGuard.Announced, AllLent, GuardIterator.View, Reachable;
    match a
    case Add(x) =>
      ReachableAlive(g, lent, x);
      g.AddItem(x);
      AnnouncedUndisturbed(g);
    case Insert(i, x) =>
      ReachableAlive(g, lent, x);
      g.InsertItem(i, x);
      AnnouncedUndisturbed(g);
    case Set(i, x) =>
      SettableSurvives(g, lent, i, x);
      g.SetItem(i, x);
      AnnouncedUndisturbed(g);
    case RemoveAt(i) =>
      g.RemoveItemAt(i);
      AnnouncedUndisturbed(g);
    case Remove(x) =>
      var _ := g.RemoveItem(x);
      AnnouncedUndisturbed(g);
    case RemoveAll(x) =>
      ReachableAlive(g, lent, x);
      g.RemoveItems(x);
      AnnouncedUndisturbed(g);
    case Clear =>
      g.Clear();
      AnnouncedUndisturbed(g);
    case Take(x) =>
      ReachableAlive(g, lent, x);
      g.Take(x);
    case Drop(x) =>
      g.Drop(x);
  }

  /** What is known of one iterator, and of the others. */
  lemma OneOfThem(g: ListGuard, it: GuardIterator)
    requires g.Valid() && it in g.live
    ensures it.list != null ==> it.list == g
    ensures Standings(g.live - {it}) == Standings(g.live) - {it}
    ensures Moving(g.live) ==> Moving(g.live - {it})
    ensures Moving(g.live - {it}) && it.count > 0 ==> Moving(g.live)
  {}

  /** In the body of a loop the current item is lent as well. */
  lemma LentInside(g: ListGuard, lent: set<Item>, it: GuardIterator, x: Item)
    requires it in g.live && AllLent(lent, Standings(g.live - {it}))
    requires it.list != null && 0 < it.count <= |it.promise| && it.promise[it.count - 1] == x
    ensures AllLent(lent + {x}, Standings(g.live))
  {
    var m, m' := Standings(g.live - {it}), Standings(g.live);
    assert m'[it].Lends(x);
    forall y <- lent ensures exists o <- m' :: m'[o].Lends(y) {
      var o :| o in m && m[o].Lends(y);
      assert m'[o].Lends(y);
    }
  }

  /** Runs a program on the guarded list. */
  method Run(g: ListGuard, p: Program, ghost lent: set<Item>) returns (ghost trace: seq<Item>)
    requires g.Valid() && Moving(g.live) && AllLent(lent, Standings(g.live))
    requires Permitted(p, StateOf(g), g.list.same, lent)
    modifies g, g.list, g.heap, g.live
    ensures g.Valid() && g.live == old(g.live) && Moving(g.live) && Standings(g.live) == old(Standings(g.live))
    ensures Outcome(StateOf(g), trace) == Meaning(p, old(StateOf(g)), g.list.same, lent)
    decreases p, 0
  {
    hide ListGuard.Valid, Moving, AllLent, GuardIterator.View;
    trace := [];
    if p.Do? {
      var first := RunAction(g, p.first, lent);
      var rest := Run(g, p.rest, lent);
      trace := first + rest;
    }
  }

  method RunAction(g: ListGuard, a: Action, ghost lent: set<Item>) returns (ghost trace: seq<Item>)
    requires g.Valid() && Moving(g.live) && AllLent(lent, Standings(g.live))
    requires ActionPermitted(a, StateOf(g), g.list.same, lent)
    modifies g, g.list, g.heap, g.live
    ensures g.Valid() && g.live == old(g.live) && Moving(g.live) && Standings(g.live) == old(Standings(g.live))
    ensures Outcome(StateOf(g), trace) == ActionMeaning(a, old(StateOf(g)), g.list.same, lent)
    decreases a
  {
    hide ListGuard.Valid, Moving, AllLent, GuardIterator.View;
    if a.Foreach? {
      ghost var own;
      own, trace := RunLoop(g, a.bodies, lent);
    } else {
      Perform(g, a, lent);
      trace := [];
    }
  }

  /** The for-each loop: an iterator of its own, moved before every body, destroyed at the end. */
  method RunLoop(g: ListGuard, bodies: Bodies, ghost lent: set<Item>)
      returns (ghost own: seq<Item>, ghost trace: seq<Item>)
    requires g.Valid() && Moving(g.live) && AllLent(lent, Standings(g.live))
    requires BodiesPermitted(bodies, g.list.vector, 0, StateOf(g), g.list.same, lent)
    modifies g, g.list, g.heap, g.live
    ensures g.Valid() && g.live == old(g.live) && Moving(g.live) && Standings(g.live) == old(Standings(g.live))
    ensures own == old(g.list.vector)[..Min(Length(bodies), |old(g.list.vector)|)]
    ensures Outcome(StateOf(g), trace) ==
      BodiesMeaning(bodies, old(g.list.vector), 0, old(StateOf(g)), g.list.same, lent)
    decreases bodies, 1
  {
    hide ListGuard.Valid, Moving, AllLent, GuardIterator.View, Length, BodiesMeaning;
    var it := g.GetIterator();
    assert g.live - {it} == old(g.live);
    own, trace := RunBodies(g, it, bodies, lent);
    it.Destroy(g);
  }

  /** One round of a loop, with its current item lent to the body. */
  method RunBody(g: ListGuard, it: GuardIterator, p: Program, ghost lent: set<Item>, x: Item)
      returns (ghost trace: seq<Item>)
    requires g.Valid() && it in g.live && it.list == g && 0 < it.count <= |it.promise| && x == it.promise[it.count - 1]
    requires Moving(g.live - {it}) && AllLent(lent, Standings(g.live - {it}))
    requires Permitted(p, StateOf(g), g.list.same, lent + {x})
    modifies g, g.list, g.heap, g.live
    ensures g.Valid() && g.live == old(g.live)
    ensures Moving(g.live - {it}) && Standings(g.live - {it}) == old(Standings(g.live - {it}))
    ensures it.list == g && it.count == old(it.count) && it.promise == old(it.promise)
    ensures Outcome(StateOf(g), trace) == Meaning(p, old(StateOf(g)), g.list.same, lent + {x})
    decreases p, 1
  {
    hide ListGuard.Valid, Moving, AllLent, GuardIterator.View, GuardIterator.Finished, GuardIterator.Valid, Meaning;
    LentInside(g, lent, it, x);
    OneOfThem(g, it);
    trace := Run(g, p, lent + {x});
    OneOfThem(g, it);
    assert Standings(g.live)[it] == old(Standings(g.live))[it];
  }

  method RunBodies(g: ListGuard, it: GuardIterator, bodies: Bodies, ghost lent: set<Item>)
      returns (ghost own: seq<Item>, ghost trace: seq<Item>)
    requires g.Valid() && it in g.live && it.list == g && it.count <= |it.promise|
    requires Moving(g.live - {it}) && AllLent(lent, Standings(g.live - {it}))
    requires BodiesPermitted(bodies, it.promise, it.count, StateOf(g), g.list.same, lent)
    modifies g, g.list, g.heap, g.live
    ensures g.Valid() && g.live == old(g.live)
    ensures Moving(g.live - {it}) && Standings(g.live - {it}) == old(Standings(g.live - {it}))
    ensures own == old(Yields(it.promise, it.count, bodies))
    ensures Outcome(StateOf(g), trace) ==
      BodiesMeaning(bodies, old(it.promise), old(it.count), old(StateOf(g)), g.list.same, lent)
    decreases bodies, 0
  {
    hide ListGuard.Valid, Moving, AllLent, GuardIterator.View, GuardIterator.Finished, GuardIterator.Valid, Yields;
    own, trace := [], [];
    YieldsStep(it.promise, it.count, bodies);
    if bodies.Each? {
      var moved := it.MoveNext(g);
      if moved {
        var x := it.GetCurrent();
        var first := RunBody(g, it, bodies.body, lent, x);
        var more, rest := RunBodies(g, it, bodies.next, lent);
        own := [x] + more;
        trace := [x] + first + rest;
      }
    }
  }
}

/** Events: guarded lists of delegates, compared by what they call. */
module Events {
  import opened Basics
  import opened Searching
  import opened AutoArrays
  import opened ListGuards
  import opened ListPrograms

  /** What a delegate calls: nothing, a free function or functor, or a method of an object. */
  datatype Delegate = Unset | Free(code: nat) | Bound(target: nat, code: nat)

  function NotBound(delegates: Item -> Delegate, target: nat): Item -> bool {
    (x: Item) => !IsBound(delegates(x), target)
  }

  predicate IsBound(d: Delegate, target: nat) {
    d.Bound? && d.target == target
  }

  class Event {
    const list: ListGuard
    /** The delegate at an address. */
    const delegates: Item -> Delegate

    ghost predicate Valid()
      reads this, list, list.heap, list.list, list.live
    {
      && list.Valid()
      && forall x, y :: list.list.same(x, y) <==> x == y || delegates(x) == delegates(y)
    }

    constructor (heap: References, delegates: Item -> Delegate)
      ensures Valid() && this.delegates == delegates && list.heap == heap && fresh(list) && fresh(list.list)
      ensures list.list.vector == [] && list.live == {}
    {
      this.delegates := delegates;
      list := new ListGuard(heap, (x: Item, y: Item) => x == y || delegates(x) == delegates(y));
    }

    method AddDelegate(x: Item)
      requires Valid() && list.Guardable() && list.heap.Alive(x)
      modifies list.list, list.heap, list.live
      ensures Valid() && list.Announced()
      ensures list.list.vector == old(list.list.vector) + [x]
    {
      list.AddItem(x);
    }

    /** Every delegate equal to the given one goes. */
    method RemoveDelegate(x: Item)
      requires Valid() && list.Guardable() && list.heap.Alive(x)
      modifies list.list, list.heap, list.live
      ensures Valid() && list.Announced()
      ensures list.list.vector == Select(old(list.list.vector), Unlike(list.list.same, x))
    {
      list.RemoveItems(x);
    }

    /** Removes the first delegate bound to the object, by comparison, and starts over. */
    method RemoveObject(target: nat)
      requires Valid() && list.Guardable()
      modifies list.list, list.heap, list.live
      ensures Valid() && list.Guardable()
      ensures list.list.vector == Select(old(list.list.vector), NotBound(delegates, target))
      ensures forall x ::
        multiset(list.list.vector)[x] ==
          if delegates(x).Bound? && delegates(x).target == target then 0 else multiset(old(list.list.vector))[x]
      ensures forall it <- list.live :: old(it.View()).Kept(it.View())
      decreases |list.list.vector|
    {
      hide ListGuard.Valid, Select, IndexOf, GuardIterator.View, ListGuard.Guardable, ListGuard.Announced, Outlook.Kept;
      NotBoundCounts(list.list.vector, delegates, target);
      NothingYet(list);
      var i := 0;
      while i < |list.list.vector|
        invariant 0 <= i <= |list.list.vector|
        invariant forall j :: 0 <= j < i ==> !IsBound(delegates(list.list.vector[j]), target)
      {
        var item := list.list.vector[i];
        if IsBound(delegates(item), target) {
          FirstBound(list.list.vector, list.list.same, delegates, target, i);
          var _ := list.RemoveItem(item);
          AnnouncedKept(list);
          ghost var views := map it | it in list.live :: it.View();
          RemoveObject(target);
          forall it <- list.live ensures old(it.View()).Kept(it.View()) {
            KeptAgain(old(it.View()), views[it], it.View());
          }
          return;
        }
        i := i + 1;
      }
      SelectEverything(list.list.vector, NotBound(delegates, target));
    }

    /** Runs the delegates registered when the call began, whatever they do to the event meanwhile. */
    method Call(bodies: Bodies, ghost lent: set<Item>) returns (ghost called: seq<Item>)
      requires Valid() && Moving(list.live) && AllLent(lent, Standings(list.live))
      requires BodiesPermitted(bodies, list.list.vector, 0, StateOf(list), list.list.same, lent)
      requires Length(bodies) >= |list.list.vector|
      modifies list, list.list, list.heap, list.live
      ensures Valid() && list.live == old(list.live) && Standings(list.live) == old(Standings(list.live))
      ensures called == old(list.list.vector)
    {
      hide ListGuard.Valid, Moving, Standings, BodiesMeaning, BodiesPermitted;
      ghost var trace;
      called, trace := RunLoop(list, bodies, lent);
    }
  }

  lemma NotBoundCounts(s: seq<Item>, delegates: Item -> Delegate, target: nat)
    ensures forall x ::
      multiset(Select(s, NotBound(delegates, target)))[x] ==
        if delegates(x).Bound? && delegates(x).target == target then 0 else multiset(s)[x]
  {
    forall x: Item ensures multiset(Select(s, NotBound(delegates, target)))[x] ==
      if delegates(x).Bound? && delegates(x).target == target then 0 else multiset(s)[x]
    {
      SelectCounts(s, NotBound(delegates, target), x);
    }
  }

  lemma NothingYet(g: ListGuard)
    ensures forall it <- g.live :: it.View().Kept(it.View())
  {}

  twostate lemma AnnouncedKept(g: ListGuard)
    requires g.live == old(g.live) && g.Announced()
    ensures g.Guardable() && forall it <- g.live :: old(it.View()).Kept(it.View())
  {}

  /** The first delegate bound to an object is the first that equals it. */
  lemma FirstBound(s: seq<Item>, same: Comparison, delegates: Item -> Delegate, target: nat, i: nat)
    requires i < |s| && IsBound(delegates(s[i]), target)
    requires forall j :: 0 <= j < i ==> !IsBound(delegates(s[j]), target)
    requires forall x, y :: same(x, y) <==> x == y || delegates(x) == delegates(y)
    ensures DropFirst(s, same, s[i]) == DropAt(s, i)
    ensures Select(DropAt(s, i), NotBound(delegates, target)) == Select(s, NotBound(delegates, target))
  {
    assert IndexOf(s, same, s[i]) == i;
    SelectWithoutOne(s, NotBound(delegates, target), i);
  }
}
