/**
 * The pool of component templates: a least-recently-used cache kept as a doubly linked list
 * threaded through a slab, with a map from keys to slab indices.
 */
module TemplatePool {
  import opened Wrappers
  import Storage

  type Key = nat

  datatype Entry<V> = Entry(key: Key, value: V, prev: Option<nat>, next: Option<nat>)

  datatype Item<V> = Item(key: Key, value: V)

  // ----- the recency list, most recent first

  /** The position of a key in a recency list. */
  function Find<V>(s: seq<Item<V>>, key: Key): (r: Option<nat>)
    ensures r.Some? ==> r.value < |s| && s[r.value].key == key
    ensures r.None? ==> forall j :: 0 <= j < |s| ==> s[j].key != key
  {
    if |s| == 0 then None
    else if s[0].key == key then Some(0)
    else match Find(s[1..], key)
      case None => None
      case Some(j) => Some(j + 1)
  }

  function Promoted<T>(s: seq<T>, i: nat): seq<T>
    requires i < |s|
  {
    [s[i]] + Without(s, i)
  }

  /** The list with its least recent item dropped if it is full. */
  function Evicted<T>(s: seq<T>, capacity: nat): seq<T> {
    if |s| >= capacity && |s| > 0 then s[..|s| - 1] else s
  }

  function Inserted<V>(s: seq<Item<V>>, capacity: nat, key: Key, value: V): seq<Item<V>> {
    match Find(s, key)
    case Some(i) => [Item(key, value)] + Without(s, i)
    case None => [Item(key, value)] + Evicted(s, capacity)
  }

  function Touched<V>(s: seq<Item<V>>, key: Key): seq<Item<V>> {
    match Find(s, key)
    case Some(i) => Promoted(s, i)
    case None => s
  }

  function Ensured<V>(s: seq<Item<V>>, capacity: nat, key: Key, value: V): seq<Item<V>> {
    match Find(s, key)
    case Some(i) => Promoted(s, i)
    case None => [Item(key, value)] + Evicted(s, capacity)
  }

  // ----- the linked representation

  ghost function At(order: seq<nat>, i: int): Option<nat> {
    if 0 <= i < |order| then Some(order[i]) else None
  }

  ghost predicate LinkedAt<V>(entries: map<nat, Entry<V>>, order: seq<nat>, i: nat)
    requires i < |order|
  {
    && order[i] in entries
    && entries[order[i]].prev == At(order, i - 1)
    && entries[order[i]].next == At(order, i + 1)
  }

  ghost predicate Linked<V>(entries: map<nat, Entry<V>>, order: seq<nat>) {
    forall i :: 0 <= i < |order| ==> LinkedAt(entries, order, i)
  }

  ghost predicate Indexed<V>(entries: map<nat, Entry<V>>, index: map<Key, nat>) {
    && (forall k :: k in index ==> index[k] in entries && entries[index[k]].key == k)
    && (forall i :: i in entries ==> entries[i].key in index && index[entries[i].key] == i)
  }

  /** `pos` inverts `order`, so `order` has no duplicates. */
  ghost predicate Positions(order: seq<nat>, pos: map<nat, nat>) {
    && (forall i :: 0 <= i < |order| ==> order[i] in pos && pos[order[i]] == i)
    && (forall k :: k in pos ==> pos[k] < |order| && order[pos[k]] == k)
  }

  /** Forward links, backward links, slab and map all describe one duplicate-free list. */
  ghost predicate Represents<V>(entries: map<nat, Entry<V>>, index: map<Key, nat>, head: Option<nat>, tail: Option<nat>,
                                order: seq<nat>, pos: map<nat, nat>) {
    && Positions(order, pos) && entries.Keys == pos.Keys
    && Linked(entries, order)
    && Indexed(entries, index)
    && head == At(order, 0) && tail == At(order, |order| - 1)
  }

  ghost function ItemsOf<V>(entries: map<nat, Entry<V>>, order: seq<nat>): (r: seq<Item<V>>)
    requires forall i :: 0 <= i < |order| ==> order[i] in entries
    ensures |r| == |order|
    ensures forall i :: 0 <= i < |order| ==> r[i] == Item(entries[order[i]].key, entries[order[i]].value)
  {
    seq(|order|, i requires 0 <= i < |order| => Item(entries[order[i]].key, entries[order[i]].value))
  }

  /** Only links differ. */
  ghost predicate SameItems<V>(entries: map<nat, Entry<V>>, entries': map<nat, Entry<V>>) {
    && entries.Keys == entries'.Keys
    && forall i :: i in entries ==> entries'[i].key == entries[i].key && entries'[i].value == entries[i].value
  }

  lemma IndexedSame<V>(entries: map<nat, Entry<V>>, entries': map<nat, Entry<V>>, index: map<Key, nat>)
    requires Indexed(entries, index) && SameItems(entries, entries')
    ensures Indexed(entries', index)
  {
  }

  lemma PositionsCount(order: seq<nat>, pos: map<nat, nat>)
    requires Positions(order, pos)
    ensures |pos.Keys| == |order|
    decreases |order|
  {
    if |order| == 0 {
      assert pos.Keys == {};
    } else {
      var n := |order| - 1;
      var pos' := pos - {order[n]};
      PositionsCount(order[..n], pos');
      assert pos.Keys == pos'.Keys + {order[n]};
    }
  }

  // ----- moving position i to the front

  ghost function MovedPos(pos: map<nat, nat>, i: nat): map<nat, nat> {
    map k | k in pos :: if pos[k] < i then pos[k] + 1 else if pos[k] == i then 0 else pos[k]
  }

  /** The slab after the link updates. */
  function Relinked<V>(entries: map<nat, Entry<V>>, idx: nat, prev: nat, next: Option<nat>,
                       head: nat): (r: map<nat, Entry<V>>)
    requires idx in entries && prev in entries && head in entries && (next.Some? ==> next.value in entries)
    ensures SameItems(entries, r)
  {
    var e := entries[prev := entries[prev].(next := next)];
    var e := if next.Some? then e[next.value := e[next.value].(prev := Some(prev))] else e;
    var e := e[idx := e[idx].(prev := None, next := Some(head))];
    e[head := e[head].(prev := Some(idx))]
  }

  /** `order'` is `order` with position `i` moved to the front. */
  ghost predicate Moved<T>(order: seq<T>, order': seq<T>, i: nat) {
    && i < |order| && |order'| == |order|
    && order'[0] == order[i]
    && (forall k :: 0 < k <= i ==> order'[k] == order[k - 1])
    && (forall k :: i < k < |order| ==> order'[k] == order[k])
  }

  lemma PromotedMoved<T>(order: seq<T>, i: nat)
    requires i < |order|
    ensures Moved(order, Promoted(order, i), i)
    ensures i == 0 ==> Promoted(order, i) == order
  {
  }

  lemma RelinkedAt<V>(entries: map<nat, Entry<V>>, order: seq<nat>, order': seq<nat>, pos: map<nat, nat>, i: nat,
                      j: nat)
    requires Linked(entries, order) && Positions(order, pos) && entries.Keys == pos.Keys
    requires Moved(order, order', i) && 0 < i && j < |order|
    ensures LinkedAt(Relinked(entries, order[i], order[i - 1], At(order, i + 1), order[0]), order', j)
  {
    var was: nat := if j == 0 then i else if j <= i then j - 1 else j;
    assert LinkedAt(entries, order, was) && LinkedAt(entries, order, i) && LinkedAt(entries, order, i - 1);
    assert LinkedAt(entries, order, 0) && (i + 1 < |order| ==> LinkedAt(entries, order, i + 1));
    MovedNeighbours(order, order', i, j);
    hide Moved;
    OrderDistinct(order, pos, i, was);
    OrderDistinct(order, pos, i - 1, was);
    OrderDistinct(order, pos, 0, was);
    if i + 1 < |order| {
      OrderDistinct(order, pos, i + 1, was);
    }
    OrderDistinct(order, pos, i, i - 1);
    OrderDistinct(order, pos, i, 0);
    RelinkedEntry(entries, order[i], order[i - 1], At(order, i + 1), order[0], order[was]);
    hide Linked, Positions, Relinked;
  }

  lemma MovedNeighbours(order: seq<nat>, order': seq<nat>, i: nat, j: nat)
    requires Moved(order, order', i) && j < |order|
    ensures At(order', j - 1)
         == At(order, if j == 0 then -1 else if j == 1 then i else if j - 1 <= i then j - 2 else j - 1)
    ensures At(order', j + 1) == At(order, if j + 1 <= i then j else j + 1)
    ensures |order'| == |order| && order'[j] == order[if j == 0 then i else if j <= i then j - 1 else j]
  {
  }

  lemma OrderDistinct(order: seq<nat>, pos: map<nat, nat>, i: nat, j: nat)
    requires Positions(order, pos) && i < |order| && j < |order|
    ensures order[i] == order[j] <==> i == j
  {
    assert pos[order[i]] == i && pos[order[j]] == j;
  }

  /** The links of one entry after the updates. */
  lemma RelinkedEntry<V>(entries: map<nat, Entry<V>>, idx: nat, prev: nat, next: Option<nat>, head: nat, k: nat)
    requires idx in entries && prev in entries && head in entries && (next.Some? ==> next.value in entries)
    requires idx != head && idx != prev && k in entries
    ensures var r := Relinked(entries, idx, prev, next, head);
            && k in r
            && r[k].prev == (if k == head then Some(idx) else if k == idx then None
                             else if next == Some(k) then Some(prev) else entries[k].prev)
            && r[k].next == (if k == idx then Some(head) else if k == prev then next else entries[k].next)
  {
  }

  /** Moving position `i` to the front keeps the representation. */
  lemma RelinkedRepresents<V>(entries: map<nat, Entry<V>>, index: map<Key, nat>, head: Option<nat>, tail: Option<nat>,
                              order: seq<nat>, order': seq<nat>, pos: map<nat, nat>, i: nat)
    requires Represents(entries, index, head, tail, order, pos) && 0 < i && Moved(order, order', i)
    ensures Represents(Relinked(entries, order[i], order[i - 1], At(order, i + 1), order[0]), index, Some(order[i]),
                       if i + 1 < |order| then tail else Some(order[i - 1]), order', MovedPos(pos, i))
  {
    var entries' := Relinked(entries, order[i], order[i - 1], At(order, i + 1), order[0]);
    RelinkedLinked(entries, order, order', pos, i);
    IndexedSame(entries, entries', index);
    MovedPositions(order, order', pos, i);
    hide Linked, Indexed, Positions, Relinked;
    assert MovedPos(pos, i).Keys == pos.Keys;
  }

  lemma RelinkedLinked<V>(entries: map<nat, Entry<V>>, order: seq<nat>, order': seq<nat>, pos: map<nat, nat>, i: nat)
    requires Linked(entries, order) && Positions(order, pos) && entries.Keys == pos.Keys
    requires Moved(order, order', i) && 0 < i
    ensures Linked(Relinked(entries, order[i], order[i - 1], At(order, i + 1), order[0]), order')
  {
    var entries' := Relinked(entries, order[i], order[i - 1], At(order, i + 1), order[0]);
    forall j | 0 <= j < |order| ensures LinkedAt(entries', order', j) {
      RelinkedAt(entries, order, order', pos, i, j);
    }
  }

  lemma MovedPositions(order: seq<nat>, order': seq<nat>, pos: map<nat, nat>, i: nat)
    requires Positions(order, pos) && Moved(order, order', i)
    ensures Positions(order', MovedPos(pos, i))
  {
    var pos' := MovedPos(pos, i);
    forall j | 0 <= j < |order| ensures order'[j] in pos' && pos'[order'[j]] == j {
      var was: nat := if j == 0 then i else if j <= i then j - 1 else j;
      assert order[was] in pos && pos[order[was]] == was;
      assert order'[j] == order[was];
    }
    forall k | k in pos' ensures pos'[k] < |order| && order'[pos'[k]] == k {
      assert order[pos[k]] == k;
    }
  }

  lemma MovedItems<V>(entries: map<nat, Entry<V>>, entries': map<nat, Entry<V>>, order: seq<nat>, order': seq<nat>,
                      i: nat)
    requires SameItems(entries, entries') && i < |order| && order' == Promoted(order, i)
    requires forall k :: 0 <= k < |order| ==> order[k] in entries
    ensures forall k :: 0 <= k < |order'| ==> order'[k] in entries'
    ensures ItemsOf(entries', order') == Promoted(ItemsOf(entries, order), i)
  {
  }

  // ----- linking a new entry in at the head

  function Attached<V>(entries: map<nat, Entry<V>>, idx: nat, entry: Entry<V>, head: Option<nat>): map<nat, Entry<V>>
    requires head.Some? ==> head.value in entries
  {
    var e := if head.Some? then entries[head.value := entries[head.value].(prev := Some(idx))] else entries;
    e[idx := entry.(prev := None, next := head)]
  }

  ghost function AttachedPos(pos: map<nat, nat>, idx: nat): map<nat, nat> {
    map k | k in pos.Keys + {idx} :: if k == idx then 0 else pos[k] + 1
  }

  lemma AttachedIndexed<V>(entries: map<nat, Entry<V>>, index: map<Key, nat>, idx: nat, entry: Entry<V>,
                           head: Option<nat>)
    requires Indexed(entries, index) && idx !in entries && entry.key !in index
    requires head.Some? ==> head.value in entries
    ensures Indexed(Attached(entries, idx, entry, head), index[entry.key := idx])
  {
  }

  lemma AttachedRepresents<V>(entries: map<nat, Entry<V>>, index: map<Key, nat>, head: Option<nat>, tail: Option<nat>,
                              order: seq<nat>, order': seq<nat>, pos: map<nat, nat>, idx: nat, entry: Entry<V>)
    requires Represents(entries, index, head, tail, order, pos) && idx !in entries && entry.key !in index
    requires order' == [idx] + order
    ensures Represents(Attached(entries, idx, entry, head), index[entry.key := idx], Some(idx),
                       if tail.Some? then tail else Some(idx), order', AttachedPos(pos, idx))
  {
    var entries' := Attached(entries, idx, entry, head);
    assert forall k :: 0 < k < |order'| ==> order'[k] == order[k - 1];
    forall j | 0 <= j < |order'| ensures LinkedAt(entries', order', j) {
      if j > 0 {
        assert LinkedAt(entries, order, j - 1);
      }
    }
    AttachedIndexed(entries, index, idx, entry, head);
    assert Positions(order', AttachedPos(pos, idx));
  }

  lemma AttachedItems<V>(entries: map<nat, Entry<V>>, entries': map<nat, Entry<V>>, order: seq<nat>, order': seq<nat>,
                         idx: nat, entry: Entry<V>)
    requires forall k :: 0 <= k < |order| ==> order[k] in entries
    requires forall k :: k in entries ==>
               k in entries' && entries'[k].key == entries[k].key && entries'[k].value == entries[k].value
    requires idx in entries' && entries'[idx].key == entry.key && entries'[idx].value == entry.value
    requires order' == [idx] + order
    ensures forall k :: 0 <= k < |order'| ==> order'[k] in entries'
    ensures ItemsOf(entries', order') == [Item(entry.key, entry.value)] + ItemsOf(entries, order)
  {
    assert forall k :: 0 < k < |order'| ==> order'[k] == order[k - 1];
  }

  // ----- unlinking the tail

  function Detached<V>(entries: map<nat, Entry<V>>, lru: nat, prev: Option<nat>): map<nat, Entry<V>>
    requires prev.Some? ==> prev.value in entries
  {
    (if prev.Some? then entries[prev.value := entries[prev.value].(next := None)] else entries) - {lru}
  }

  lemma DetachedRepresents<V>(entries: map<nat, Entry<V>>, index: map<Key, nat>, head: Option<nat>, tail: Option<nat>,
                              order: seq<nat>, order': seq<nat>, pos: map<nat, nat>)
    requires Represents(entries, index, head, tail, order, pos) && |order| == |order'| + 1
    requires order' == order[..|order'|]
    ensures var n := |order'|;
            Represents(Detached(entries, order[n], At(order, n - 1)), index - {entries[order[n]].key},
                       if n > 0 then head else None, At(order, n - 1), order', pos - {order[n]})
  {
    var n := |order'|;
    var entries' := Detached(entries, order[n], At(order, n - 1));
    forall j | 0 <= j < n ensures LinkedAt(entries', order', j) {
      assert LinkedAt(entries, order, j);
    }
    assert Indexed(entries', index - {entries[order[n]].key});
  }

  /** The tail entry and its links. */
  lemma TailFacts<V>(entries: map<nat, Entry<V>>, index: map<Key, nat>, head: Option<nat>, tail: Option<nat>,
                     order: seq<nat>, pos: map<nat, nat>)
    requires Represents(entries, index, head, tail, order, pos) && |order| > 0
    ensures var n := |order| - 1;
            && tail == Some(order[n]) && order[n] in entries && entries[order[n]].prev == At(order, n - 1)
            && head.Some? && (n > 0 ==> order[n - 1] in entries && order[n - 1] != order[n])
  {
    var n := |order| - 1;
    assert LinkedAt(entries, order, n);
    if n > 0 {
      assert LinkedAt(entries, order, n - 1);
    }
  }

  /** An entry, its links, and the ends of the list. */
  lemma EntryFacts<V>(entries: map<nat, Entry<V>>, index: map<Key, nat>, head: Option<nat>, tail: Option<nat>,
                      order: seq<nat>, pos: map<nat, nat>, idx: nat)
    requires Represents(entries, index, head, tail, order, pos) && idx in entries
    ensures idx in pos && pos[idx] < |order| && order[pos[idx]] == idx
    ensures var i: int := pos[idx]; entries[idx].prev == At(order, i - 1) && entries[idx].next == At(order, i + 1)
    ensures head == Some(order[0]) && tail == Some(order[|order| - 1])
    ensures forall k :: 0 <= k < |order| ==> order[k] in entries
  {
    assert LinkedAt(entries, order, pos[idx]);
    forall k | 0 <= k < |order|
      ensures order[k] in entries
    {
      assert LinkedAt(entries, order, k);
    }
  }

  lemma DetachedItems<V>(entries: map<nat, Entry<V>>, entries': map<nat, Entry<V>>, order: seq<nat>, order': seq<nat>,
                         pos: map<nat, nat>, index: map<Key, nat>, head: Option<nat>, tail: Option<nat>)
    requires Represents(entries, index, head, tail, order, pos) && |order| > 0 && order' == order[..|order| - 1]
    requires entries' == Detached(entries, order[|order| - 1], At(order, |order| - 2))
    ensures forall k :: 0 <= k < |order| ==> order[k] in entries
    ensures forall k :: 0 <= k < |order'| ==> order'[k] in entries'
    ensures ItemsOf(entries', order') == ItemsOf(entries, order)[..|order'|]
  {
    forall k | 0 <= k < |order|
      ensures order[k] in entries && (k < |order'| ==> order[k] != order[|order| - 1])
    {
      assert LinkedAt(entries, order, k);
    }
  }

  /** The link updates that take an entry out of its place and put it before the head. */
  method Relink<V>(entries: map<nat, Entry<V>>, idx: nat, prev: nat, next: Option<nat>, head: nat, tail: nat)
    returns (e: map<nat, Entry<V>>, t: nat)
    requires idx in entries && prev in entries && head in entries && (next.Some? ==> next.value in entries)
    ensures e == Relinked(entries, idx, prev, next, head) && t == if next.Some? then tail else prev
  {
    e := entries[prev := entries[prev].(next := next)];
    t := tail;
    if next.Some? {
      e := e[next.value := e[next.value].(prev := Some(prev))];
    } else {
      t := prev;
    }
    e := e[idx := e[idx].(prev := None, next := Some(head))];
    e := e[head := e[head].(prev := Some(idx))];
  }

  class Pool<V> {
    var index: map<Key, nat>
    var entries: map<nat, Entry<V>>
    var head: Option<nat>
    var tail: Option<nat>
    const capacity: nat
    ghost var order: seq<nat>
    ghost var pos: map<nat, nat>

    ghost predicate Valid()
      reads this
    {
      0 < capacity && |order| <= capacity && Represents(entries, index, head, tail, order, pos)
    }

    /** The cached templates, most recent first. */
    ghost function Items(): seq<Item<V>>
      reads this
      requires Valid()
    {
      ItemsOf(entries, order)
    }

    constructor (capacity: nat)
      requires capacity > 0
      ensures Valid() && Items() == [] && this.capacity == capacity
    {
      this.capacity := capacity;
      index, entries, head, tail, order, pos := map[], map[], None, None, [], map[];
    }

    /** Writes the new list back to the fields. */
    method Commit(entries': map<nat, Entry<V>>, index': map<Key, nat>, head': Option<nat>, tail': Option<nat>,
                  ghost order': seq<nat>, ghost pos': map<nat, nat>)
      requires 0 < capacity && |order'| <= capacity
      requires Represents(entries', index', head', tail', order', pos')
      modifies this
      ensures Valid() && Items() == ItemsOf(entries', order')
      ensures entries == entries' && index == index' && order == order' && pos == pos'
    {
      entries, index, head, tail, order, pos := entries', index', head', tail', order', pos';
    }

    lemma FindIndex(key: Key)
      requires Valid()
      ensures key in index <==> Find(Items(), key).Some?
      ensures key in index ==> order[Find(Items(), key).value] == index[key]
    {
      var f := Find(Items(), key);
      if key in index {
        assert Items()[pos[index[key]]].key == key;
      }
      if f.Some? {
        assert Items()[f.value].key == key;
      }
    }

    method Get(key: Key) returns (r: Option<V>)
      requires Valid()
      modifies this
      ensures Valid()
      ensures Items() == Touched(old(Items()), key)
      ensures var f := Find(old(Items()), key);
              r == if f.Some? then Some(old(Items())[f.value].value) else None
    {
      FindIndex(key);
      if key !in index {
        return None;
      }
      var idx := index[key];
      MoveToFront(idx);
      r := Some(entries[idx].value);
    }

    method Insert(key: Key, value: V) returns (previous: Option<V>)
      requires Valid()
      modifies this
      ensures Valid()
      ensures Items() == Inserted(old(Items()), capacity, key, value)
      ensures var f := Find(old(Items()), key);
              previous == if f.Some? then Some(old(Items())[f.value].value) else None
    {
      FindIndex(key);
      if key in index {
        ghost var was, i := Items(), Find(Items(), key).value;
        var idx := index[key];
        previous := Some(entries[idx].value);
        Replace(idx, value);
        MoveToFront(idx);
        assert Promoted(was[i := Item(key, value)], i) == [Item(key, value)] + Without(was, i);
        return;
      }
      AddFresh(key, value);
      previous := None;
    }

    method Replace(idx: nat, value: V)
      requires Valid() && idx in entries
      modifies this`entries
      ensures Valid()
      ensures Items() == old(Items())[pos[idx] := Item(old(entries)[idx].key, value)]
    {
      ghost var was := entries;
      entries := entries[idx := entries[idx].(value := value)];
      forall j | 0 <= j < |order| ensures LinkedAt(entries, order, j) {
        assert LinkedAt(was, order, j);
      }
    }

    /** On a miss the template is built and inserted. */
    method GetOrInsertWith(key: Key, make: () -> V) returns (value: V)
      requires Valid()
      modifies this
      ensures Valid()
      ensures Items() == Ensured(old(Items()), capacity, key, make())
      ensures var f := Find(old(Items()), key);
              value == if f.Some? then old(Items())[f.value].value else make()
    {
      FindIndex(key);
      if key in index {
        var idx := index[key];
        MoveToFront(idx);
        return entries[idx].value;
      }
      value := make();
      AddFresh(key, value);
    }

    lemma SizeIsLength()
      requires Valid()
      ensures |entries| == |order| == |Items()| && 0 < capacity && |order| <= capacity
    {
      PositionsCount(order, pos);
      assert |entries| == |entries.Keys| == |order|;
    }

    /** Makes room if the pool is full. */
    method MakeRoom()
      requires Valid()
      modifies this
      ensures Valid() && |order| < capacity && index.Keys <= old(index).Keys
      ensures Items() == Evicted(old(Items()), capacity)
    {
      SizeIsLength();
      hide Represents, Pool.Items;
      if |entries| >= capacity {
        EvictLru();
      }
    }

    /** Links a new entry in at the head, in a slot of its own. */
    method AddFresh(key: Key, value: V)
      requires Valid() && key !in index
      modifies this
      ensures Valid()
      ensures Items() == [Item(key, value)] + Evicted(old(Items()), capacity)
    {
      hide Represents, Pool.Items;
      MakeRoom();
      Storage.VacantExists(entries.Keys);
      var idx: nat :| idx !in entries.Keys;
      AttachToFront(idx, Entry(key, value, None, None));
    }

    method AttachToFront(idx: nat, entry: Entry<V>)
      requires Valid() && idx !in entries && entry.key !in index && |order| < capacity
      modifies this
      ensures Valid()
      ensures Items() == [Item(entry.key, entry.value)] + old(Items())
    {
      ghost var order' := [idx] + order;
      AttachedRepresents(entries, index, head, tail, order, order', pos, idx, entry);
      var e := entries;
      if head.Some? {
        e := e[head.value := e[head.value].(prev := Some(idx))];
      }
      e := e[idx := entry.(prev := None, next := head)];
      assert e == Attached(entries, idx, entry, head);
      AttachedItems(entries, e, order, order', idx, entry);
      var t := if tail.None? then Some(idx) else tail;
      Commit(e, index[entry.key := idx], Some(idx), t, order', AttachedPos(pos, idx));
    }

    /** Drops the tail of the list. */
    method EvictLru()
      requires Valid() && |order| > 0
      modifies this
      ensures Valid() && |order| == |old(order)| - 1
      ensures Items() == old(Items())[..|old(Items())| - 1]
      ensures index.Keys <= old(index).Keys
    {
      ghost var order' := order[..|order| - 1];
      TailFacts(entries, index, head, tail, order, pos);
      DetachedRepresents(entries, index, head, tail, order, order', pos);
      hide Represents, Pool.Items, Pool.Valid;
      var lru := tail.value;
      var prev := entries[lru].prev;
      var e, h, x := entries, head, index - {entries[lru].key};
      if prev.Some? {
        e := e[prev.value := e[prev.value].(next := None)];
      } else {
        h := None;
      }
      e := e - {lru};
      assert e == Detached(entries, lru, prev);
      DetachedItems(entries, e, order, order', pos, index, head, tail);
      Commit(e, x, h, prev, order', pos - {lru});
    }

    method MoveToFront(idx: nat)
      requires Valid() && idx in entries
      modifies this
      ensures Valid()
      ensures Items() == Promoted(old(Items()), old(pos)[idx])
      ensures idx in entries && entries[idx].value == old(entries)[idx].value
    {
      hide Represents, ItemsOf, Moved, Promoted, MovedPos, Relinked;
      EntryFacts(entries, index, head, tail, order, pos, idx);
      ghost var i, items := pos[idx], Items();
      var prev, next := entries[idx].prev, entries[idx].next;
      PromotedMoved(order, i);
      if prev.None? {
        PromotedMoved(items, i);
        return;
      }
      ghost var order', pos' := Promoted(order, i), MovedPos(pos, i);
      RelinkedRepresents(entries, index, head, tail, order, order', pos, i);
      var e, t := Relink(entries, idx, prev.value, next, head.value, tail.value);
      MovedItems(entries, e, order, order', i);
      Commit(e, index, Some(idx), Some(t), order', pos');
    }
  }

  // ----- runs

  /** The accesses to the pool; `Ensure` carries what its caller would build on a miss. */
  datatype Access<V> = Look(key: Key) | Store(key: Key, value: V) | Ensure(key: Key, value: V)

  /** What one access does to the recency list. */
  function Accessed<V>(s: seq<Item<V>>, capacity: nat, a: Access<V>): seq<Item<V>> {
    match a
    case Look(key) => Touched(s, key)
    case Store(key, value) => Inserted(s, capacity, key, value)
    case Ensure(key, value) => Ensured(s, capacity, key, value)
  }

  /** The recency list after some accesses to an empty pool. */
  function Run<V>(capacity: nat, history: seq<Access<V>>): seq<Item<V>> {
    if |history| == 0 then []
    else Accessed(Run(capacity, history[..|history| - 1]), capacity, history[|history| - 1])
  }

  /** The distinct keys of a history, most recent first. */
  function Recency(history: seq<Key>): seq<Key> {
    if |history| == 0 then []
    else
      var key, before := history[|history| - 1], Recency(history[..|history| - 1]);
      [key] + Removed(before, key)
  }

  /** The keys that a pool keeps which keeps the most recently used ones. */
  function Kept<V>(capacity: nat, history: seq<Access<V>>): seq<Key>
    decreases |history|, 1
  {
    Take(Recency(Used(capacity, history)), capacity)
  }

  /** The keys used, in order: every access is a use, except looking for a key that is not kept. */
  function Used<V>(capacity: nat, history: seq<Access<V>>): seq<Key>
    decreases |history|, 0
  {
    if |history| == 0 then []
    else
      var a, before := history[|history| - 1], history[..|history| - 1];
      Used(capacity, before) + if a.Look? && a.key !in Kept(capacity, before) then [] else [a.key]
  }

  /** The value of a kept key: the last one stored, or ensured when the key was not kept. */
  function Latest<V>(capacity: nat, history: seq<Access<V>>, key: Key): Option<V> {
    if |history| == 0 then None
    else
      var a, before := history[|history| - 1], history[..|history| - 1];
      if a.key == key && (a.Store? || (a.Ensure? && key !in Kept(capacity, before))) then Some(a.value)
      else Latest(capacity, before, key)
  }

  function Removed(s: seq<Key>, key: Key): seq<Key> {
    if |s| == 0 then [] else (if s[0] == key then [] else [s[0]]) + Removed(s[1..], key)
  }

  function Take<T>(s: seq<T>, n: nat): seq<T> {
    if |s| <= n then s else s[..n]
  }

  lemma RemovedAbsent(s: seq<Key>, key: Key)
    requires key !in s
    ensures Removed(s, key) == s
  {
  }

  lemma WithoutTail(s: seq<Key>, i: nat)
    requires 0 < i < |s|
    ensures Without(s, i) == [s[0]] + Without(s[1..], i - 1)
  {
    assert s[1..][..i - 1] == s[1..i] && s[1..][i..] == s[i + 1..] && s[..i] == [s[0]] + s[1..i];
  }

  lemma RemovedAt(s: seq<Key>, i: nat)
    requires i < |s| && Distinct(s)
    ensures Removed(s, s[i]) == Without(s, i)
  {
    if i == 0 {
      RemovedAbsent(s[1..], s[0]);
    } else {
      RemovedAt(s[1..], i - 1);
      assert s[1..][i - 1] == s[i];
      WithoutTail(s, i);
    }
  }

  lemma RemovedDistinct(s: seq<Key>, key: Key)
    requires Distinct(s)
    ensures Distinct(Removed(s, key)) && forall x :: x in Removed(s, key) <==> x in s && x != key
  {
    if key in s {
      var i :| 0 <= i < |s| && s[i] == key;
      RemovedAt(s, i);
    } else {
      RemovedAbsent(s, key);
    }
  }

  lemma {:induction false} RecencyDistinct(history: seq<Key>)
    ensures Distinct(Recency(history))
  {
    if |history| > 0 {
      var key, before := history[|history| - 1], history[..|history| - 1];
      RecencyDistinct(before);
      RemovedDistinct(Recency(before), key);
      var rest := Removed(Recency(before), key);
      assert forall i :: 0 <= i < |rest| ==> rest[i] in rest;
    }
  }

  function KeysOf<V>(s: seq<Item<V>>): seq<Key> {
    seq(|s|, i requires 0 <= i < |s| => s[i].key)
  }

  /** A hit of the pool does to the kept keys what the access does to all keys. */
  lemma HitKeys<V>(s: seq<Item<V>>, full: seq<Key>, capacity: nat, i: nat)
    requires capacity > 0 && Distinct(full) && KeysOf(s) == Take(full, capacity) && i < |s|
    ensures KeysOf(Promoted(s, i)) == Take([s[i].key] + Removed(full, s[i].key), capacity)
  {
    var key := s[i].key;
    assert key == KeysOf(s)[i] == Take(full, capacity)[i] == full[i];
    RemovedAt(full, i);
    KeysOfPromoted(s, i);
    PromotedTake(full, capacity, i);
    hide KeysOf, Take, Removed, Without, Distinct;
  }

  lemma KeysOfPromoted<V>(s: seq<Item<V>>, i: nat)
    requires i < |s|
    ensures KeysOf(Promoted(s, i)) == Promoted(KeysOf(s), i)
  {
  }

  lemma PromotedTake(full: seq<Key>, n: nat, i: nat)
    requires i < n && i < |full|
    ensures Promoted(Take(full, n), i) == Take(Promoted(full, i), n)
  {
  }

  /** So does a miss, whether the key was never used or was evicted. */
  lemma MissKeys<V>(s: seq<Item<V>>, full: seq<Key>, capacity: nat, key: Key, value: V)
    requires capacity > 0 && Distinct(full) && KeysOf(s) == Take(full, capacity)
    requires key !in KeysOf(s)
    ensures KeysOf([Item(key, value)] + Evicted(s, capacity)) == Take([key] + Removed(full, key), capacity)
  {
    var kept := KeysOf(Evicted(s, capacity));
    assert kept == Take(full, capacity - 1);
    assert forall j :: 0 <= j < |KeysOf(s)| ==> full[j] == KeysOf(s)[j];
    assert KeysOf([Item(key, value)] + Evicted(s, capacity)) == [key] + kept;
    if key in full {
      var i :| 0 <= i < |full| && full[i] == key;
      RemovedAt(full, i);
      assert i >= capacity by {
        assert forall j :: 0 <= j < capacity && j < |full| ==> full[j] == KeysOf(s)[j];
      }
      assert Take(Without(full, i), capacity - 1) == Take(full, capacity - 1);
    } else {
      RemovedAbsent(full, key);
    }
    assert Take([key] + Removed(full, key), capacity) == [key] + Take(Removed(full, key), capacity - 1);
  }

  /** One access does to the kept keys what a use does to all keys, or nothing. */
  lemma AccessKeys<V>(s: seq<Item<V>>, full: seq<Key>, capacity: nat, a: Access<V>)
    requires capacity > 0 && Distinct(full) && KeysOf(s) == Take(full, capacity)
    ensures KeysOf(Accessed(s, capacity, a))
         == if a.Look? && a.key !in Take(full, capacity) then Take(full, capacity)
            else Take([a.key] + Removed(full, a.key), capacity)
    ensures Find(s, a.key).Some? <==> a.key in Take(full, capacity)
  {
    match Find(s, a.key) {
      case Some(i) =>
        assert KeysOf(s)[i] == a.key;
        HitKeys(s, full, capacity, i);
        if a.Store? {
          StoredKeys(s, i, a.value);
        }
      case None =>
        assert a.key !in KeysOf(s);
        if !a.Look? {
          MissKeys(s, full, capacity, a.key, a.value);
        }
    }
  }

  lemma StoredKeys<V>(s: seq<Item<V>>, i: nat, value: V)
    requires i < |s|
    ensures KeysOf([Item(s[i].key, value)] + Without(s, i)) == KeysOf(Promoted(s, i))
  {
  }

  /** An access leaves every item it does not store as it was. */
  lemma AccessItems<V>(s: seq<Item<V>>, capacity: nat, a: Access<V>, item: Item<V>)
    requires item in Accessed(s, capacity, a) && Distinct(KeysOf(s))
    ensures if item.key == a.key && (a.Store? || (a.Ensure? && Find(s, a.key).None?)) then item.value == a.value
            else item in s
  {
    match Find(s, a.key) {
      case Some(i) =>
        if a.Store? && item in Without(s, i) {
          var j :| 0 <= j < |s| && j != i && s[j] == item;
          assert KeysOf(s)[j] != KeysOf(s)[i];
        }
      case None =>
    }
  }

  lemma TakeDistinct(full: seq<Key>, n: nat)
    requires Distinct(full)
    ensures Distinct(Take(full, n))
  {
  }

  /**
   * After any history of accesses the pool holds exactly the `capacity` most recently used distinct
   * keys, in recency order, each with its latest value. A hit of any access is a use; a miss is one
   * unless it only looks.
   */
  lemma {:induction false} RunIsRecency<V>(capacity: nat, history: seq<Access<V>>)
    requires capacity > 0
    ensures KeysOf(Run(capacity, history)) == Kept(capacity, history)
    ensures forall item :: item in Run(capacity, history) ==> Latest(capacity, history, item.key) == Some(item.value)
  {
    if |history| > 0 {
      var a, before := history[|history| - 1], history[..|history| - 1];
      var s, full := Run(capacity, before), Recency(Used(capacity, before));
      RunIsRecency(capacity, before);
      RecencyDistinct(Used(capacity, before));
      AccessKeys(s, full, capacity, a);
      UsedRecency(capacity, before, a);
      TakeDistinct(full, capacity);
      assert history == before + [a];
      hide Accessed, Recency, Find, KeysOf, Take, Distinct, Latest, Used;
      forall item | item in Accessed(s, capacity, a)
        ensures Latest(capacity, before + [a], item.key) == Some(item.value)
      {
        LatestAfter(capacity, before, a, s, item);
      }
    }
  }

  /** The latest value of an item that an access leaves or stores. */
  lemma LatestAfter<V>(capacity: nat, before: seq<Access<V>>, a: Access<V>, s: seq<Item<V>>, item: Item<V>)
    requires item in Accessed(s, capacity, a) && Distinct(KeysOf(s))
    requires Find(s, a.key).Some? <==> a.key in Kept(capacity, before)
    requires forall x :: x in s ==> Latest(capacity, before, x.key) == Some(x.value)
    ensures Latest(capacity, before + [a], item.key) == Some(item.value)
  {
    AccessItems(s, capacity, a, item);
    hide Accessed, Find, KeysOf, Kept, Distinct;
    assert (before + [a])[..|before|] == before;
  }

  lemma UsedRecency<V>(capacity: nat, before: seq<Access<V>>, a: Access<V>)
    ensures var used := Used(capacity, before);
            Recency(Used(capacity, before + [a]))
            == if a.Look? && a.key !in Kept(capacity, before) then Recency(used)
               else [a.key] + Removed(Recency(used), a.key)
  {
    var used := Used(capacity, before);
    assert (before + [a])[..|before|] == before;
    assert (used + [a.key])[..|used|] == used;
    assert used + [] == used;
  }

  /** Every value stored, or offered for a miss, is the one that `make` gives for its key. */
  ghost predicate MadeBy<V>(history: seq<Access<V>>, make: Key -> V) {
    forall i :: 0 <= i < |history| && !history[i].Look? ==> history[i].value == make(history[i].key)
  }

  /** A pool filled by `make` returns the same value for a key whether or not it was evicted in between. */
  lemma {:induction false} LatestIsMade<V>(capacity: nat, history: seq<Access<V>>, make: Key -> V, key: Key)
    requires MadeBy(history, make) && Latest(capacity, history, key).Some?
    ensures Latest(capacity, history, key).value == make(key)
  {
    if |history| > 0 {
      var n := |history| - 1;
      if Latest(capacity, history, key) == Latest(capacity, history[..n], key) {
        LatestIsMade(capacity, history[..n], make, key);
      }
    }
  }

  lemma RunValues<V>(capacity: nat, history: seq<Access<V>>, make: Key -> V)
    requires capacity > 0 && MadeBy(history, make)
    ensures forall item :: item in Run(capacity, history) ==> item.value == make(item.key)
  {
    RunIsRecency(capacity, history);
    forall item | item in Run(capacity, history) ensures item.value == make(item.key) {
      LatestIsMade(capacity, history, make, item.key);
    }
  }

  /** If every access ensures its key, all of them are uses. */
  lemma {:induction false} EnsuresUse<V>(capacity: nat, history: seq<Access<V>>)
    requires forall i :: 0 <= i < |history| ==> !history[i].Look?
    ensures Used(capacity, history) == seq(|history|, i requires 0 <= i < |history| => history[i].key)
  {
    if |history| > 0 {
      var n := |history| - 1;
      EnsuresUse(capacity, history[..n]);
    }
  }
}
