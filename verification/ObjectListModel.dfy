/**
 The list model shown to QML: a vector of items, an index from uid to item, a stored count, and
 the row events the views live on.
 */
module ObjectListModel {

  /** A pointer to an item; 0 is null. */
  type Item = nat

  const NULL: Item := 0

  // ---- rows ----------------------------------------------------------------------------------------

  /** QQmlObjectListModel::at: null outside the list. */
  function At(items: seq<Item>, i: int): Item {
    if 0 <= i < |items| then items[i] else NULL
  }

  /** What a view reads for the rows first..last. */
  function Rows(items: seq<Item>, first: nat, n: nat): (r: seq<Item>)
    ensures |r| == n
  {
    if n == 0 then [] else Rows(items, first, n - 1) + [At(items, first + n - 1)]
  }

  /** A row event as a view takes it: the rows concerned and, for an insertion, their items. */
  datatype Event =
    | Removed(first: nat, last: nat)
    | Inserted(first: nat, rows: seq<Item>)
    | Changed(row: nat)

  function Announce(first: nat, n: nat, after: seq<Item>): Event {
    Inserted(first, Rows(after, first, n))
  }

  /** A view that follows the events one by one. Events outside its rows are ignored. */
  function Follow(view: seq<Item>, e: Event): seq<Item> {
    match e
    case Removed(first, last) =>
      if first <= last < |view| then view[..first] + view[last + 1..] else view
    case Inserted(first, rows) =>
      if first <= |view| then view[..first] + rows + view[first..] else view
    case Changed(_) => view
  }

  function Replay(events: seq<Event>): seq<Item> {
    if events == [] then [] else Follow(Replay(events[..|events| - 1]), events[|events| - 1])
  }

  lemma ReplayMore(events: seq<Event>, e: Event)
    ensures Replay(events + [e]) == Follow(Replay(events), e)
  {
    assert (events + [e])[..|events|] == events;
  }

  function InsertAt(s: seq<Item>, i: nat, more: seq<Item>): seq<Item>
    requires i <= |s|
  {
    s[..i] + more + s[i..]
  }

  function RemoveAt(s: seq<Item>, i: nat): seq<Item>
    requires i < |s|
  {
    s[..i] + s[i + 1..]
  }

  /** QVector::move. */
  function Moved(s: seq<Item>, from: nat, to: nat): seq<Item>
    requires from < |s| && to < |s|
  {
    InsertAt(RemoveAt(s, from), to, [s[from]])
  }

  /** The items of a list that are not null. */
  function NonNull(s: seq<Item>): (r: seq<Item>)
    ensures |r| <= |s|
  {
    if s == [] then []
    else
      var x := s[|s| - 1];
      NonNull(s[..|s| - 1]) + if x == NULL then [] else [x]
  }

  lemma {:induction false} NonNullAll(s: seq<Item>)
    ensures NULL !in s ==> NonNull(s) == s
    ensures NULL in s ==> |NonNull(s)| < |s|
  {
    if s != [] {
      NonNullAll(s[..|s| - 1]);
      assert s == s[..|s| - 1] + [s[|s| - 1]];
    }
  }

  lemma NonNullStep(s: seq<Item>, k: nat)
    requires k < |s|
    ensures NonNull(s[..k + 1]) == NonNull(s[..k]) + if s[k] == NULL then [] else [s[k]]
  {
    assert s[..k + 1][..k] == s[..k];
  }

  lemma {:induction false} RowsInserted(s: seq<Item>, i: nat, more: seq<Item>, n: nat)
    requires i <= |s| && n <= |more|
    ensures Rows(InsertAt(s, i, more), i, n) == more[..n]
  {
    if n > 0 {
      RowsInserted(s, i, more, n - 1);
      assert InsertAt(s, i, more)[i + n - 1] == more[n - 1];
    }
  }

  lemma InsertionFollowed(s: seq<Item>, i: nat, list: seq<Item>)
    requires i <= |s|
    ensures Follow(s, Announce(i, |list|, InsertAt(s, i, list))) == InsertAt(s, i, list)
  {
    RowsInserted(s, i, list, |list|);
    assert list[..|list|] == list;
  }

  lemma AnnouncedLength(s: seq<Item>, i: nat, n: nat, after: seq<Item>)
    requires i <= |s|
    ensures |Follow(s, Announce(i, n, after))| == |s| + n
  {
  }

  /** A view follows an insertion of a list exactly when the list holds no null item: those
      are announced but not inserted. */
  lemma InsertionFollowedExactly(s: seq<Item>, i: nat, list: seq<Item>)
    requires i <= |s|
    ensures
      var after := InsertAt(s, i, NonNull(list));
      Follow(s, Announce(i, |list|, after)) == after <==> NULL !in list
  {
    NonNullAll(list);
    if NULL !in list {
      InsertionFollowed(s, i, list);
    } else {
      AnnouncedLength(s, i, |list|, InsertAt(s, i, NonNull(list)));
    }
  }

  /** Appending puts null items in the list too, so it is always followed. */
  lemma AppendFollowed(s: seq<Item>, list: seq<Item>)
    ensures Follow(s, Announce(|s|, |list|, s + list)) == s + list
  {
    InsertionFollowed(s, |s|, list);
    assert InsertAt(s, |s|, list) == s + list;
  }

  lemma RemovalFollowed(s: seq<Item>, i: nat)
    requires i < |s|
    ensures Follow(s, Removed(i, i)) == RemoveAt(s, i)
  {
  }

  lemma ClearFollowed(s: seq<Item>)
    requires s != []
    ensures Follow(s, Removed(0, |s| - 1)) == []
  {
  }

  /** A move is announced as a removal and an insertion, which lead a view to the same list. */
  lemma MoveFollowed(s: seq<Item>, from: nat, to: nat)
    requires from < |s| && to < |s|
    ensures Follow(Follow(s, Removed(from, from)), Announce(to, 1, Moved(s, from, to))) == Moved(s, from, to)
  {
    var rest := RemoveAt(s, from);
    var after := Moved(s, from, to);
    RowsInserted(rest, to, [s[from]], 1);
    assert [s[from]][..1] == [s[from]];
  }

  // ---- the index -----------------------------------------------------------------------------------

  function Elements(s: seq<Item>): set<Item> {
    set x | x in s && x != NULL
  }

  /** The uid property of an item, kept by the item itself. */
  function Uid(uids: map<Item, string>, x: Item): string {
    if x in uids then uids[x] else ""
  }

  /** The index is the map from non-empty uid to item, over these items. */
  ghost predicate Indexes(index: map<string, Item>, uids: map<Item, string>, members: set<Item>) {
    && (forall u :: u in index ==> u != "" && index[u] in members && Uid(uids, index[u]) == u)
    && (forall x :: x in members && Uid(uids, x) != "" ==> Uid(uids, x) in index && index[Uid(uids, x)] == x)
  }

  /** There is only one such map. */
  lemma IndexIsUnique(a: map<string, Item>, b: map<string, Item>, uids: map<Item, string>, members: set<Item>)
    requires Indexes(a, uids, members) && Indexes(b, uids, members)
    ensures a == b
  {
    assert forall u :: u in a ==> Uid(uids, a[u]) in b;
    assert forall u :: u in b ==> Uid(uids, b[u]) in a;
  }

  predicate UidFree(uids: map<Item, string>, members: set<Item>, x: Item, uid: string) {
    uid != "" ==> forall y :: y in members && y != x ==> Uid(uids, y) != uid
  }

  /** Distinct items with distinct uids; null items and empty uids may repeat. */
  ghost predicate Proper(s: seq<Item>, uids: map<Item, string>) {
    && (forall x :: x in s && x != NULL ==> multiset(s)[x] == 1)
    && (forall x :: x in s && x != NULL ==> UidFree(uids, Elements(s), x, Uid(uids, x)))
  }

  lemma ProperPart(s: seq<Item>, t: seq<Item>, uids: map<Item, string>)
    requires Proper(t, uids) && multiset(s) <= multiset(t)
    ensures Proper(s, uids)
  {
    forall x | x in s && x != NULL
      ensures x in t && multiset(s)[x] == 1 && UidFree(uids, Elements(s), x, Uid(uids, x))
    {
      assert x in multiset(s) && x in multiset(t);
      forall y | y in Elements(s) ensures y in Elements(t) {
        assert y in multiset(s) && y in multiset(t);
      }
    }
  }

  lemma LastInMultiset(s: seq<Item>, x: Item)
    ensures multiset(s + [x]) == multiset(s) + multiset{x}
  {
  }

  lemma {:induction false} NonNullPart(s: seq<Item>)
    ensures multiset(NonNull(s)) <= multiset(s)
  {
    if s != [] {
      var t, x := s[..|s| - 1], s[|s| - 1];
      NonNullPart(t);
      LastInMultiset(t, x);
      LastInMultiset(NonNull(t), x);
      assert s == t + [x];
      assert x == NULL ==> NonNull(s) == NonNull(t);
    }
  }

  lemma {:induction false} NonNullMembers(s: seq<Item>, x: Item)
    ensures x in NonNull(s) <==> x in s && x != NULL
  {
    if s != [] {
      NonNullMembers(s[..|s| - 1], x);
      assert x in s <==> x in s[..|s| - 1] || x == s[|s| - 1];
    }
  }

  lemma NonNullElements(s: seq<Item>)
    ensures Elements(NonNull(s)) == Elements(s)
  {
    forall x ensures x in Elements(NonNull(s)) <==> x in Elements(s) {
      NonNullMembers(s, x);
    }
  }

  /** Inserting a proper list of new items keeps everything distinct, null items or not. */
  lemma InsertionProper(s: seq<Item>, i: nat, list: seq<Item>, uids: map<Item, string>)
    requires i <= |s| && Proper(s + list, uids)
    ensures Proper(InsertAt(s, i, NonNull(list)), uids)
    ensures Elements(InsertAt(s, i, NonNull(list))) == Elements(s) + Elements(list)
  {
    NonNullPart(list);
    InsertionMembers(s, i, NonNull(list));
    NonNullElements(list);
    assert multiset(s + NonNull(list)) == multiset(s) + multiset(NonNull(list));
    assert multiset(s + list) == multiset(s) + multiset(list);
    ProperPart(InsertAt(s, i, NonNull(list)), s + list, uids);
  }

  /** In a proper list an item's uid is free among any of the members. */
  lemma FreeAmong(s: seq<Item>, uids: map<Item, string>, x: Item, members: set<Item>)
    requires Proper(s, uids) && x in s && x != NULL && members <= Elements(s)
    ensures UidFree(uids, members, x, Uid(uids, x))
  {
  }

  lemma InsertionMembers(s: seq<Item>, i: nat, more: seq<Item>)
    requires i <= |s|
    ensures multiset(InsertAt(s, i, more)) == multiset(s + more)
    ensures Elements(InsertAt(s, i, more)) == Elements(s) + Elements(more)
  {
    assert s == s[..i] + s[i..];
  }

  lemma RemovalMembers(s: seq<Item>, i: nat)
    requires i < |s|
    ensures multiset(RemoveAt(s, i)) == multiset(s) - multiset{s[i]}
  {
    assert s == s[..i] + [s[i]] + s[i + 1..];
  }

  lemma RemovalElements(s: seq<Item>, i: nat, uids: map<Item, string>)
    requires i < |s| && Proper(s, uids)
    ensures Elements(RemoveAt(s, i)) == Elements(s) - {s[i]}
  {
    RemovalMembers(s, i);
    var r := RemoveAt(s, i);
    forall x ensures x in Elements(r) <==> x in Elements(s) && x != s[i] {
      assert x in r <==> x in multiset(r);
      assert x in s <==> x in multiset(s);
    }
  }

  lemma MovedMembers(s: seq<Item>, from: nat, to: nat)
    requires from < |s| && to < |s|
    ensures multiset(Moved(s, from, to)) == multiset(s)
  {
    RemovalMembers(s, from);
    InsertionMembers(RemoveAt(s, from), to, [s[from]]);
    assert s[from] in multiset(s);
  }

  lemma SameElements(s: seq<Item>, t: seq<Item>)
    requires multiset(s) == multiset(t)
    ensures Elements(s) == Elements(t)
  {
    assert forall x :: x in s <==> x in multiset(s);
    assert forall x :: x in t <==> x in multiset(t);
  }

  /** What putting one new item into a proper list does. */
  lemma PlacedOne(s: seq<Item>, i: nat, item: Item, uids: map<Item, string>)
    requires i <= |s| && item != NULL && Proper(s + [item], uids)
    ensures var after := InsertAt(s, i, [item]);
      && Proper(after, uids) && Elements(after) == Elements(s) + {item}
      && Follow(s, Announce(i, 1, after)) == after
    ensures UidFree(uids, Elements(s), item, Uid(uids, item))
  {
    InsertionMembers(s, i, [item]);
    ProperPart(InsertAt(s, i, [item]), s + [item], uids);
    RowsInserted(s, i, [item], 1);
    assert [item][..1] == [item];
    assert item in InsertAt(s, i, [item]);
    FreeAmong(InsertAt(s, i, [item]), uids, item, Elements(s));
  }

  /** What taking one item out does. */
  lemma RemovedOne(s: seq<Item>, i: nat, uids: map<Item, string>)
    requires i < |s| && Proper(s, uids)
    ensures var after := RemoveAt(s, i);
      Proper(after, uids) && Elements(after) == Elements(s) - {s[i]}
  {
    RemovalElements(s, i, uids);
    RemovalMembers(s, i);
    ProperPart(RemoveAt(s, i), s, uids);
  }

  /** What a move does. */
  lemma MovedOne(s: seq<Item>, from: nat, to: nat, uids: map<Item, string>)
    requires from < |s| && to < |s| && Proper(s, uids)
    ensures Proper(Moved(s, from, to), uids) && Elements(Moved(s, from, to)) == Elements(s)
  {
    MovedMembers(s, from, to);
    SameElements(Moved(s, from, to), s);
    ProperPart(Moved(s, from, to), s, uids);
  }

  // ---- the model -------------------------------------------------------------------------------------

  class ObjectList {
    const keyed: bool                  // a uid role was named
    var items: seq<Item>
    var index: map<string, Item>
    var count: nat
    var uids: map<Item, string>        // the items' own uid properties
    ghost var events: seq<Event>

    ghost predicate Valid()
      reads this
    {
      && Proper(items, uids)
      && count == |items|
      && (Indexed(Elements(items)))
    }

    /** A view that followed every event shows this list. */
    ghost predicate Mirrored()
      reads this
    {
      Replay(events) == items
    }

    constructor (keyed: bool, uids: map<Item, string>)
      ensures Valid() && Mirrored() && items == [] && this.keyed == keyed && this.uids == uids
    {
      this.keyed, this.uids := keyed, uids;
      items, index, count, events := [], map[], 0, [];
    }

    /** QHash::key with an empty default: some key of the item, if it has one. */
    method KeyOf(item: Item) returns (key: string)
      ensures key != "" ==> key in index && index[key] == item
      ensures key == "" ==> forall u :: u in index && u != "" ==> index[u] != item
    {
      if u :| u in index && u != "" && index[u] == item {
        key := u;
      } else {
        key := "";
      }
    }

    /** referenceItem, and the index part of onItemPropertyChanged. */
    method Reference(item: Item, ghost before: map<Item, string>, ghost members: set<Item>)
      requires keyed ==> Indexes(index, before, members)
      requires forall x :: x in members && x != item ==> Uid(uids, x) == Uid(before, x)
      requires UidFree(uids, members, item, Uid(uids, item))
      modifies this`index
      ensures keyed ==> Indexes(index, uids, members + {item})
      ensures !keyed ==> index == old(index)
    {
      if keyed {
        var key := KeyOf(item);
        if key != "" {
          index := index - {key};
        }
        var value := Uid(uids, item);
        if value != "" {
          index := index[value := item];
        }
      }
    }

    method Dereference(item: Item, ghost members: set<Item>)
      requires NULL !in members && (keyed ==> Indexes(index, uids, members))
      modifies this`index
      ensures keyed ==> Indexes(index, uids, members - {item})
      ensures !keyed ==> index == old(index)
    {
      if item != NULL && keyed {
        var key := KeyOf(item);
        if key != "" {
          index := index - {key};
        }
      }
    }

    method UpdateCounter()
      modifies this`count
      ensures count == |items|
    {
      if count != |items| {
        count := |items|;
      }
    }

    ghost method Emit(e: Event)
      modifies this`events
      ensures events == old(events) + [e] && Replay(events) == Follow(Replay(old(events)), e)
    {
      ReplayMore(events, e);
      events := events + [e];
    }

    /** The announcement of a list that was put in place. */
    ghost method EmitList(before: seq<Item>, idx: nat, list: seq<Item>)
      requires idx <= |before| && items == InsertAt(before, idx, NonNull(list))
      modifies this`events
      ensures Replay(old(events)) == before ==> (Mirrored() <==> NULL !in list)
    {
      InsertionFollowedExactly(before, idx, list);
      Emit(Announce(idx, |list|, items));
    }

    // ---- the mutators --------------------------------------------------------------------------------

    method Clear()
      requires Valid()
      modifies this`items, this`index, this`count, this`events
      ensures Valid() && items == [] && index == map[]
      ensures old(Mirrored()) ==> Mirrored()
    {
      if items != [] {
        ghost var e := Removed(0, |items| - 1);
        ClearFollowed(items);
        DereferenceAll();
        items := [];
        UpdateCounter();
        Emit(e);
      }
      EmptyIndex(index, uids);
    }

    method DereferenceAll()
      requires Indexed(Elements(items))
      modifies this`index
      ensures Indexed({})
    {
      ghost var left := Elements(items);
      var k := 0;
      while k < |items|
        invariant 0 <= k <= |items|
        invariant NULL !in left && left == Elements(items) - Elements(items[..k])
        invariant Indexed(left)
      {
        if items[k] != NULL {
          Dereference(items[k], left);
        }
        ElementsStep(items, k);
        left := left - {items[k]};
        k := k + 1;
      }
      assert items[..k] == items;
    }

    method Append(item: Item)
      requires Valid() && (item != NULL ==> Proper(items + [item], uids))
      modifies this`items, this`index, this`count, this`events
      ensures Valid() && items == old(items) + (if item != NULL then [item] else [])
      ensures old(Mirrored()) ==> Mirrored()
    {
      if item != NULL {
        var pos := |items|;
        Place(pos, item);
        UpdateCounter();
        Emit(Announce(pos, 1, items));
      }
    }

    method Prepend(item: Item)
      requires Valid() && (item != NULL ==> Proper(items + [item], uids))
      modifies this`items, this`index, this`count, this`events
      ensures Valid() && items == (if item != NULL then [item] else []) + old(items)
      ensures old(Mirrored()) ==> Mirrored()
    {
      if item != NULL {
        Place(0, item);
        UpdateCounter();
        Emit(Announce(0, 1, items));
      }
    }

    method Insert(idx: nat, item: Item)
      requires Valid() && idx <= |items| && (item != NULL ==> Proper(items + [item], uids))
      modifies this`items, this`index, this`count, this`events
      ensures Valid() && items == InsertAt(old(items), idx, if item != NULL then [item] else [])
      ensures old(Mirrored()) ==> Mirrored()
    {
      InsertNone(items, idx);
      if item != NULL {
        Place(idx, item);
        UpdateCounter();
        Emit(Announce(idx, 1, items));
      }
    }

    method AppendList(list: seq<Item>)
      requires Valid() && Proper(items + list, uids)
      modifies this`items, this`index, this`count, this`events
      ensures Valid() && items == old(items) + list
      ensures old(Mirrored()) ==> Mirrored()
    {
      if list != [] {
        AppendFollowed(items, list);
        var pos := |items|;
        Extend(list);
        UpdateCounter();
        Emit(Announce(pos, |list|, items));
      } else {
        assert items + list == items;
      }
    }

    method Extend(list: seq<Item>)
      requires Valid() && Proper(items + list, uids)
      modifies this`items, this`index
      ensures items == old(items) + list && Proper(items, uids)
      ensures Indexed(Elements(items))
    {
      ghost var before := items;
      items := items + list;
      ReferenceAll(before, list);
    }

    method ReferenceAll(ghost present: seq<Item>, list: seq<Item>)
      requires Proper(present + list, uids)
      requires Indexed(Elements(present))
      modifies this`index
      ensures Indexed(Elements(present + list))
    {
      ghost var members := Elements(present);
      var k := 0;
      while k < |list|
        invariant 0 <= k <= |list|
        invariant members == Elements(present) + Elements(list[..k])
        invariant Indexed(members)
      {
        ElementsStep(list, k);
        if list[k] != NULL {
          AppendedFree(present, list, k, uids);
          Reference(list[k], uids, members);
          members := members + {list[k]};
        }
        k := k + 1;
      }
      assert list[..k] == list;
      AppendedElements(present, list);
    }

    /** A null item in the list is skipped but was announced: the views then differ. */
    method InsertList(idx: nat, list: seq<Item>)
      requires Valid() && idx <= |items| && Proper(items + list, uids)
      modifies this`items, this`index, this`count, this`events
      ensures Valid() && items == InsertAt(old(items), idx, NonNull(list))
      ensures old(Mirrored()) ==> (Mirrored() <==> NULL !in list)
    {
      InsertNone(items, idx);
      if list != [] {
        ghost var before := items;
        PlaceList(idx, list);
        UpdateCounter();
        EmitList(before, idx, list);
      }
    }

    method PrependList(list: seq<Item>)
      requires Valid() && Proper(items + list, uids)
      modifies this`items, this`index, this`count, this`events
      ensures Valid() && items == NonNull(list) + old(items)
      ensures old(Mirrored()) ==> (Mirrored() <==> NULL !in list)
    {
      InsertFront(items, NonNull(list));
      if list != [] {
        ghost var before := items;
        PlaceList(0, list);
        UpdateCounter();
        EmitList(before, 0, list);
      }
    }

    /** Announced as a removal and an insertion around the move. */
    method Move(idx: nat, pos: nat)
      requires Valid() && idx < |items| && pos < |items|
      modifies this`items, this`events
      ensures Valid() && items == Moved(old(items), idx, pos)
      ensures old(Mirrored()) ==> Mirrored()
    {
      if idx != pos {
        MoveFollowed(items, idx, pos);
        MoveItem(idx, pos);
        Emit(Removed(idx, idx));
        Emit(Announce(pos, 1, items));
      } else {
        assert Moved(items, idx, pos) == items;
      }
    }

    /** QVector::move. */
    method MoveItem(idx: nat, pos: nat)
      requires Proper(items, uids) && idx < |items| && pos < |items|
      modifies this`items
      ensures items == Moved(old(items), idx, pos) && |items| == |old(items)|
      ensures Proper(items, uids) && Elements(items) == Elements(old(items))
    {
      MovedOne(items, idx, pos, uids);
      var item := items[idx];
      items := items[..idx] + items[idx + 1..];
      items := items[..pos] + [item] + items[pos..];
    }

    /** Any index is accepted; one outside the list does nothing. */
    method RemoveAtIndex(idx: int)
      requires Valid()
      modifies this`items, this`index, this`count, this`events
      ensures Valid() && items == if 0 <= idx < |old(items)| then RemoveAt(old(items), idx) else old(items)
      ensures old(Mirrored()) ==> Mirrored()
    {
      if 0 <= idx < |items| {
        RemovalFollowed(items, idx);
        TakeAt(idx);
        UpdateCounter();
        Emit(Removed(idx, idx));
      }
    }

    /** QVector::takeAt and dereferenceItem. */
    method TakeAt(idx: nat)
      requires Valid() && idx < |items|
      modifies this`items, this`index
      ensures items == RemoveAt(old(items), idx) && Proper(items, uids)
      ensures Indexed(Elements(items))
    {
      RemovedOne(items, idx, uids);
      ghost var members := Elements(items);
      var item := items[idx];
      items := items[..idx] + items[idx + 1..];
      Dereference(item, members);
    }

    method IndexOf(item: Item) returns (idx: int)
      ensures idx == -1 <==> item !in items
      ensures idx != -1 ==> 0 <= idx < |items| && items[idx] == item && item !in items[..idx]
    {
      idx := 0;
      while idx < |items|
        invariant 0 <= idx <= |items| && item !in items[..idx]
      {
        if items[idx] == item {
          return;
        }
        idx := idx + 1;
      }
      idx := -1;
    }

    method Remove(item: Item)
      requires Valid()
      modifies this`items, this`index, this`count, this`events
      ensures Valid() && (item == NULL || item !in old(items) ==> items == old(items))
      ensures item != NULL ==> item !in items && Elements(items) == Elements(old(items)) - {item}
      ensures old(Mirrored()) ==> Mirrored()
    {
      if item != NULL {
        var idx := IndexOf(item);
        if idx != -1 {
          RemovalElements(items, idx, uids);
        }
        RemoveAtIndex(idx);
        assert item in items <==> item in Elements(items);
      }
    }

    /** An item's uid property changes; the model hears of it only while the item is listed. */
    method SetUid(item: Item, uid: string)
      requires Valid() && item != NULL && UidFree(uids, Elements(items), item, uid)
      modifies this`uids, this`index, this`events
      ensures Valid() && uids == old(uids)[item := uid]
      ensures keyed && uid != "" && item in items ==> uid in index && index[uid] == item
      ensures old(Mirrored()) ==> Mirrored()
    {
      ghost var before := uids;
      uids := uids[item := uid];
      RenamedProper(items, before, item, uid);
      var row := IndexOf(item);
      if row >= 0 {
        Emit(Changed(row));
        Reference(item, before, Elements(items));
        assert Elements(items) + {item} == Elements(items);
      } else {
        assert forall x :: x in Elements(items) ==> Uid(uids, x) == Uid(before, x);
      }
    }

    /** getByUid finds the listed item with this uid, and null exactly when there is none. */
    method GetByUid(uid: string) returns (item: Item)
      requires Valid()
      ensures item != NULL ==> item in items && Uid(uids, item) == uid && uid != ""
      ensures item == NULL <==> !keyed || uid == "" || forall x :: x in Elements(items) ==> Uid(uids, x) != uid
    {
      item := if uid in index then index[uid] else NULL;
      if uid in index && keyed {
        assert index[uid] in Elements(items);
      }
    }

    // ---- one item, and one list, put in place ----------------------------------------------------------

    /** QVector::insert of one item and referenceItem. */
    method Place(idx: nat, item: Item)
      requires Valid() && idx <= |items| && item != NULL && Proper(items + [item], uids)
      modifies this`items, this`index
      ensures items == InsertAt(old(items), idx, [item]) && Proper(items, uids)
      ensures Indexed(Elements(items))
      ensures Follow(old(items), Announce(idx, 1, items)) == items
    {
      PlacedOne(items, idx, item, uids);
      ghost var members := Elements(items);
      items := items[..idx] + [item] + items[idx..];
      Reference(item, uids, members);
    }

    /** The loop of prepend and insert over a list. */
    method PlaceList(idx: nat, list: seq<Item>)
      requires Valid() && idx <= |items| && Proper(items + list, uids)
      modifies this`items, this`index
      ensures items == InsertAt(old(items), idx, NonNull(list)) && Proper(items, uids)
      ensures Indexed(Elements(items))
    {
      ghost var before := items;
      var offset := 0;
      var k := 0;
      InsertNone(before, idx);
      while k < |list|
        invariant 0 <= k <= |list|
        invariant offset == |NonNull(list[..k])|
        invariant items == InsertAt(before, idx, NonNull(list[..k]))
        invariant Indexed(Elements(before) + Elements(list[..k]))
      {
        offset := PlaceNext(before, idx, list, k, offset);
        k := k + 1;
      }
      assert list[..k] == list;
      InsertionProper(before, idx, list, uids);
    }

    ghost predicate Indexed(members: set<Item>)
      reads this
    {
      if keyed then Indexes(index, uids, members) else index == map[]
    }

    method PlaceNext(ghost before: seq<Item>, idx: nat, list: seq<Item>, k: nat, offset: nat) returns (next: nat)
      requires idx <= |before| && k < |list| && Proper(before + list, uids)
      requires offset == |NonNull(list[..k])| && items == InsertAt(before, idx, NonNull(list[..k]))
      requires Indexed(Elements(before) + Elements(list[..k]))
      modifies this`items, this`index
      ensures items == InsertAt(before, idx, NonNull(list[..k + 1])) && next == |NonNull(list[..k + 1])|
      ensures Indexed(Elements(before) + Elements(list[..k + 1]))
    {
      next := offset;
      NonNullStep(list, k);
      ElementsStep(list, k);
      ghost var members := Elements(before) + Elements(list[..k]);
      if list[k] != NULL {
        PlacedStep(before, idx, list, k);
        items := items[..idx + offset] + [list[k]] + items[idx + offset..];
        AppendedFree(before, list, k, uids);
        Reference(list[k], uids, members);
        assert members + {list[k]} == Elements(before) + Elements(list[..k + 1]);
        next := offset + 1;
      } else {
        assert Elements(list[..k + 1]) == Elements(list[..k]);
      }
    }
  }

  lemma InsertNone(s: seq<Item>, i: nat)
    requires i <= |s|
    ensures InsertAt(s, i, []) == s
  {
  }

  lemma InsertFront(s: seq<Item>, more: seq<Item>)
    ensures InsertAt(s, 0, more) == more + s
  {
  }

  lemma ElementsStep(s: seq<Item>, k: nat)
    requires k < |s|
    ensures Elements(s[..k + 1]) == Elements(s[..k]) + if s[k] == NULL then {} else {s[k]}
  {
    assert s[..k + 1] == s[..k] + [s[k]];
  }

  lemma EmptyIndex(index: map<string, Item>, uids: map<Item, string>)
    ensures Indexes(index, uids, {}) ==> index == map[]
  {
  }

  lemma AppendedElements(s: seq<Item>, list: seq<Item>)
    ensures Elements(s + list) == Elements(s) + Elements(list)
  {
  }

  lemma AppendedFree(s: seq<Item>, list: seq<Item>, k: nat, uids: map<Item, string>)
    requires k < |list| && list[k] != NULL && Proper(s + list, uids)
    ensures UidFree(uids, Elements(s) + Elements(list[..k]), list[k], Uid(uids, list[k]))
  {
    AppendedElements(s, list);
    assert list[k] in s + list;
    assert forall x :: x in list[..k] ==> x in list;
    FreeAmong(s + list, uids, list[k], Elements(s) + Elements(list[..k]));
  }

  lemma OneMore(s: seq<Item>, i: nat, more: seq<Item>, x: Item)
    requires i <= |s|
    ensures var t := InsertAt(s, i, more);
      t[..i + |more|] + [x] + t[i + |more|..] == InsertAt(s, i, more + [x])
  {
    var t := InsertAt(s, i, more);
    assert t[..i + |more|] == s[..i] + more;
    assert t[i + |more|..] == s[i..];
  }

  lemma PlacedStep(s: seq<Item>, i: nat, list: seq<Item>, k: nat)
    requires i <= |s| && k < |list|
    ensures
      var placed := NonNull(list[..k]);
      var t := InsertAt(s, i, placed);
      if list[k] == NULL then NonNull(list[..k + 1]) == placed
      else
        && |NonNull(list[..k + 1])| == |placed| + 1
        && t[..i + |placed|] + [list[k]] + t[i + |placed|..] == InsertAt(s, i, NonNull(list[..k + 1]))
  {
    NonNullStep(list, k);
    OneMore(s, i, NonNull(list[..k]), list[k]);
  }

  lemma RenamedProper(s: seq<Item>, before: map<Item, string>, item: Item, uid: string)
    requires Proper(s, before) && UidFree(before, Elements(s), item, uid)
    ensures Proper(s, before[item := uid])
  {
    var after := before[item := uid];
    forall x | x in s && x != NULL ensures UidFree(after, Elements(s), x, Uid(after, x)) {
      assert UidFree(before, Elements(s), x, Uid(before, x));
    }
  }
}
