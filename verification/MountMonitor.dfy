/**
 Watching the mounted devices: the old and the new list are compared in place, what is left of
 the old one was unmounted, what is left of the new one was mounted.
 */
module MountMonitor {

  datatype Mount = Mount(device: string, point: string)

  /** DeviceMount::operator== looks at the device only. */
  predicate SameDevice(a: Mount, b: Mount) {
    a.device == b.device
  }

  datatype Event = Unmounted(mount: Mount) | Mounted(mount: Mount)

  function Devices(mounts: seq<Mount>): seq<string> {
    if mounts == [] then [] else [mounts[0].device] + Devices(mounts[1..])
  }

  /** How many mounts the list has of each device. */
  function Bag(mounts: seq<Mount>): multiset<string> {
    multiset(Devices(mounts))
  }

  lemma {:induction false} DevicesAppend(a: seq<Mount>, b: seq<Mount>)
    ensures Devices(a + b) == Devices(a) + Devices(b)
  {
    if a == [] {
      assert a + b == b;
    } else {
      assert (a + b)[1..] == a[1..] + b;
      DevicesAppend(a[1..], b);
    }
  }

  lemma BagAppend(a: seq<Mount>, b: seq<Mount>)
    ensures Bag(a + b) == Bag(a) + Bag(b)
  {
    DevicesAppend(a, b);
  }

  lemma BagOne(m: Mount)
    ensures Bag([m]) == multiset{m.device}
  {
    assert Devices([m]) == [m.device];
  }

  function Without(s: seq<Mount>, i: nat): seq<Mount>
    requires i < |s|
  {
    s[..i] + s[i + 1..]
  }

  // ---- what the comparison leaves -----------------------------------------------------------------

  /** The last entry of this device, or the length. */
  function LastOf(s: seq<Mount>, d: string): (j: nat)
    ensures j <= |s|
    ensures j < |s| ==> s[j].device == d
  {
    if s == [] then 0
    else if s[|s| - 1].device == d then |s| - 1
    else
      var j := LastOf(s[..|s| - 1], d);
      if j < |s| - 1 then j else |s|
  }

  /** Striking out: from the back of the old list, each entry goes together with the last entry
      of its device that is left in the new list. */
  function Leftovers(olds: seq<Mount>, news: seq<Mount>): (r: (seq<Mount>, seq<Mount>))
    decreases |olds|
  {
    if olds == [] then ([], news)
    else
      var n := |olds| - 1;
      var j := LastOf(news, olds[n].device);
      if j < |news| then Leftovers(olds[..n], Without(news, j))
      else
        var rest := Leftovers(olds[..n], news);
        (rest.0 + [olds[n]], rest.1)
  }

  /** The entries of one device, in order. */
  function OfDevice(s: seq<Mount>, d: string): seq<Mount> {
    if s == [] then []
    else OfDevice(s[..|s| - 1], d) + if s[|s| - 1].device == d then [s[|s| - 1]] else []
  }

  lemma {:induction false} OfDeviceAppend(a: seq<Mount>, b: seq<Mount>, d: string)
    ensures OfDevice(a + b, d) == OfDevice(a, d) + OfDevice(b, d)
  {
    if b == [] {
      assert a + b == a;
    } else {
      assert (a + b)[..|a + b| - 1] == a + b[..|b| - 1];
      OfDeviceAppend(a, b[..|b| - 1], d);
    }
  }

  lemma OfDeviceOne(m: Mount, d: string)
    ensures OfDevice([m], d) == if m.device == d then [m] else []
  {
    assert [m][..0] == [];
  }

  lemma {:induction false} LastOfNone(s: seq<Mount>, d: string)
    ensures LastOf(s, d) == |s| <==> OfDevice(s, d) == []
    ensures LastOf(s, d) < |s| ==> OfDevice(s[LastOf(s, d) + 1..], d) == []
  {
    if s != [] && s[|s| - 1].device != d {
      var init, j := s[..|s| - 1], LastOf(s, d);
      LastOfNone(init, d);
      if j < |s| {
        assert s[j + 1..] == init[j + 1..] + [s[|s| - 1]];
        OfDeviceAppend(init[j + 1..], [s[|s| - 1]], d);
        OfDeviceOne(s[|s| - 1], d);
      }
    }
  }

  lemma OfDeviceThree(front: seq<Mount>, m: Mount, back: seq<Mount>, e: string)
    ensures OfDevice(front + [m] + back, e) ==
      OfDevice(front, e) + (if m.device == e then [m] else []) + OfDevice(back, e)
    ensures OfDevice(front + back, e) == OfDevice(front, e) + OfDevice(back, e)
  {
    OfDeviceAppend(front + [m], back, e);
    OfDeviceAppend(front, [m], e);
    OfDeviceOne(m, e);
    OfDeviceAppend(front, back, e);
  }

  lemma DropLast<T>(a: seq<T>, m: T)
    ensures a + [m] + [] != [] && (a + [m] + [])[..|a + [m] + []| - 1] == a + []
  {
  }

  /** Taking out the last entry of a device: that device loses its last entry, the others none. */
  lemma WithoutLast(s: seq<Mount>, d: string, e: string)
    requires LastOf(s, d) < |s|
    ensures OfDevice(s, d) != []
    ensures OfDevice(Without(s, LastOf(s, d)), e) ==
      if e == d then OfDevice(s, d)[..|OfDevice(s, d)| - 1] else OfDevice(s, e)
  {
    var j := LastOf(s, d);
    LastOfNone(s, d);
    assert s == s[..j] + [s[j]] + s[j + 1..];
    TakenOut(s[..j], s[j], s[j + 1..], e);
    if e != d {
      TakenOut(s[..j], s[j], s[j + 1..], d);
    }
  }

  lemma TakenOut(front: seq<Mount>, m: Mount, back: seq<Mount>, e: string)
    requires OfDevice(back, m.device) == []
    ensures var here, left := OfDevice(front + [m] + back, e), OfDevice(front + back, e);
      if e == m.device then here != [] && left == here[..|here| - 1] else left == here
  {
    OfDeviceThree(front, m, back, e);
    if e == m.device {
      DropLast(OfDevice(front, e), m);
    } else {
      EmptyBetween(OfDevice(front, e), OfDevice(back, e));
    }
  }

  lemma EmptyBetween<T>(a: seq<T>, b: seq<T>)
    ensures a + [] + b == a + b
  {
  }

  function Least(a: nat, b: nat): (m: nat)
    ensures m <= a && m <= b
  {
    if a < b then a else b
  }

  /** All but the last n. */
  function First<T>(s: seq<T>, n: nat): seq<T>
    requires n <= |s|
  {
    s[..|s| - n]
  }

  /** The entries of a device that stay when the last n are struck out. */
  function FirstOnes(s: seq<Mount>, d: string, n: nat): seq<Mount>
    requires n <= |OfDevice(s, d)|
  {
    First(OfDevice(s, d), n)
  }

  function LastOnes(s: seq<Mount>, d: string, n: nat): seq<Mount>
    requires n <= |OfDevice(s, d)|
  {
    OfDevice(s, d)[|OfDevice(s, d)| - n..]
  }

  /** How many entries of a device find a partner. */
  function Partners(olds: seq<Mount>, news: seq<Mount>, d: string): (n: nat)
    ensures n <= |OfDevice(olds, d)| && n <= |OfDevice(news, d)|
  {
    Least(|OfDevice(olds, d)|, |OfDevice(news, d)|)
  }

  /** Device by device: as many entries as both lists have are struck out from the back of each,
      and the first ones are left. */
  lemma {:induction false} LeftoversByDevice(olds: seq<Mount>, news: seq<Mount>, d: string)
    ensures OfDevice(Leftovers(olds, news).0, d) == FirstOnes(olds, d, Partners(olds, news, d))
    ensures OfDevice(Leftovers(olds, news).1, d) == FirstOnes(news, d, Partners(olds, news, d))
    decreases |olds|
  {
    if olds != [] {
      var init, m := olds[..|olds| - 1], olds[|olds| - 1];
      var j := LastOf(news, m.device);
      var o, n, here := OfDevice(init, d), OfDevice(news, d), m.device == d;
      assert olds == init + [m];
      LeftoversLast(init, m, news);
      OfDeviceLast(init, m, d);
      if j < |news| {
        WithoutLast(news, m.device, d);
        LeftoversByDevice(init, Without(news, j), d);
        Struck(o, OfDevice(olds, d), n, OfDevice(Without(news, j), d), m, here);
      } else {
        LastOfNone(news, m.device);
        LeftoversByDevice(init, news, d);
        Kept(o, OfDevice(olds, d), n, m, here);
        OfDeviceLast(Leftovers(init, news).0, m, d);
      }
    }
  }

  lemma LeftoversLast(olds: seq<Mount>, m: Mount, news: seq<Mount>)
    ensures
      var j := LastOf(news, m.device);
      Leftovers(olds + [m], news) ==
      if j < |news| then Leftovers(olds, Without(news, j))
      else (Leftovers(olds, news).0 + [m], Leftovers(olds, news).1)
  {
    assert (olds + [m])[..|olds|] == olds;
  }

  lemma OfDeviceLast(s: seq<Mount>, m: Mount, d: string)
    ensures OfDevice(s + [m], d) == OfDevice(s, d) + if m.device == d then [m] else []
  {
    assert (s + [m])[..|s|] == s;
  }

  /** A pair that is struck out takes one entry of its device from the back of each list. */
  lemma Struck(o: seq<Mount>, o': seq<Mount>, n: seq<Mount>, n': seq<Mount>, m: Mount, here: bool)
    requires o' == o + if here then [m] else []
    requires here ==> n != []
    requires n' == if here then n[..|n| - 1] else n
    ensures First(o, Least(|o|, |n'|)) == First(o', Least(|o'|, |n|))
    ensures First(n', Least(|o|, |n'|)) == First(n, Least(|o'|, |n|))
  {
  }

  /** An entry without a partner stays, as the last one of its device so far. */
  lemma Kept(o: seq<Mount>, o': seq<Mount>, n: seq<Mount>, m: Mount, here: bool)
    requires o' == o + if here then [m] else []
    requires here ==> n == []
    ensures First(o, Least(|o|, |n|)) + (if here then [m] else []) == First(o', Least(|o'|, |n|))
    ensures Least(|o|, |n|) == Least(|o'|, |n|)
  {
  }

  lemma {:induction false} BagCounts(s: seq<Mount>, d: string)
    ensures Bag(s)[d] == |OfDevice(s, d)|
  {
    if s != [] {
      var n := |s| - 1;
      BagCounts(s[..n], d);
      assert s == s[..n] + [s[n]];
      BagAppend(s[..n], [s[n]]);
      BagOne(s[n]);
    }
  }

  lemma LeftoverCounts(olds: seq<Mount>, news: seq<Mount>, d: string)
    ensures
      var left := Leftovers(olds, news);
      && Bag(left.0)[d] == Bag(olds)[d] - Least(Bag(olds)[d], Bag(news)[d])
      && Bag(left.1)[d] == Bag(news)[d] - Least(Bag(olds)[d], Bag(news)[d])
  {
    LeftoversByDevice(olds, news, d);
    BagCounts(olds, d);
    BagCounts(news, d);
    BagCounts(Leftovers(olds, news).0, d);
    BagCounts(Leftovers(olds, news).1, d);
  }

  lemma Minus(a: multiset<string>, b: multiset<string>, r: multiset<string>)
    requires forall d: string :: r[d] == a[d] - Least(a[d], b[d])
    ensures r == a - b
  {
  }

  /** What is left are exactly the two differences, device by device. */
  lemma LeftoversAreDifferences(olds: seq<Mount>, news: seq<Mount>)
    ensures Bag(Leftovers(olds, news).0) == Bag(olds) - Bag(news)
    ensures Bag(Leftovers(olds, news).1) == Bag(news) - Bag(olds)
  {
    var r, n := Bag(Leftovers(olds, news).0), Bag(Leftovers(olds, news).1);
    forall d: string
      ensures r[d] == Bag(olds)[d] - Least(Bag(olds)[d], Bag(news)[d])
      ensures n[d] == Bag(news)[d] - Least(Bag(news)[d], Bag(olds)[d])
    {
      LeftoverCounts(olds, news, d);
    }
    Minus(Bag(olds), Bag(news), r);
    Minus(Bag(news), Bag(olds), n);
  }

  // ---- the entries themselves ----------------------------------------------------------------------

  lemma {:induction false} EntryCount(s: seq<Mount>, x: Mount)
    ensures multiset(s)[x] == multiset(OfDevice(s, x.device))[x]
  {
    if s != [] {
      var n := |s| - 1;
      EntryCount(s[..n], x);
      assert s == s[..n] + [s[n]];
    }
  }

  lemma {:induction false} OneDevice(s: seq<Mount>, d: string, x: Mount)
    requires x in OfDevice(s, d)
    ensures x.device == d && x in s
  {
    var n := |s| - 1;
    if !(s[n].device == d && s[n] == x) {
      OneDevice(s[..n], d, x);
    }
  }

  lemma SplitCount(s: seq<Mount>, x: Mount, n: nat)
    requires n <= |OfDevice(s, x.device)|
    ensures multiset(s)[x] == multiset(FirstOnes(s, x.device, n))[x] + multiset(LastOnes(s, x.device, n))[x]
  {
    EntryCount(s, x);
    assert OfDevice(s, x.device) == FirstOnes(s, x.device, n) + LastOnes(s, x.device, n);
  }

  /** The struck out entries of a device are the same ones in both lists, mount points included. */
  ghost predicate SameLastOnes(olds: seq<Mount>, news: seq<Mount>, d: string) {
    var n := Partners(olds, news, d);
    multiset(LastOnes(olds, d, n)) == multiset(LastOnes(news, d, n))
  }

  /** The entries a listener holds that had the old ones and applied the changes. */
  function Listened(olds: seq<Mount>, news: seq<Mount>): multiset<Mount> {
    multiset(olds) - multiset(Leftovers(olds, news).0) + multiset(Leftovers(olds, news).1)
  }

  lemma ListenedCount(olds: seq<Mount>, news: seq<Mount>, x: Mount)
    ensures
      var n := Partners(olds, news, x.device);
      && Listened(olds, news)[x] ==
           multiset(LastOnes(olds, x.device, n))[x] + multiset(FirstOnes(news, x.device, n))[x]
      && multiset(news)[x] == multiset(LastOnes(news, x.device, n))[x] + multiset(FirstOnes(news, x.device, n))[x]
  {
    var n := Partners(olds, news, x.device);
    var left := Leftovers(olds, news);
    LeftoversByDevice(olds, news, x.device);
    SplitCount(olds, x, n);
    SplitCount(news, x, n);
    EntryCount(left.0, x);
    EntryCount(left.1, x);
  }

  /** The listener's entries are the new ones exactly when, for every device, the entries struck
      out of the two lists are the same ones: a device that merely moved to another mount point
      is not noticed. */
  lemma EntriesExactly(olds: seq<Mount>, news: seq<Mount>)
    ensures Listened(olds, news) == multiset(news) <==> forall d: string :: SameLastOnes(olds, news, d)
  {
    if forall d: string :: SameLastOnes(olds, news, d) {
      forall x: Mount ensures Listened(olds, news)[x] == multiset(news)[x] {
        ListenedCount(olds, news, x);
        assert SameLastOnes(olds, news, x.device);
      }
    }
    if Listened(olds, news) == multiset(news) {
      forall d: string ensures SameLastOnes(olds, news, d) {
        SameEntries(olds, news, d);
      }
    }
  }

  lemma SameEntries(olds: seq<Mount>, news: seq<Mount>, d: string)
    requires Listened(olds, news) == multiset(news)
    ensures SameLastOnes(olds, news, d)
  {
    var n := Partners(olds, news, d);
    var a, b := LastOnes(olds, d, n), LastOnes(news, d, n);
    forall x: Mount ensures multiset(a)[x] == multiset(b)[x] {
      if x.device == d {
        ListenedCount(olds, news, x);
      } else {
        if x in a { OneDevice(olds, d, x); }
        if x in b { OneDevice(news, d, x); }
        assert x !in a && x !in b;
      }
    }
  }

  predicate OneEach(s: seq<Mount>) {
    forall i, j :: 0 <= i < j < |s| ==> !SameDevice(s[i], s[j])
  }

  predicate Unmoved(olds: seq<Mount>, news: seq<Mount>) {
    forall a, b :: a in olds && b in news && SameDevice(a, b) ==> a == b
  }

  lemma {:induction false} OnlyOne(s: seq<Mount>, m: Mount)
    requires OneEach(s) && m in s
    ensures OfDevice(s, m.device) == [m]
  {
    var n := |s| - 1;
    assert s == s[..n] + [s[n]];
    if s[n] == m {
      if OfDevice(s[..n], m.device) != [] {
        OneDevice(s[..n], m.device, OfDevice(s[..n], m.device)[0]);
      }
    } else {
      OnlyOne(s[..n], m);
    }
  }

  lemma {:induction false} InSome(s: seq<Mount>, m: Mount)
    ensures m in s <==> m in OfDevice(s, m.device)
  {
    if s != [] {
      var n := |s| - 1;
      assert s == s[..n] + [s[n]];
      InSome(s[..n], m);
    }
  }

  lemma OneEachStays(olds: seq<Mount>, news: seq<Mount>, a: Mount, b: Mount)
    requires OneEach(olds) && OneEach(news) && a in olds && b in news && SameDevice(a, b)
    ensures SameLastOnes(olds, news, a.device) <==> a == b
  {
    OnlyOne(olds, a);
    OnlyOne(news, b);
    assert LastOnes(olds, a.device, 1) == [a] && LastOnes(news, a.device, 1) == [b];
    assert multiset([a])[a] == 1 && (multiset([b])[a] == 1 <==> a == b);
  }

  lemma NoPartners(olds: seq<Mount>, news: seq<Mount>, d: string)
    requires Partners(olds, news, d) == 0
    ensures SameLastOnes(olds, news, d)
  {
    assert LastOnes(olds, d, 0) == [] && LastOnes(news, d, 0) == [];
  }

  /** If each list names a device once, that is to say: no device of both moved. */
  lemma OneEachUnmoved(olds: seq<Mount>, news: seq<Mount>)
    requires OneEach(olds) && OneEach(news)
    ensures Listened(olds, news) == multiset(news) <==> Unmoved(olds, news)
  {
    EntriesExactly(olds, news);
    if forall d: string :: SameLastOnes(olds, news, d) {
      forall a, b | a in olds && b in news && SameDevice(a, b) ensures a == b {
        OneEachStays(olds, news, a, b);
        assert SameLastOnes(olds, news, a.device);
      }
    }
    if Unmoved(olds, news) {
      forall d: string ensures SameLastOnes(olds, news, d) {
        UnmovedSame(olds, news, d);
      }
    }
  }

  lemma SomeOf(s: seq<Mount>, d: string) returns (m: Mount)
    requires |OfDevice(s, d)| > 0
    ensures m in s && m.device == d
  {
    m := OfDevice(s, d)[0];
    OneDevice(s, d, m);
  }

  lemma SomePartners(olds: seq<Mount>, news: seq<Mount>, d: string) returns (a: Mount, b: Mount)
    requires Partners(olds, news, d) > 0
    ensures a in olds && b in news && a.device == b.device == d
  {
    a := SomeOf(olds, d);
    b := SomeOf(news, d);
  }

  lemma UnmovedSame(olds: seq<Mount>, news: seq<Mount>, d: string)
    requires OneEach(olds) && OneEach(news) && Unmoved(olds, news)
    ensures SameLastOnes(olds, news, d)
  {
    if Partners(olds, news, d) == 0 {
      NoPartners(olds, news, d);
    } else {
      var a, b := SomePartners(olds, news, d);
      OneEachStays(olds, news, a, b);
    }
  }

  /** The listener's bag of devices after an event. */
  function Heard(bag: multiset<string>, e: Event): multiset<string> {
    match e
    case Unmounted(m) => bag - multiset{m.device}
    case Mounted(m) => bag + multiset{m.device}
  }

  function HeardAll(bag: multiset<string>, events: seq<Event>): multiset<string> {
    if events == [] then bag else Heard(HeardAll(bag, events[..|events| - 1]), events[|events| - 1])
  }

  lemma HeardMore(bag: multiset<string>, events: seq<Event>, e: Event)
    ensures HeardAll(bag, events + [e]) == Heard(HeardAll(bag, events), e)
  {
    assert (events + [e])[..|events|] == events;
  }

  // ---- the monitor ---------------------------------------------------------------------------------

  class Monitor {
    var mountPoints: seq<Mount>
    ghost var events: seq<Event>       // sent to the listener, oldest first
    ghost const initial: seq<Mount>

    /** The listener starts from the list the monitor starts from. */
    constructor (mounts: seq<Mount>)
      ensures mountPoints == mounts && initial == mounts && events == [] && Valid()
    {
      mountPoints, initial, events := mounts, mounts, [];
    }

    /** A listener that applied every event holds the current devices. */
    ghost predicate Valid()
      reads this
    {
      HeardAll(Bag(initial), events) == Bag(mountPoints)
    }

    /** The double loop of Process, from the back of both lists. */
    static method StrikeOut(oldList: seq<Mount>, newList: seq<Mount>)
      returns (removed: seq<Mount>, added: seq<Mount>)
      ensures removed == Leftovers(oldList, newList).0 && added == Leftovers(oldList, newList).1
    {
      removed, added := oldList, newList;
      var i := |removed|;
      assert removed[..i] == removed && removed[i..] == [];
      while i > 0
        invariant 0 <= i <= |removed|
        invariant Leftovers(oldList, newList).0 == Leftovers(removed[..i], added).0 + removed[i..]
        invariant Leftovers(oldList, newList).1 == Leftovers(removed[..i], added).1
        decreases i
      {
        i := i - 1;
        var j := FindLast(added, removed[i]);
        LeftoversLast(removed[..i], removed[i], added);
        assert removed[..i + 1] == removed[..i] + [removed[i]];
        if j >= 0 {
          RestOfWithout(removed, i);
          removed := removed[..i] + removed[i + 1..];
          added := added[..j] + added[j + 1..];
        } else {
          KeepInFront(Leftovers(removed[..i], added).0, removed, i);
        }
      }
      assert [] + removed[0..] == removed && removed[..0] == [];
    }

    /** The inner loop: the last entry of the same device, or -1. */
    static method FindLast(mounts: seq<Mount>, m: Mount) returns (j: int)
      ensures var l := LastOf(mounts, m.device); j == if l < |mounts| then l else -1
    {
      j := |mounts| - 1;
      assert mounts[..j + 1] == mounts;
      while j >= 0 && !SameDevice(m, mounts[j])
        invariant -1 <= j < |mounts|
        invariant
          var l := LastOf(mounts[..j + 1], m.device);
          LastOf(mounts, m.device) == if l < j + 1 then l else |mounts|
        decreases j
      {
        assert mounts[..j + 1][..j] == mounts[..j];
        j := j - 1;
      }
      if j >= 0 {
        assert mounts[..j + 1][j] == mounts[j];
      }
    }

    /** Process and the assignment after it in Run. */
    method Poll(newMounts: seq<Mount>)
      requires Valid()
      modifies this
      ensures Valid() && mountPoints == newMounts
      ensures
        var left := Leftovers(old(mountPoints), newMounts);
        events == old(events) + Unmounts(left.0) + Mounts(left.1)
    {
      var removed, added := StrikeOut(mountPoints, newMounts);
      PollHeard(Bag(initial), events, mountPoints, newMounts);
      Send(removed, added);
      mountPoints := newMounts;
    }

    /** The two notification loops. */
    method Send(removed: seq<Mount>, added: seq<Mount>)
      modifies this`events
      ensures events == old(events) + Unmounts(removed) + Mounts(added)
    {
      var k := 0;
      while k < |removed|
        invariant 0 <= k <= |removed| && events == old(events) + Unmounts(removed[..k])
      {
        assert removed[..k + 1][..k] == removed[..k];
        events := events + [Unmounted(removed[k])];
        k := k + 1;
      }
      assert removed[..k] == removed;
      ghost var middle := events;
      k := 0;
      while k < |added|
        invariant 0 <= k <= |added| && events == middle + Mounts(added[..k])
      {
        assert added[..k + 1][..k] == added[..k];
        events := events + [Mounted(added[k])];
        k := k + 1;
      }
      assert added[..k] == added;
    }
  }

  lemma RegroupUnmounts(a: multiset<string>, b: multiset<string>, d: string)
    ensures (a - b) - multiset{d} == a - (b + multiset{d})
  {
  }

  lemma RegroupMounts(a: multiset<string>, b: multiset<string>, d: string)
    ensures (a + b) + multiset{d} == a + (b + multiset{d})
  {
  }

  lemma {:induction false} HeardUnmounts(bag: multiset<string>, events: seq<Event>, mounts: seq<Mount>)
    ensures HeardAll(bag, events + Unmounts(mounts)) == HeardAll(bag, events) - Bag(mounts)
  {
    if mounts == [] {
      assert events + Unmounts(mounts) == events;
    } else {
      var n := |mounts| - 1;
      var before, e := events + Unmounts(mounts[..n]), Unmounted(mounts[n]);
      HeardUnmounts(bag, events, mounts[..n]);
      assert events + Unmounts(mounts) == before + [e];
      HeardMore(bag, before, e);
      BagStep(mounts, n);
      assert mounts[..n + 1] == mounts;
      RegroupUnmounts(HeardAll(bag, events), Bag(mounts[..n]), mounts[n].device);
    }
  }

  lemma {:induction false} HeardMounts(bag: multiset<string>, events: seq<Event>, mounts: seq<Mount>)
    ensures HeardAll(bag, events + Mounts(mounts)) == HeardAll(bag, events) + Bag(mounts)
  {
    if mounts == [] {
      assert events + Mounts(mounts) == events;
    } else {
      var n := |mounts| - 1;
      var before, e := events + Mounts(mounts[..n]), Mounted(mounts[n]);
      HeardMounts(bag, events, mounts[..n]);
      assert events + Mounts(mounts) == before + [e];
      HeardMore(bag, before, e);
      BagStep(mounts, n);
      assert mounts[..n + 1] == mounts;
      RegroupMounts(HeardAll(bag, events), Bag(mounts[..n]), mounts[n].device);
    }
  }

  /** The listener that held the old devices holds the new ones after a poll. */
  lemma PollHeard(bag: multiset<string>, events: seq<Event>, olds: seq<Mount>, news: seq<Mount>)
    requires HeardAll(bag, events) == Bag(olds)
    ensures
      var left := Leftovers(olds, news);
      HeardAll(bag, events + Unmounts(left.0) + Mounts(left.1)) == Bag(news)
  {
    var left := Leftovers(olds, news);
    LeftoversAreDifferences(olds, news);
    HeardUnmounts(bag, events, left.0);
    HeardMounts(bag, events + Unmounts(left.0), left.1);
    Exchanged(Bag(olds), Bag(news));
  }

  lemma Exchanged<T>(a: multiset<T>, b: multiset<T>)
    ensures a - (a - b) + (b - a) == b
  {
  }

  lemma RestOfWithout(s: seq<Mount>, i: nat)
    requires i < |s|
    ensures (s[..i] + s[i + 1..])[..i] == s[..i] && (s[..i] + s[i + 1..])[i..] == s[i + 1..]
  {
  }

  lemma KeepInFront(a: seq<Mount>, s: seq<Mount>, i: nat)
    requires i < |s|
    ensures (a + [s[i]]) + s[i + 1..] == a + s[i..]
  {
  }

  function Unmounts(mounts: seq<Mount>): seq<Event> {
    if mounts == [] then [] else Unmounts(mounts[..|mounts| - 1]) + [Unmounted(mounts[|mounts| - 1])]
  }

  function Mounts(mounts: seq<Mount>): seq<Event> {
    if mounts == [] then [] else Mounts(mounts[..|mounts| - 1]) + [Mounted(mounts[|mounts| - 1])]
  }

  /** An event for each entry, carrying the entry. */
  lemma {:induction false} EventsCarryEntries(mounts: seq<Mount>, i: nat)
    requires i < |mounts|
    ensures |Unmounts(mounts)| == |Mounts(mounts)| == |mounts|
    ensures Unmounts(mounts)[i] == Unmounted(mounts[i]) && Mounts(mounts)[i] == Mounted(mounts[i])
  {
    var n := |mounts| - 1;
    if n > 0 {
      EventsCarryEntries(mounts[..n], if i < n then i else 0);
    }
  }

  lemma BagStep(s: seq<Mount>, k: nat)
    requires k < |s|
    ensures Bag(s[..k + 1]) == Bag(s[..k]) + multiset{s[k].device}
  {
    assert s[..k + 1] == s[..k] + [s[k]];
    BagAppend(s[..k], [s[k]]);
    BagOne(s[k]);
  }
}
