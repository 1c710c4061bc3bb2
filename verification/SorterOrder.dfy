/** The order the sort/filter proxy puts source rows in. */
module SorterOrder {
  import opened StdHelpers

  type Row = int
  type Compare = (Row, Row) -> int

  datatype Sorter = Sorter(enabled: bool, ascending: bool, priority: int, compare: Compare)

  datatype Proxy = Proxy(
    completed: bool,
    sortRoleSet: bool,                     // !m_sortRoleName.isEmpty()
    ascendingSortOrder: bool,
    baseLess: (Row, Row) -> bool,          // QSortFilterProxyModel::lessThan
    sorters: seq<Sorter>
  )

  // ---- std::stable_sort by falling priority ------------------------------------------------------

  function Insert(sorted: seq<Sorter>, s: Sorter): seq<Sorter> {
    if sorted == [] || sorted[|sorted| - 1].priority >= s.priority then sorted + [s]
    else Insert(sorted[..|sorted| - 1], s) + [sorted[|sorted| - 1]]
  }

  function StableSort(sorters: seq<Sorter>): seq<Sorter> {
    if sorters == [] then []
    else Insert(StableSort(sorters[..|sorters| - 1]), sorters[|sorters| - 1])
  }

  ghost predicate Falling(sorters: seq<Sorter>) {
    forall i, j :: 0 <= i < j < |sorters| ==> sorters[i].priority >= sorters[j].priority
  }

  /** The sorters of one priority, in the order they stand. */
  function OfPriority(sorters: seq<Sorter>, p: int): seq<Sorter> {
    if sorters == [] then []
    else
      var last := sorters[|sorters| - 1];
      OfPriority(sorters[..|sorters| - 1], p) + if last.priority == p then [last] else []
  }

  lemma {:induction false} InsertMembers(sorted: seq<Sorter>, s: Sorter, t: Sorter)
    ensures t in Insert(sorted, s) <==> t in sorted || t == s
  {
    if !(sorted == [] || sorted[|sorted| - 1].priority >= s.priority) {
      InsertMembers(sorted[..|sorted| - 1], s, t);
      assert sorted == sorted[..|sorted| - 1] + [sorted[|sorted| - 1]];
    }
  }

  lemma {:induction false} InsertFalling(sorted: seq<Sorter>, s: Sorter)
    requires Falling(sorted)
    ensures Falling(Insert(sorted, s))
  {
    if !(sorted == [] || sorted[|sorted| - 1].priority >= s.priority) {
      var init, last := sorted[..|sorted| - 1], sorted[|sorted| - 1];
      InsertFalling(init, s);
      var r := Insert(init, s);
      forall i | 0 <= i < |r| ensures r[i].priority >= last.priority {
        InsertMembers(init, s, r[i]);
      }
    }
  }

  lemma OfPriorityLast(sorters: seq<Sorter>, s: Sorter, p: int)
    ensures OfPriority(sorters + [s], p) == OfPriority(sorters, p) + if s.priority == p then [s] else []
  {
    assert (sorters + [s])[..|sorters|] == sorters;
  }

  lemma {:induction false} InsertStable(sorted: seq<Sorter>, s: Sorter, p: int)
    ensures OfPriority(Insert(sorted, s), p) == OfPriority(sorted, p) + if s.priority == p then [s] else []
  {
    if sorted == [] || sorted[|sorted| - 1].priority >= s.priority {
      OfPriorityLast(sorted, s, p);
    } else {
      var init, last := sorted[..|sorted| - 1], sorted[|sorted| - 1];
      assert sorted == init + [last];
      InsertStable(init, s, p);
      OfPriorityLast(Insert(init, s), last, p);
      OfPriorityLast(init, last, p);
    }
  }

  /** The result falls in priority, and sorters of equal priority keep their order. */
  lemma {:induction false} StableSortIsStable(sorters: seq<Sorter>, p: int)
    ensures Falling(StableSort(sorters))
    ensures OfPriority(StableSort(sorters), p) == OfPriority(sorters, p)
  {
    if sorters != [] {
      var init, last := sorters[..|sorters| - 1], sorters[|sorters| - 1];
      StableSortIsStable(init, p);
      InsertFalling(StableSort(init), last);
      InsertStable(StableSort(init), last, p);
    }
  }

  lemma {:induction false} StableSortMembers(sorters: seq<Sorter>, t: Sorter)
    ensures t in StableSort(sorters) <==> t in sorters
  {
    if sorters != [] {
      var init, last := sorters[..|sorters| - 1], sorters[|sorters| - 1];
      assert sorters == init + [last];
      StableSortMembers(init, t);
      InsertMembers(StableSort(init), last, t);
    }
  }

  // ---- lessThan ----------------------------------------------------------------------------------

  function CompareRows(s: Sorter, l: Row, r: Row): int {
    if s.ascending then s.compare(l, r) else -s.compare(l, r)
  }

  /** The first decided comparison of the enabled sorters; 0 if none decides. */
  function Decide(sorters: seq<Sorter>, l: Row, r: Row): int {
    if sorters == [] then 0
    else if sorters[0].enabled && CompareRows(sorters[0], l, r) != 0 then CompareRows(sorters[0], l, r)
    else Decide(sorters[1..], l, r)
  }

  /** lessThan. */
  function Less(x: Proxy, l: Row, r: Row): bool {
    if x.completed && x.sortRoleSet && x.baseLess(l, r) then x.ascendingSortOrder
    else if x.completed && x.sortRoleSet && x.baseLess(r, l) then !x.ascendingSortOrder
    else if x.completed && Decide(StableSort(x.sorters), l, r) != 0 then Decide(StableSort(x.sorters), l, r) < 0
    else l < r
  }

  method LessThan(x: Proxy, l: Row, r: Row) returns (b: bool)
    ensures b == Less(x, l, r)
  {
    if x.completed {
      if x.sortRoleSet {
        if x.baseLess(l, r) {
          return x.ascendingSortOrder;
        }
        if x.baseLess(r, l) {
          return !x.ascendingSortOrder;
        }
      }
      var sorted := SortByPriority(x.sorters);
      var i := 0;
      while i < |sorted|
        invariant 0 <= i <= |sorted|
        invariant Decide(sorted[i..], l, r) == Decide(sorted, l, r)
      {
        assert sorted[i..][1..] == sorted[i + 1..];
        if sorted[i].enabled {
          var comparison := CompareRows(sorted[i], l, r);
          if comparison != 0 {
            return comparison < 0;
          }
        }
        i := i + 1;
      }
    }
    return l < r;
  }

  method SortByPriority(sorters: seq<Sorter>) returns (sorted: seq<Sorter>)
    ensures sorted == StableSort(sorters)
  {
    sorted := [];
    var i := 0;
    while i < |sorters|
      invariant 0 <= i <= |sorters|
      invariant sorted == StableSort(sorters[..i])
    {
      assert sorters[..i + 1][..i] == sorters[..i];
      sorted := Insert(sorted, sorters[i]);
      i := i + 1;
    }
    assert sorters[..i] == sorters;
  }

  // ---- it is a strict total order ------------------------------------------------------------------

  /** A consistent three-way comparison: it ranks the rows, ties allowed. */
  ghost predicate Consistent(c: Compare) {
    && (forall a, b :: c(a, b) < 0 <==> c(b, a) > 0)
    && (forall a, b, d :: c(a, b) <= 0 && c(b, d) <= 0 ==> c(a, d) <= 0)
  }

  /** Nothing is asked of a disabled sorter. */
  ghost predicate ConsistentEnabled(sorters: seq<Sorter>) {
    forall s :: s in sorters && s.enabled ==> Consistent(s.compare)
  }

  lemma RowsConsistent(s: Sorter, a: Row, b: Row, d: Row)
    requires Consistent(s.compare)
    ensures CompareRows(s, a, b) < 0 <==> CompareRows(s, b, a) > 0
    ensures CompareRows(s, a, b) <= 0 && CompareRows(s, b, d) <= 0 ==> CompareRows(s, a, d) <= 0
  {
    assert s.compare(d, b) <= 0 && s.compare(b, a) <= 0 ==> s.compare(d, a) <= 0;
  }

  /** Deciding by the first sorter that decides ranks the rows again. */
  lemma {:induction false} DecideConsistent(sorters: seq<Sorter>, a: Row, b: Row, d: Row)
    requires ConsistentEnabled(sorters)
    ensures Decide(sorters, a, b) < 0 <==> Decide(sorters, b, a) > 0
    ensures Decide(sorters, a, b) <= 0 && Decide(sorters, b, d) <= 0 ==> Decide(sorters, a, d) <= 0
    ensures Decide(sorters, a, b) < 0 && Decide(sorters, b, d) <= 0 ==> Decide(sorters, a, d) < 0
    ensures Decide(sorters, a, b) <= 0 && Decide(sorters, b, d) < 0 ==> Decide(sorters, a, d) < 0
  {
    if sorters != [] {
      var s, rest := sorters[0], sorters[1..];
      assert s in sorters;
      DecideConsistent(rest, a, b, d);
      if s.enabled {
        Triangle(s, a, b, d);
      }
    }
  }

  /** The ways three rows can compare under one sorter. */
  lemma Triangle(s: Sorter, a: Row, b: Row, d: Row)
    requires Consistent(s.compare)
    ensures CompareRows(s, a, b) < 0 <==> CompareRows(s, b, a) > 0
    ensures CompareRows(s, a, b) <= 0 && CompareRows(s, b, d) <= 0 ==> CompareRows(s, a, d) <= 0
    ensures CompareRows(s, a, b) < 0 && CompareRows(s, b, d) <= 0 ==> CompareRows(s, a, d) < 0
    ensures CompareRows(s, a, b) <= 0 && CompareRows(s, b, d) < 0 ==> CompareRows(s, a, d) < 0
    ensures CompareRows(s, a, b) == 0 && CompareRows(s, b, d) == 0 ==> CompareRows(s, a, d) == 0
    ensures CompareRows(s, b, a) < 0 <==> CompareRows(s, a, b) > 0
  {
    RowsConsistent(s, a, b, d);
    RowsConsistent(s, b, a, d);
    RowsConsistent(s, b, d, a);
    RowsConsistent(s, d, a, b);
    RowsConsistent(s, d, b, a);
    RowsConsistent(s, a, d, b);
  }

  ghost predicate StrictTotalOn(x: Proxy, a: Row, b: Row, d: Row) {
    && !Less(x, a, a)
    && (Less(x, a, b) ==> !Less(x, b, a))
    && (a != b ==> Less(x, a, b) || Less(x, b, a))
    && (Less(x, a, b) && Less(x, b, d) ==> Less(x, a, d))
  }

  /** Whatever the enabled sorters, their priorities and directions, rows are put in a strict total order. */
  lemma LessIsStrictTotal(x: Proxy, a: Row, b: Row, d: Row)
    requires x.completed && x.sortRoleSet ==> StrictWeakOrder(x.baseLess)
    requires ConsistentEnabled(x.sorters)
    ensures StrictTotalOn(x, a, b, d)
  {
    var sorted := StableSort(x.sorters);
    forall s | s in sorted && s.enabled ensures Consistent(s.compare) {
      StableSortMembers(x.sorters, s);
    }
    DecideConsistent(sorted, a, b, d);
    DecideConsistent(sorted, b, a, d);
    DecideConsistent(sorted, a, a, a);
  }

  // ---- the two sorters of the library ----------------------------------------------------------------

  /** FilterSorter::compare: accepted rows first. */
  function FilterCompare(accepted: Row -> bool): Compare {
    (l, r) => if accepted(l) == accepted(r) then 0 else if accepted(l) then -1 else 1
  }

  /** RoleSorter::compare on the values of the role; with no such role both values are invalid
      and equal. */
  function RoleCompare<V>(known: bool, value: Row -> V, less: (V, V) -> bool): Compare {
    (l, r) => if !known then 0 else if less(value(l), value(r)) then -1 else if less(value(r), value(l)) then 1 else 0
  }

  lemma FilterCompareConsistent(accepted: Row -> bool)
    ensures Consistent(FilterCompare(accepted))
    ensures forall l, r :: FilterCompare(accepted)(l, r) < 0 <==> accepted(l) && !accepted(r)
    ensures forall l, r :: FilterCompare(accepted)(l, r) > 0 <==> accepted(r) && !accepted(l)
  {
  }

  lemma RoleCompareConsistent<V(!new)>(known: bool, value: Row -> V, less: (V, V) -> bool)
    requires StrictWeakOrder(less)
    ensures Consistent(RoleCompare(known, value, less))
    ensures forall l, r :: RoleCompare(known, value, less)(l, r) < 0 <==> known && less(value(l), value(r))
    ensures forall l, r :: RoleCompare(known, value, less)(l, r) > 0 <==> known && less(value(r), value(l))
  {
    var c := RoleCompare(known, value, less);
    forall a, b ensures c(a, b) < 0 <==> c(b, a) > 0 {
      assert less(value(a), value(b)) && less(value(b), value(a)) ==> less(value(a), value(a));
    }
    forall a, b, d | c(a, b) <= 0 && c(b, d) <= 0 ensures c(a, d) <= 0 {
      assert less(value(d), value(a)) ==> less(value(d), value(b)) || less(value(b), value(a));
    }
  }

  // ---- which sorter decides, and which way ------------------------------------------------------------

  /** The sorter is enabled and tells the rows apart. */
  predicate Decides(s: Sorter, l: Row, r: Row) {
    s.enabled && s.compare(l, r) != 0
  }

  /** Its verdict: ascending puts the row with the negative comparison first. */
  predicate PutsFirst(s: Sorter, l: Row, r: Row) {
    if s.ascending then s.compare(l, r) < 0 else s.compare(l, r) > 0
  }

  /** The first of these to decide has this verdict and priority. */
  ghost predicate Leads(sorted: seq<Sorter>, l: Row, r: Row, first: bool, priority: int) {
    exists k :: 0 <= k < |sorted| && LeadsAt(sorted, l, r, k) && PutsFirst(sorted[k], l, r) == first
                && sorted[k].priority == priority
  }

  ghost predicate LeadsAt(sorted: seq<Sorter>, l: Row, r: Row, k: nat)
    requires k < |sorted|
  {
    Decides(sorted[k], l, r) && forall m :: 0 <= m < k ==> !Decides(sorted[m], l, r)
  }

  lemma {:induction false} LeadDecides(sorted: seq<Sorter>, l: Row, r: Row, first: bool, priority: int)
    requires Leads(sorted, l, r, first, priority)
    ensures Decide(sorted, l, r) != 0 && (Decide(sorted, l, r) < 0 <==> first)
  {
    var k :| 0 <= k < |sorted| && LeadsAt(sorted, l, r, k) && PutsFirst(sorted[k], l, r) == first
             && sorted[k].priority == priority;
    if k > 0 {
      var rest := sorted[1..];
      assert !Decides(sorted[0], l, r);
      assert rest[k - 1] == sorted[k] && LeadsAt(rest, l, r, k - 1) by {
        assert forall m :: 0 <= m < k - 1 ==> rest[m] == sorted[m + 1];
      }
      LeadDecides(rest, l, r, first, priority);
    }
  }

  lemma LeadKept(a: seq<Sorter>, z: Sorter, l: Row, r: Row, first: bool, priority: int)
    requires Leads(a, l, r, first, priority)
    ensures Leads(a + [z], l, r, first, priority)
  {
    var k :| 0 <= k < |a| && LeadsAt(a, l, r, k) && PutsFirst(a[k], l, r) == first && a[k].priority == priority;
    assert LeadsAt(a + [z], l, r, k);
  }

  lemma LeadLast(a: seq<Sorter>, z: Sorter, l: Row, r: Row)
    requires Decides(z, l, r) && forall x :: x in a ==> !Decides(x, l, r)
    ensures Leads(a + [z], l, r, PutsFirst(z, l, r), z.priority)
  {
    assert forall m :: 0 <= m < |a| ==> a[m] in a;
    assert LeadsAt(a + [z], l, r, |a|);
  }

  /** One more sorter that does not decide, or not before the leading one, changes no verdict. */
  lemma {:induction false} InsertKeepsLead(sorted: seq<Sorter>, s: Sorter, l: Row, r: Row, first: bool, priority: int)
    requires Leads(sorted, l, r, first, priority) && (Decides(s, l, r) ==> s.priority <= priority)
    ensures Leads(Insert(sorted, s), l, r, first, priority)
  {
    var n := |sorted| - 1;
    if sorted[n].priority >= s.priority {
      LeadKept(sorted, s, l, r, first, priority);
    } else {
      var k :| 0 <= k < |sorted| && LeadsAt(sorted, l, r, k) && PutsFirst(sorted[k], l, r) == first
               && sorted[k].priority == priority;
      var init, z := sorted[..n], sorted[n];
      if k < n {
        assert LeadsAt(init, l, r, k) && init[k] == sorted[k];
        InsertKeepsLead(init, s, l, r, first, priority);
        LeadKept(Insert(init, s), z, l, r, first, priority);
      } else {
        forall x | x in Insert(init, s) ensures !Decides(x, l, r) {
          InsertMembers(init, s, x);
        }
        LeadLast(Insert(init, s), z, l, r);
      }
    }
  }

  /** A sorter that decides and outranks all others that do takes the lead. */
  lemma {:induction false} InsertLeads(sorted: seq<Sorter>, s: Sorter, l: Row, r: Row)
    requires Falling(sorted) && Decides(s, l, r)
    requires forall x :: x in sorted && Decides(x, l, r) ==> x.priority < s.priority
    ensures Leads(Insert(sorted, s), l, r, PutsFirst(s, l, r), s.priority)
  {
    var n := |sorted| - 1;
    if sorted == [] || sorted[n].priority >= s.priority {
      forall x | x in sorted ensures !Decides(x, l, r) {
        var i :| 0 <= i < |sorted| && sorted[i] == x;
        assert i < n ==> sorted[i].priority >= sorted[n].priority;
      }
      LeadLast(sorted, s, l, r);
    } else {
      InsertLeads(sorted[..n], s, l, r);
      LeadKept(Insert(sorted[..n], s), sorted[n], l, r, PutsFirst(s, l, r), s.priority);
    }
  }

  /** Sorter i outranks every other one that decides: by priority, or by place if that is equal. */
  ghost predicate Outranks(sorters: seq<Sorter>, i: nat, l: Row, r: Row)
    requires i < |sorters|
  {
    && Decides(sorters[i], l, r)
    && forall j :: 0 <= j < |sorters| && j != i && Decides(sorters[j], l, r) ==>
         sorters[j].priority < sorters[i].priority || (sorters[j].priority == sorters[i].priority && i < j)
  }

  lemma OutranksInit(sorters: seq<Sorter>, i: nat, l: Row, r: Row)
    requires i < |sorters| - 1 && Outranks(sorters, i, l, r)
    ensures Outranks(sorters[..|sorters| - 1], i, l, r)
    ensures Decides(sorters[|sorters| - 1], l, r) ==> sorters[|sorters| - 1].priority <= sorters[i].priority
  {
  }

  lemma OutranksLast(sorters: seq<Sorter>, l: Row, r: Row)
    requires sorters != [] && Outranks(sorters, |sorters| - 1, l, r)
    ensures var n := |sorters| - 1;
      forall x :: x in sorters[..n] && Decides(x, l, r) ==> x.priority < sorters[n].priority
  {
    var n := |sorters| - 1;
    forall x | x in sorters[..n] && Decides(x, l, r) ensures x.priority < sorters[n].priority {
      var j :| 0 <= j < n && sorters[j] == x;
    }
  }

  lemma {:induction false} OutrankingLeads(sorters: seq<Sorter>, i: nat, l: Row, r: Row)
    requires i < |sorters| && Outranks(sorters, i, l, r)
    ensures Leads(StableSort(sorters), l, r, PutsFirst(sorters[i], l, r), sorters[i].priority)
  {
    var n := |sorters| - 1;
    var init, last := sorters[..n], sorters[n];
    if i < n {
      OutranksInit(sorters, i, l, r);
      OutrankingLeads(init, i, l, r);
      InsertKeepsLead(StableSort(init), last, l, r, PutsFirst(sorters[i], l, r), sorters[i].priority);
    } else {
      OutranksLast(sorters, l, r);
      LastLeads(init, last, l, r);
    }
  }

  lemma LastLeads(init: seq<Sorter>, last: Sorter, l: Row, r: Row)
    requires Decides(last, l, r) && forall x :: x in init && Decides(x, l, r) ==> x.priority < last.priority
    ensures Leads(Insert(StableSort(init), last), l, r, PutsFirst(last, l, r), last.priority)
  {
    StableSortIsStable(init, 0);
    forall x | x in StableSort(init) && Decides(x, l, r) ensures x.priority < last.priority {
      StableSortMembers(init, x);
    }
    InsertLeads(StableSort(init), last, l, r);
  }

  /** The order of two rows, for any sorters. The base comparison decides first if there is a sort
      role; then the enabled sorter that tells the rows apart and outranks the others that do;
      if none does, the rows stay in source order, as they do before completion. */
  lemma OrderOf(x: Proxy, l: Row, r: Row)
    ensures !x.completed ==> (Less(x, l, r) <==> l < r)
    ensures x.completed && x.sortRoleSet && x.baseLess(l, r) ==> (Less(x, l, r) <==> x.ascendingSortOrder)
    ensures x.completed && x.sortRoleSet && !x.baseLess(l, r) && x.baseLess(r, l) ==>
      (Less(x, l, r) <==> !x.ascendingSortOrder)
    ensures x.completed && (x.sortRoleSet ==> !x.baseLess(l, r) && !x.baseLess(r, l)) ==>
      && (forall i :: 0 <= i < |x.sorters| && Outranks(x.sorters, i, l, r) ==>
            (Less(x, l, r) <==> PutsFirst(x.sorters[i], l, r)))
      && ((forall s :: s in x.sorters ==> !Decides(s, l, r)) ==> (Less(x, l, r) <==> l < r))
  {
    forall i | 0 <= i < |x.sorters| && Outranks(x.sorters, i, l, r)
      ensures Decide(StableSort(x.sorters), l, r) != 0
      ensures Decide(StableSort(x.sorters), l, r) < 0 <==> PutsFirst(x.sorters[i], l, r)
    {
      OutrankingLeads(x.sorters, i, l, r);
      LeadDecides(StableSort(x.sorters), l, r, PutsFirst(x.sorters[i], l, r), x.sorters[i].priority);
    }
    if forall s :: s in x.sorters ==> !Decides(s, l, r) {
      forall s | s in StableSort(x.sorters) ensures !Decides(s, l, r) {
        StableSortMembers(x.sorters, s);
      }
      NoneDecides(StableSort(x.sorters), l, r);
    }
  }

  lemma {:induction false} NoneDecides(sorters: seq<Sorter>, l: Row, r: Row)
    requires forall s :: s in sorters ==> !Decides(s, l, r)
    ensures Decide(sorters, l, r) == 0
  {
    if sorters != [] {
      assert sorters[0] in sorters;
      NoneDecides(sorters[1..], l, r);
    }
  }

  /** Two rows the role cannot tell apart stay in source order; an accepted row comes before a
      rejected one, if its sorter is the one that counts. */
  lemma SoleSorterDecides(x: Proxy, s: Sorter, l: Row, r: Row)
    requires x.completed && !x.sortRoleSet && x.sorters == [s] && s.enabled
    ensures Less(x, l, r) <==> PutsFirst(s, l, r) || (s.compare(l, r) == 0 && l < r)
  {
    assert StableSort([s]) == [s] by {
      assert [s][..0] == [];
    }
    assert Decide([s], l, r) == CompareRows(s, l, r) by {
      assert [s][1..] == [];
    }
  }

  /** The order reads only the enabled sorters: disabling one is leaving it out. */
  lemma {:induction false} DisabledIsAbsent(sorters: seq<Sorter>, l: Row, r: Row)
    ensures Decide(sorters, l, r) == Decide(EnabledOnly(sorters), l, r)
  {
    if sorters != [] {
      DisabledIsAbsent(sorters[1..], l, r);
      if sorters[0].enabled {
        assert EnabledOnly(sorters)[1..] == EnabledOnly(sorters[1..]);
      }
    }
  }

  function EnabledOnly(sorters: seq<Sorter>): seq<Sorter> {
    if sorters == [] then []
    else if sorters[0].enabled then [sorters[0]] + EnabledOnly(sorters[1..])
    else EnabledOnly(sorters[1..])
  }
}
