/**
 Delayed invalidation in the sort/filter proxy: three "queued" flags, an event queue, and a
 component that is not completed at first. Settings carry version numbers; the rows shown
 remember the versions they were last computed under.
 */
module ProxyProtocol {

  /** A queued call, posted with Qt::QueuedConnection. */
  datatype Call = InvalidateFilter | Invalidate | InvalidateProxyRoles

  datatype State = State(
    delayed: bool,
    completed: bool,
    filterQueued: bool,
    queued: bool,
    rolesQueued: bool,
    events: seq<Call>,
    wantFilter: nat, hasFilter: nat,       // filter settings: current, and applied to the rows
    wantSort: nat, hasSort: nat,           // what lessThan reads: current, and when last sorted
    wantRoles: nat, saidRoles: nat         // proxy roles: current, and announced by dataChanged
  )

  function Initial(delayed: bool): State {
    State(delayed, false, false, false, false, [], 0, 0, 0, 0, 0, 0)
  }

  // ---- the slots -----------------------------------------------------------------------------------

  function InvalidatedFilter(s: State): State {
    var t := s.(filterQueued := false);
    if t.completed && !t.queued then t.(hasFilter := t.wantFilter) else t
  }

  /** The base class computes both the filtering and the order anew. */
  function Invalidated(s: State): State {
    var t := s.(queued := false);
    if t.completed then t.(hasFilter := t.wantFilter, hasSort := t.wantSort) else t
  }

  function InvalidatedRoles(s: State): State {
    var t := s.(rolesQueued := false);
    if t.completed then t.(saidRoles := t.wantRoles) else t
  }

  function QueuedFilter(s: State): State {
    if !s.delayed then InvalidatedFilter(s)
    else if !s.filterQueued && !s.queued then s.(filterQueued := true, events := s.events + [InvalidateFilter])
    else s
  }

  function Queued(s: State): State {
    if !s.delayed then Invalidated(s)
    else if !s.queued then s.(queued := true, events := s.events + [Invalidate])
    else s
  }

  function QueuedRoles(s: State): State {
    var t := Queued(s);
    if !t.delayed then InvalidatedRoles(t)
    else if !t.rolesQueued then t.(rolesQueued := true, events := t.events + [InvalidateProxyRoles])
    else t
  }

  datatype Op =
    | ChangeFilter                     // setFilterValue, or a filter or the list of filters changed
    | ChangeSort                       // setAscendingSortOrder, or a sorter or their list changed
    | ChangeSortRole(known: bool)      // setSortRoleName; an unknown name is empty or follows the empty one
    | ChangeRoles                      // a proxy role changed
    | SetDelayed(on: bool)
    | Complete
    | Deliver                          // the event loop runs the oldest queued call

  function Run1(s: State, c: Call): State {
    match c
    case InvalidateFilter => InvalidatedFilter(s)
    case Invalidate => Invalidated(s)
    case InvalidateProxyRoles => InvalidatedRoles(s)
  }

  function Step(s: State, op: Op): State {
    match op
    case ChangeFilter => QueuedFilter(s.(wantFilter := s.wantFilter + 1))
    case ChangeSort => Queued(s.(wantSort := s.wantSort + 1))
    case ChangeSortRole(known) =>
      // lessThan reads the new name at once; only a known one is followed by an invalidation
      var t := s.(wantSort := s.wantSort + 1);
      if known then Queued(t) else t
    case ChangeRoles => QueuedRoles(s.(wantRoles := s.wantRoles + 1))
    case SetDelayed(on) => s.(delayed := on)
    case Complete => Invalidated(s.(completed := true))
    case Deliver => if s.events == [] then s else Run1(s.(events := s.events[1..]), s.events[0])
  }

  function Run(s: State, ops: seq<Op>): State {
    if ops == [] then s else Step(Run(s, ops[..|ops| - 1]), ops[|ops| - 1])
  }

  lemma RunMore(s: State, ops: seq<Op>, op: Op)
    ensures Run(s, ops + [op]) == Step(Run(s, ops), op)
  {
    assert (ops + [op])[..|ops|] == ops;
  }

  // ---- filters: nothing is lost ----------------------------------------------------------------------

  /** A raised flag stands for a call that is still to be delivered, and a completed proxy has a
      flag raised for a filter change it has not applied. Suppressing the filter call while a full
      invalidation is queued is what makes the last line need both flags. */
  ghost predicate Covered(s: State) {
    && (s.filterQueued ==> InvalidateFilter in s.events)
    && (s.queued ==> Invalidate in s.events)
    && (s.rolesQueued ==> InvalidateProxyRoles in s.events)
    && (s.completed && s.hasFilter != s.wantFilter ==> s.filterQueued || s.queued)
  }

  lemma TailKeeps(events: seq<Call>, c: Call)
    requires c in events && c != events[0]
    ensures c in events[1..]
  {
    assert events == [events[0]] + events[1..];
  }

  lemma DeliverKeepsCovered(s: State)
    requires Covered(s) && s.events != []
    ensures Covered(Step(s, Deliver))
  {
    var t := s.(events := s.events[1..]);
    forall c | c in s.events && c != s.events[0] ensures c in t.events { TailKeeps(s.events, c); }
    match s.events[0]
    case InvalidateFilter => assert Step(s, Deliver) == InvalidatedFilter(t);
    case Invalidate => assert Step(s, Deliver) == Invalidated(t);
    case InvalidateProxyRoles => assert Step(s, Deliver) == InvalidatedRoles(t);
  }

  lemma QueuedFilterCovers(s: State)
    requires Covered(s)
    ensures Covered(QueuedFilter(s.(wantFilter := s.wantFilter + 1)))
  {
  }

  lemma QueuedCovers(s: State)
    requires Covered(s)
    ensures Covered(Queued(s))
  {
  }

  lemma QueuedRolesCovers(s: State)
    requires Covered(s)
    ensures Covered(QueuedRoles(s))
  {
    QueuedCovers(s);
    var t := Queued(s);
    assert Covered(t);
  }

  /** Every step keeps it. */
  lemma StepKeepsCovered(s: State, op: Op)
    requires Covered(s)
    ensures Covered(Step(s, op))
  {
    match op
    case ChangeFilter => QueuedFilterCovers(s);
    case ChangeSort => QueuedCovers(s.(wantSort := s.wantSort + 1));
    case ChangeSortRole(known) => QueuedCovers(s.(wantSort := s.wantSort + 1));
    case ChangeRoles => QueuedRolesCovers(s.(wantRoles := s.wantRoles + 1));
    case SetDelayed(on) =>
    case Complete =>
    case Deliver => if s.events != [] { DeliverKeepsCovered(s); }
  }

  lemma {:induction false} RunKeepsCovered(s: State, ops: seq<Op>)
    requires Covered(s)
    ensures Covered(Run(s, ops))
  {
    if ops != [] {
      RunKeepsCovered(s, ops[..|ops| - 1]);
      StepKeepsCovered(Run(s, ops[..|ops| - 1]), ops[|ops| - 1]);
    }
  }

  // ---- sorting: what an unknown role name does -------------------------------------------------------

  /** After this call a full invalidation takes place or is queued. */
  predicate Refreshes(op: Op) {
    op.ChangeSort? || op.ChangeRoles? || op.Complete? || (op.ChangeSortRole? && op.known)
  }

  /** The role name was changed to an unknown one while no full invalidation was queued, and
      nothing that invalidates was called since. */
  ghost predicate Stranded(delayed: bool, ops: seq<Op>) {
    exists i :: 0 <= i < |ops| && StrandedAt(delayed, ops, i)
  }

  ghost predicate StrandedAt(delayed: bool, ops: seq<Op>, i: nat)
    requires i < |ops|
  {
    && ops[i] == ChangeSortRole(false)
    && Invalidate !in Run(Initial(delayed), ops[..i]).events
    && forall j :: i < j < |ops| ==> !Refreshes(ops[j])
  }

  lemma StrandedMore(delayed: bool, ops: seq<Op>, op: Op)
    ensures Stranded(delayed, ops + [op]) <==>
      || (op == ChangeSortRole(false) && Invalidate !in Run(Initial(delayed), ops).events)
      || (!Refreshes(op) && Stranded(delayed, ops))
  {
    var more := ops + [op];
    assert more[..|ops|] == ops;
    assert forall i :: 0 <= i < |ops| ==> more[..i] == ops[..i];
    if i :| 0 <= i < |more| && StrandedAt(delayed, more, i) {
      if i < |ops| {
        assert !Refreshes(more[|ops|]);
        assert forall j :: i < j < |ops| ==> more[j] == ops[j];
        assert StrandedAt(delayed, ops, i);
      }
    }
    if !Refreshes(op) && Stranded(delayed, ops) {
      var i :| 0 <= i < |ops| && StrandedAt(delayed, ops, i);
      assert StrandedAt(delayed, more, i);
    }
    if op == ChangeSortRole(false) && Invalidate !in Run(Initial(delayed), ops).events {
      assert StrandedAt(delayed, more, |ops|);
    }
  }

  /** The rows of a completed proxy are in the current order, or a full invalidation is queued;
      unless the proxy is stranded, and then neither is true. */
  ghost predicate SortCovered(s: State, stranded: bool) {
    && s.hasSort <= s.wantSort
    && (stranded ==> Invalidate !in s.events && s.hasSort < s.wantSort)
    && (s.completed && !stranded ==> s.hasSort == s.wantSort || Invalidate in s.events)
  }

  lemma HeadOrTail(events: seq<Call>, c: Call)
    requires events != []
    ensures c in events <==> c == events[0] || c in events[1..]
  {
    assert events == [events[0]] + events[1..];
  }

  /** What one delivery does to the order and to the roles. */
  lemma Delivered(s: State)
    requires s.events != []
    ensures var t, c := Step(s, Deliver), s.events[0];
      && t.completed == s.completed && t.events == s.events[1..]
      && t.wantSort == s.wantSort && t.wantRoles == s.wantRoles
      && t.hasSort == (if c.Invalidate? && s.completed then s.wantSort else s.hasSort)
      && t.saidRoles == (if c.InvalidateProxyRoles? && s.completed then s.wantRoles else s.saidRoles)
      && t.hasFilter == (if s.completed && (c.Invalidate? || (c.InvalidateFilter? && !s.queued)) then s.wantFilter
                         else s.hasFilter)
  {
  }

  lemma DeliverKeepsSort(s: State, stranded: bool)
    requires SortCovered(s, stranded)
    ensures SortCovered(Step(s, Deliver), stranded)
  {
    if s.events != [] {
      HeadOrTail(s.events, Invalidate);
      Delivered(s);
    }
  }

  lemma ChangeKeepsSort(s: State, known: bool, stranded: bool)
    requires Covered(s) && SortCovered(s, stranded)
    ensures SortCovered(Step(s, ChangeSortRole(known)), !known && Invalidate !in s.events)
    ensures SortCovered(Step(s, ChangeSort), false)
  {
    QueuedSorts(s.(wantSort := s.wantSort + 1));
  }

  /** After a full invalidation was asked for, it has taken place or is queued. */
  lemma QueuedSorts(s: State)
    requires Covered(s) && s.hasSort <= s.wantSort
    ensures SortCovered(Queued(s), false) && Queued(s).wantSort == s.wantSort
  {
  }

  lemma RolesKeepSort(s: State, stranded: bool)
    requires Covered(s) && SortCovered(s, stranded)
    ensures SortCovered(Step(s, ChangeRoles), false)
  {
    QueuedSorts(s.(wantRoles := s.wantRoles + 1));
  }

  lemma StepKeepsSort(s: State, op: Op, stranded: bool)
    requires Covered(s) && SortCovered(s, stranded)
    ensures SortCovered(Step(s, op),
      (op == ChangeSortRole(false) && Invalidate !in s.events) || (!Refreshes(op) && stranded))
  {
    match op
    case ChangeFilter =>
    case ChangeSort => ChangeKeepsSort(s, true, stranded);
    case ChangeSortRole(known) => ChangeKeepsSort(s, known, stranded);
    case ChangeRoles => RolesKeepSort(s, stranded);
    case SetDelayed(on) =>
    case Complete =>
    case Deliver => DeliverKeepsSort(s, stranded);
  }

  // ---- proxy roles: what is announced ----------------------------------------------------------------

  /** Where the proxy is completed first, or the length. */
  function FirstComplete(ops: seq<Op>): (i: nat)
    ensures i <= |ops|
  {
    if ops == [] || ops[0].Complete? then 0 else 1 + FirstComplete(ops[1..])
  }

  lemma {:induction false} FirstCompleteMore(ops: seq<Op>, op: Op)
    ensures FirstComplete(ops + [op]) ==
      if FirstComplete(ops) < |ops| || op.Complete? then FirstComplete(ops) else |ops| + 1
  {
    if ops != [] && !ops[0].Complete? {
      assert (ops + [op])[1..] == ops[1..] + [op];
      FirstCompleteMore(ops[1..], op);
    }
  }

  /** No proxy role changed; or one did once the proxy was completed; or the announcement of an
      earlier change was still queued when it was. */
  ghost predicate Announced(delayed: bool, ops: seq<Op>) {
    var c := FirstComplete(ops);
    || ChangeRoles !in ops
    || ChangeRoles in ops[c..]
    || InvalidateProxyRoles in Run(Initial(delayed), ops[..c]).events
  }

  /** Before completion nothing is announced. After it everything is, or is queued to be; unless
      the change came too early, and then neither is true. */
  ghost predicate RolesCovered(s: State, delayed: bool, ops: seq<Op>) {
    && (s.completed <==> FirstComplete(ops) < |ops|)
    && (!s.completed ==> s.saidRoles == 0)
    && (ChangeRoles !in ops ==> s.wantRoles == s.saidRoles == 0)
    && (ChangeRoles in ops ==> s.wantRoles > 0)
    && s.saidRoles <= s.wantRoles
    && (s.completed && Announced(delayed, ops) ==> s.saidRoles == s.wantRoles || InvalidateProxyRoles in s.events)
    && (s.completed && !Announced(delayed, ops) ==> s.saidRoles == 0 && InvalidateProxyRoles !in s.events)
  }

  lemma AnnouncedMore(delayed: bool, ops: seq<Op>, op: Op)
    ensures FirstComplete(ops) < |ops| ==>
      (Announced(delayed, ops + [op]) <==> Announced(delayed, ops) || op.ChangeRoles?)
    ensures FirstComplete(ops) == |ops| && op.Complete? ==>
      (Announced(delayed, ops + [op]) <==>
        ChangeRoles !in ops || InvalidateProxyRoles in Run(Initial(delayed), ops).events)
    ensures ChangeRoles in ops + [op] <==> ChangeRoles in ops || op.ChangeRoles?
  {
    var c := FirstComplete(ops);
    FirstCompleteMore(ops, op);
    assert forall x :: x in ops + [op] <==> x in ops || x == op;
    if c < |ops| {
      assert (ops + [op])[c..] == ops[c..] + [op];
      assert (ops + [op])[..c] == ops[..c];
    } else {
      assert (ops + [op])[c..] == [op];
      assert (ops + [op])[..c] == ops;
    }
  }

  lemma DeliverKeepsRoles(s: State, delayed: bool, ops: seq<Op>)
    requires RolesCovered(s, delayed, ops)
    ensures RolesCovered(Step(s, Deliver), delayed, ops + [Deliver])
  {
    AnnouncedMore(delayed, ops, Deliver);
    FirstCompleteMore(ops, Deliver);
    if s.events != [] {
      HeadOrTail(s.events, InvalidateProxyRoles);
      Delivered(s);
    }
  }

  lemma CompleteKeepsRoles(s: State, delayed: bool, ops: seq<Op>)
    requires RolesCovered(s, delayed, ops) && s == Run(Initial(delayed), ops)
    ensures RolesCovered(Step(s, Complete), delayed, ops + [Complete])
  {
    AnnouncedMore(delayed, ops, Complete);
    FirstCompleteMore(ops, Complete);
  }

  lemma StepKeepsRoles(s: State, delayed: bool, ops: seq<Op>, op: Op)
    requires Covered(s) && RolesCovered(s, delayed, ops) && s == Run(Initial(delayed), ops)
    ensures RolesCovered(Step(s, op), delayed, ops + [op])
  {
    if op.Deliver? {
      DeliverKeepsRoles(s, delayed, ops);
    } else if op.Complete? {
      CompleteKeepsRoles(s, delayed, ops);
    } else if op.ChangeRoles? {
      ChangeKeepsRoles(s, delayed, ops);
    } else {
      AnnouncedMore(delayed, ops, op);
      FirstCompleteMore(ops, op);
      OthersKeepRoles(s, op);
    }
  }

  lemma ChangeKeepsRoles(s: State, delayed: bool, ops: seq<Op>)
    requires Covered(s) && RolesCovered(s, delayed, ops)
    ensures RolesCovered(Step(s, ChangeRoles), delayed, ops + [ChangeRoles])
  {
    AnnouncedMore(delayed, ops, ChangeRoles);
    FirstCompleteMore(ops, ChangeRoles);
  }

  lemma OthersKeepRoles(s: State, op: Op)
    requires !op.Deliver? && !op.Complete? && !op.ChangeRoles?
    ensures var t := Step(s, op);
      && t.completed == s.completed && t.saidRoles == s.saidRoles && t.wantRoles == s.wantRoles
      && (InvalidateProxyRoles in t.events <==> InvalidateProxyRoles in s.events)
  {
    match op
    case ChangeFilter => FilterKeepsRoles(s.(wantFilter := s.wantFilter + 1));
    case ChangeSort => QueuedKeepsRoles(s.(wantSort := s.wantSort + 1));
    case ChangeSortRole(known) => QueuedKeepsRoles(s.(wantSort := s.wantSort + 1));
    case SetDelayed(on) =>
  }

  lemma FilterKeepsRoles(s: State)
    ensures var t := QueuedFilter(s);
      && t.completed == s.completed && t.saidRoles == s.saidRoles && t.wantRoles == s.wantRoles
      && (InvalidateProxyRoles in t.events <==> InvalidateProxyRoles in s.events)
  {
  }

  lemma QueuedKeepsRoles(s: State)
    ensures var t := Queued(s);
      && t.completed == s.completed && t.saidRoles == s.saidRoles && t.wantRoles == s.wantRoles
      && (InvalidateProxyRoles in t.events <==> InvalidateProxyRoles in s.events)
  {
  }

  // ---- whole runs ------------------------------------------------------------------------------------

  lemma {:induction false} RunCovers(delayed: bool, ops: seq<Op>)
    ensures var s := Run(Initial(delayed), ops);
      Covered(s) && SortCovered(s, Stranded(delayed, ops)) && RolesCovered(s, delayed, ops)
  {
    if ops != [] {
      var init, op := ops[..|ops| - 1], ops[|ops| - 1];
      assert ops == init + [op];
      var s := Run(Initial(delayed), init);
      RunCovers(delayed, init);
      StepKeepsCovered(s, op);
      StepKeepsSort(s, op, Stranded(delayed, init));
      StrandedMore(delayed, init, op);
      StepKeepsRoles(s, delayed, init, op);
    }
  }

  /** However setters, switches of delayed, completion and deliveries interleave, once the proxy
      is completed and no call is queued: every filter change is applied; the rows are in the
      current order exactly if the proxy is not stranded by an unknown role name; the proxy roles
      are announced exactly if the last change did not come too early. */
  lemma NothingIsLost(delayed: bool, ops: seq<Op>)
    requires var s := Run(Initial(delayed), ops); s.completed && s.events == []
    ensures var s := Run(Initial(delayed), ops);
      && s.hasFilter == s.wantFilter
      && (s.hasSort == s.wantSort <==> !Stranded(delayed, ops))
      && (s.saidRoles == s.wantRoles <==> Announced(delayed, ops))
  {
    RunCovers(delayed, ops);
  }

  lemma CallQueuesNothing(s: State, c: Call)
    ensures Run1(s, c).events == s.events && Run1(s, c).completed == s.completed
  {
  }

  lemma DeliverShortens(s: State)
    requires s.events != []
    ensures Step(s, Deliver).events == s.events[1..] && Step(s, Deliver).completed == s.completed
  {
    CallQueuesNothing(s.(events := s.events[1..]), s.events[0]);
  }

  /** The event loop running until nothing is queued. */
  function Drained(s: State): State
    decreases |s.events|
  {
    if s.events == [] then s
    else
      DeliverShortens(s);
      Drained(Step(s, Deliver))
  }

  /** After any run that completed the proxy, delivering the queued calls, which queues no new
      one, applies what can be applied: whether the run is stranded, or came too early with its
      roles, is decided before. */
  lemma {:induction false} QueueDrainsUpToDate(delayed: bool, ops: seq<Op>)
    requires Run(Initial(delayed), ops).completed
    ensures var s := Drained(Run(Initial(delayed), ops));
      && s.events == [] && s.hasFilter == s.wantFilter
      && (s.hasSort == s.wantSort <==> !Stranded(delayed, ops))
      && (s.saidRoles == s.wantRoles <==> Announced(delayed, ops))
    decreases |Run(Initial(delayed), ops).events|
  {
    var s := Run(Initial(delayed), ops);
    if s.events == [] {
      NothingIsLost(delayed, ops);
    } else {
      RunMore(Initial(delayed), ops, Deliver);
      DeliverShortens(s);
      QueueDrainsUpToDate(delayed, ops + [Deliver]);
      StrandedMore(delayed, ops, Deliver);
      RunCovers(delayed, ops);
      AnnouncedMore(delayed, ops, Deliver);
    }
  }

  // ---- what each mode does -----------------------------------------------------------------------------

  /** On a completed proxy that is not delayed and has nothing queued, every change takes effect
      within the call, and nothing is queued. */
  lemma AtOnce(s: State)
    requires Covered(s) && s.completed && !s.delayed && s.events == []
    ensures var t := Step(s, ChangeFilter); t.hasFilter == t.wantFilter == s.wantFilter + 1 && t.events == []
    ensures forall op :: op == ChangeSort || op == ChangeSortRole(true) ==>
      var t := Step(s, op); t.hasSort == t.wantSort == s.wantSort + 1 && t.events == []
    ensures var t := Step(s, ChangeRoles);
      && t.saidRoles == t.wantRoles == s.wantRoles + 1 && t.hasSort == t.wantSort && t.events == []
  {
  }

  predicate Queues(op: Op) {
    op.ChangeSort? || op.ChangeRoles? || op == ChangeSortRole(true)
  }

  /** While delayed, only a delivery or the completion touches the rows or announces the roles; a
      change posts calls, at the end of the queue, and only those whose flag is down: a filter
      change none while either flag is up. */
  lemma WhileDelayed(s: State, op: Op)
    requires s.delayed && !op.Deliver? && !op.Complete?
    ensures var t := Step(s, op);
      && t.hasFilter == s.hasFilter && t.hasSort == s.hasSort && t.saidRoles == s.saidRoles
      && (op.ChangeFilter? ==>
            t.events == s.events + if s.filterQueued || s.queued then [] else [InvalidateFilter])
      && (Queues(op) ==>
            t.events == s.events + (if s.queued then [] else [Invalidate])
                        + (if op.ChangeRoles? && !s.rolesQueued then [InvalidateProxyRoles] else []))
      && (!op.ChangeFilter? && !Queues(op) ==> t.events == s.events)
  {
  }

  /** Before completion nothing is applied or announced; completion applies filters and order at
      once, leaving the queue and the roles alone. Switching the mode changes the mode only. */
  lemma AroundCompletion(s: State, op: Op)
    ensures !s.completed && !op.Complete? ==>
      var t := Step(s, op); t.hasFilter == s.hasFilter && t.hasSort == s.hasSort && t.saidRoles == s.saidRoles
    ensures var t := Step(s, Complete);
      && t.completed && t.hasFilter == t.wantFilter && t.hasSort == t.wantSort && t.saidRoles == s.saidRoles
      && t.events == s.events && t.wantFilter == s.wantFilter && t.wantSort == s.wantSort && t.delayed == s.delayed
    ensures op.SetDelayed? ==> Step(s, op) == s.(delayed := op.on)
  {
    if op.Deliver? && s.events != [] {
      Delivered(s);
    }
  }

  predicate NotSwitched(ops: seq<Op>) {
    forall op :: op in ops ==> !op.SetDelayed?
  }

  /** A proxy that was never delayed queues nothing, and shows every filter change once completed. */
  lemma {:induction false} NeverDelayed(ops: seq<Op>)
    requires NotSwitched(ops)
    ensures var s := Run(Initial(false), ops);
      && !s.delayed && s.events == [] && !s.filterQueued && !s.queued && !s.rolesQueued
      && (s.completed ==> s.hasFilter == s.wantFilter)
  {
    if ops != [] {
      var init, op := ops[..|ops| - 1], ops[|ops| - 1];
      assert op in ops && forall x :: x in init ==> x in ops;
      NeverDelayed(init);
      NothingQueued(Run(Initial(false), init), op);
    }
  }

  lemma NothingQueued(s: State, op: Op)
    requires !s.delayed && s.events == [] && !s.filterQueued && !s.queued && !s.rolesQueued
    requires (s.completed ==> s.hasFilter == s.wantFilter) && !op.SetDelayed?
    ensures var t := Step(s, op);
      && !t.delayed && t.events == [] && !t.filterQueued && !t.queued && !t.rolesQueued
      && (t.completed ==> t.hasFilter == t.wantFilter)
  {
  }

  // ---- no call stands in the queue twice -----------------------------------------------------------------

  function Count(events: seq<Call>, c: Call): nat {
    multiset(events)[c]
  }

  lemma CountTail(events: seq<Call>, c: Call)
    requires events != []
    ensures Count(events, c) == Count(events[1..], c) + if events[0] == c then 1 else 0
  {
    assert events == [events[0]] + events[1..];
  }

  /** The flags tell what is queued, and nothing is queued twice. */
  ghost predicate OnceEach(s: State) {
    && Count(s.events, InvalidateFilter) == (if s.filterQueued then 1 else 0)
    && Count(s.events, Invalidate) == (if s.queued then 1 else 0)
    && Count(s.events, InvalidateProxyRoles) == (if s.rolesQueued then 1 else 0)
  }

  lemma StepKeepsOnce(s: State, op: Op)
    requires s.delayed && OnceEach(s) && !op.SetDelayed? && (op.Complete? ==> Invalidate !in s.events)
    ensures OnceEach(Step(s, op)) && Step(s, op).delayed
  {
    match op
    case Deliver => DeliverKeepsOnce(s);
    case Complete => CompleteKeepsOnce(s);
    case ChangeRoles => RolesKeepOnce(s.(wantRoles := s.wantRoles + 1));
    case ChangeFilter => FilterKeepsOnce(s.(wantFilter := s.wantFilter + 1));
    case ChangeSort => SortKeepsOnce(s.(wantSort := s.wantSort + 1));
    case ChangeSortRole(_) => SortKeepsOnce(s.(wantSort := s.wantSort + 1));
  }

  lemma CompleteKeepsOnce(s: State)
    requires s.delayed && OnceEach(s) && Invalidate !in s.events
    ensures OnceEach(Invalidated(s.(completed := true)))
  {
    assert Count(s.events, Invalidate) == 0;
  }

  lemma FilterKeepsOnce(s: State)
    requires s.delayed && OnceEach(s)
    ensures OnceEach(QueuedFilter(s)) && QueuedFilter(s).delayed
  {
  }

  lemma SortKeepsOnce(s: State)
    requires s.delayed && OnceEach(s)
    ensures OnceEach(Queued(s)) && Queued(s).delayed
  {
  }

  lemma RolesKeepOnce(s: State)
    requires s.delayed && OnceEach(s)
    ensures OnceEach(QueuedRoles(s)) && QueuedRoles(s).delayed
  {
    SortKeepsOnce(s);
  }

  lemma DeliverKeepsOnce(s: State)
    requires s.delayed && OnceEach(s)
    ensures OnceEach(Step(s, Deliver)) && Step(s, Deliver).delayed
  {
    if s.events != [] {
      Delivered(s);
      CountTail(s.events, InvalidateFilter);
      CountTail(s.events, Invalidate);
      CountTail(s.events, InvalidateProxyRoles);
    }
  }

  /** The component is completed while no full invalidation is queued. */
  ghost predicate CompletedClean(ops: seq<Op>) {
    forall i :: 0 <= i < |ops| && ops[i].Complete? ==> Invalidate !in Run(Initial(true), ops[..i]).events
  }

  /** A delayed proxy that is not switched has each kind of call in the queue at most once, as its
      flags say, if no full invalidation was queued at its completion. */
  lemma {:induction false} QueuedOnce(ops: seq<Op>)
    requires NotSwitched(ops) && CompletedClean(ops)
    ensures Run(Initial(true), ops).delayed && OnceEach(Run(Initial(true), ops))
  {
    if ops != [] {
      var n := |ops| - 1;
      var init, op := ops[..n], ops[n];
      assert op in ops && forall x :: x in init ==> x in ops;
      assert forall i :: 0 <= i < n ==> init[..i] == ops[..i];
      QueuedOnce(init);
      StepKeepsOnce(Run(Initial(true), init), op);
    }
  }

  /** The other runs: completion lowers the flag of a full invalidation that stays in the queue, and
      exactly while that is so the next change posts a second one. */
  lemma SecondCallExactly(s: State, op: Op)
    requires s.delayed && Count(s.events, Invalidate) <= 1 && (s.queued ==> Invalidate in s.events)
    ensures Count(Step(s, op).events, Invalidate) > 1 <==> Queues(op) && !s.queued && Invalidate in s.events
  {
    if op.Deliver? && s.events != [] {
      Delivered(s);
      CountTail(s.events, Invalidate);
    } else if !op.Deliver? && !op.Complete? {
      WhileDelayed(s, op);
    }
  }

  lemma CompletedWhileQueued()
    ensures Run(Initial(true), [ChangeSort, Complete, ChangeSort]).events == [Invalidate, Invalidate]
  {
    var s0 := Initial(true);
    RunMore(s0, [], ChangeSort);
    RunMore(s0, [ChangeSort], Complete);
    RunMore(s0, [ChangeSort, Complete], ChangeSort);
    assert [] + [ChangeSort] == [ChangeSort];
    assert [ChangeSort] + [Complete] == [ChangeSort, Complete];
    assert [ChangeSort, Complete] + [ChangeSort] == [ChangeSort, Complete, ChangeSort];
    AroundCompletion(Step(s0, ChangeSort), Complete);
  }

  /** The smallest failures: a role change delivered before completion is never announced, and
      an unknown sort role name on a completed proxy leaves the old order. */
  lemma EarlyRoleChangeIsSilent()
    ensures var s := Run(Initial(true), [ChangeRoles, Deliver, Deliver, Complete]);
      s.completed && s.events == [] && s.saidRoles != s.wantRoles
  {
    var s0 := Initial(true);
    var a := [ChangeRoles];
    RunMore(s0, [], ChangeRoles);
    RunMore(s0, a, Deliver);
    RunMore(s0, a + [Deliver], Deliver);
    RunMore(s0, a + [Deliver] + [Deliver], Complete);
    assert [] + [ChangeRoles] == a;
    assert a + [Deliver] + [Deliver] + [Complete] == [ChangeRoles, Deliver, Deliver, Complete];
    assert Step(s0, ChangeRoles).events == [Invalidate, InvalidateProxyRoles];
    EarlyRoles(Step(s0, ChangeRoles));
  }

  lemma EarlyRoles(s: State)
    requires s.events == [Invalidate, InvalidateProxyRoles] && !s.completed
    ensures var t := Step(Step(Step(s, Deliver), Deliver), Complete);
      t.completed && t.events == [] && t.saidRoles == s.saidRoles && t.wantRoles == s.wantRoles
  {
    assert Step(s, Deliver).events == [InvalidateProxyRoles];
    assert Step(Step(s, Deliver), Deliver).events == [];
  }

  lemma UnknownSortRoleIsStranded(delayed: bool)
    ensures var s := Run(Initial(delayed), [Complete, ChangeSortRole(false)]);
      s.completed && s.events == [] && s.hasSort != s.wantSort
  {
    var s0 := Initial(delayed);
    RunMore(s0, [], Complete);
    RunMore(s0, [Complete], ChangeSortRole(false));
    assert [] + [Complete] == [Complete];
    assert [Complete] + [ChangeSortRole(false)] == [Complete, ChangeSortRole(false)];
  }

  class ProxyModel {
    var delayed: bool
    var completed: bool
    var filterQueued: bool
    var queued: bool
    var rolesQueued: bool
    var events: seq<Call>                  // the event loop's queue
    var wantFilter: nat
    var hasFilter: nat
    var wantSort: nat
    var hasSort: nat
    var wantRoles: nat
    var saidRoles: nat
    ghost const initially: bool            // delayed, when the object was made
    ghost var ops: seq<Op>                 // what happened to it since

    ghost function Contents(): State
      reads this
    {
      State(delayed, completed, filterQueued, queued, rolesQueued, events,
            wantFilter, hasFilter, wantSort, hasSort, wantRoles, saidRoles)
    }

    /** The object is where its history leads. */
    ghost predicate Valid()
      reads this
    {
      Contents() == Run(Initial(initially), ops)
    }

    constructor (delayed: bool)
      ensures Valid() && Contents() == Initial(delayed) && ops == []
    {
      this.delayed, completed := delayed, false;
      filterQueued, queued, rolesQueued, events := false, false, false, [];
      wantFilter, hasFilter, wantSort, hasSort := 0, 0, 0, 0;
      wantRoles, saidRoles := 0, 0;
      initially, ops := delayed, [];
    }

    method CallInvalidateFilter()
      modifies this`filterQueued, this`hasFilter
      ensures Contents() == InvalidatedFilter(old(Contents()))
    {
      filterQueued := false;
      if completed && !queued {
        hasFilter := wantFilter;           // QSortFilterProxyModel::invalidateFilter
      }
    }

    method CallInvalidate()
      modifies this`queued, this`hasFilter, this`hasSort
      ensures Contents() == Invalidated(old(Contents()))
    {
      queued := false;
      if completed {
        hasFilter, hasSort := wantFilter, wantSort;
      }
    }

    method CallInvalidateProxyRoles()
      modifies this`rolesQueued, this`saidRoles
      ensures Contents() == InvalidatedRoles(old(Contents()))
    {
      rolesQueued := false;
      if completed {
        saidRoles := wantRoles;
      }
    }

    method QueueInvalidateFilter()
      modifies this
      ensures Contents() == QueuedFilter(old(Contents())) && ops == old(ops)
    {
      if delayed {
        if !filterQueued && !queued {
          filterQueued, events := true, events + [InvalidateFilter];
        }
      } else {
        CallInvalidateFilter();
      }
    }

    method QueueInvalidate()
      modifies this
      ensures Contents() == Queued(old(Contents())) && ops == old(ops)
    {
      if delayed {
        if !queued {
          queued, events := true, events + [Invalidate];
        }
      } else {
        CallInvalidate();
      }
    }

    method QueueInvalidateProxyRoles()
      modifies this
      ensures Contents() == QueuedRoles(old(Contents())) && ops == old(ops)
    {
      QueueInvalidate();
      if delayed {
        if !rolesQueued {
          rolesQueued, events := true, events + [InvalidateProxyRoles];
        }
      } else {
        CallInvalidateProxyRoles();
      }
    }

    /** setFilterValue, and appending, removing, clearing or invalidating filters. */
    method ChangeFilters()
      requires Valid()
      modifies this
      ensures Valid() && ops == old(ops) + [ChangeFilter]
    {
      Record(ChangeFilter);
      ghost var before := Contents();
      wantFilter := wantFilter + 1;
      assert Contents() == before.(wantFilter := before.wantFilter + 1);
      QueueInvalidateFilter();
    }

    /** setAscendingSortOrder, and appending, removing, clearing or invalidating sorters. */
    method ChangeSorting()
      requires Valid()
      modifies this
      ensures Valid() && ops == old(ops) + [ChangeSort]
    {
      Record(ChangeSort);
      ghost var before := Contents();
      wantSort := wantSort + 1;
      assert Contents() == before.(wantSort := before.wantSort + 1);
      QueueInvalidate();
    }

    /** setSortRoleName and updateSortRole. */
    method SetSortRoleName(known: bool)
      requires Valid()
      modifies this
      ensures Valid() && ops == old(ops) + [ChangeSortRole(known)]
    {
      Record(ChangeSortRole(known));
      ghost var before := Contents();
      wantSort := wantSort + 1;
      assert Contents() == before.(wantSort := before.wantSort + 1);
      if known {
        QueueInvalidate();
      }
    }

    /** A proxy role's `invalidated` signal. */
    method ChangeProxyRoles()
      requires Valid()
      modifies this
      ensures Valid() && ops == old(ops) + [ChangeRoles]
    {
      Record(ChangeRoles);
      ghost var before := Contents();
      wantRoles := wantRoles + 1;
      ghost var changed := Contents();
      assert changed == before.(wantRoles := before.wantRoles + 1);
      QueueInvalidateProxyRoles();
      assert Contents() == QueuedRoles(changed);
    }

    method SwitchDelayed(on: bool)
      requires Valid()
      modifies this
      ensures Valid() && ops == old(ops) + [SetDelayed(on)]
    {
      Record(SetDelayed(on));
      if delayed != on {
        delayed := on;
      }
    }

    method ComponentComplete()
      requires Valid()
      modifies this
      ensures Valid() && ops == old(ops) + [Complete]
    {
      Record(Complete);
      completed := true;
      CallInvalidate();
    }

    method RunCall(c: Call)
      modifies this
      ensures Contents() == Run1(old(Contents()), c) && ops == old(ops)
    {
      match c
      case InvalidateFilter => CallInvalidateFilter();
      case Invalidate => CallInvalidate();
      case InvalidateProxyRoles => CallInvalidateProxyRoles();
    }

    /** The event loop takes the oldest queued call and runs it. */
    method DeliverOne()
      requires Valid() && events != []
      modifies this
      ensures Valid() && ops == old(ops) + [Deliver]
    {
      Record(Deliver);
      var c := events[0];
      events := events[1..];
      RunCall(c);
    }

    ghost method Record(op: Op)
      modifies this`ops
      ensures ops == old(ops) + [op]
      ensures Run(Initial(initially), ops) == Step(Run(Initial(initially), old(ops)), op)
    {
      RunMore(Initial(initially), ops, op);
      ops := ops + [op];
    }
  }
}
