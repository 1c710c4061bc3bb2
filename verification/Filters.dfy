/**
 Nested filters and their `invalidated` signals. Filters are objects known by their address: one
 filter may stand in several containers, and a container stays connected to a filter it once had.
 */
module Filters {
  import opened StdHelpers

  type Ptr = nat
  type Row = int

  datatype Kind = Leaf | AnyOf | AllOf

  /** A filter; containers keep a list of others. No filter is, directly or not, inside itself:
      whatever is put into a container has a lower level than the container. */
  datatype Node = Node(kind: Kind, level: nat, enabled: bool, inverted: bool, test: Row -> bool, children: seq<Ptr>)

  /** All filters, and for each the containers whose invalidate() its signal is connected to. */
  datatype Graph = Graph(nodes: map<Ptr, Node>, listeners: map<Ptr, set<Ptr>>)

  ghost predicate WellFormed(g: Graph) {
    && g.listeners.Keys == g.nodes.Keys
    && (forall c, q :: Hears(g, q, c) ==> q in g.nodes && c in g.nodes && g.nodes[c].level < g.nodes[q].level)
    && (forall q, c :: q in g.nodes && c in g.nodes[q].children ==> Hears(g, q, c))
  }

  /** q is connected to the signal of c. */
  ghost predicate Hears(g: Graph, q: Ptr, c: Ptr) {
    c in g.listeners && q in g.listeners[c]
  }

  /** filterRow of a leaf, of AllOfFilter and of AnyOfFilter. */
  ghost predicate FilterRow(g: Graph, q: Ptr, row: Row)
    requires WellFormed(g) && q in g.nodes
    decreases g.nodes[q].level, 0
  {
    var n := g.nodes[q];
    match n.kind
    case Leaf => n.test(row)
    case AnyOf => exists c :: c in n.children && Hears(g, q, c) && g.nodes[c].enabled && Accepts(g, c, row)
    case AllOf => forall c :: c in n.children && Hears(g, q, c) ==> Accepts(g, c, row)
  }

  /** Filter::filterAcceptsRow. */
  ghost predicate Accepts(g: Graph, q: Ptr, row: Row)
    requires WellFormed(g) && q in g.nodes
    decreases g.nodes[q].level, 1
  {
    !g.nodes[q].enabled || FilterRow(g, q, row) != g.nodes[q].inverted
  }

  // ---- one call ------------------------------------------------------------------------------------

  datatype Change =
    | SetEnabled(on: bool)
    | SetInverted(on: bool)
    | SetTest(test: Row -> bool)          // a leaf's own property, which calls invalidate()
    | Append(child: Ptr)
    | Remove(child: Ptr)
    | Clear

  ghost predicate Legal(g: Graph, p: Ptr, c: Change) {
    && p in g.nodes
    && match c
       case SetEnabled(_) => true
       case SetInverted(_) => true
       case SetTest(_) => g.nodes[p].kind.Leaf?
       case Append(f) => !g.nodes[p].kind.Leaf? && f in g.nodes && g.nodes[f].level < g.nodes[p].level
       case Remove(_) => !g.nodes[p].kind.Leaf?
       case Clear => !g.nodes[p].kind.Leaf?
  }

  function ChangedNode(n: Node, c: Change): Node {
    match c
    case SetEnabled(on) => n.(enabled := on)
    case SetInverted(on) => n.(inverted := on)
    case SetTest(t) => n.(test := t)
    case Append(f) => n.(children := n.children + [f])
    case Remove(f) => n.(children := RemoveOne(n.children, f))
    case Clear => n.(children := [])
  }

  /** Appending connects; nothing disconnects. */
  function Changed(g: Graph, p: Ptr, c: Change): Graph
    requires p in g.nodes && (c.Append? ==> c.child in g.listeners)
  {
    Graph(
      g.nodes[p := ChangedNode(g.nodes[p], c)],
      if c.Append? then g.listeners[c.child := g.listeners[c.child] + {p}] else g.listeners)
  }

  /** Does the filter itself emit? setEnabled does on every change, the rest through invalidate(),
      which a disabled filter keeps to itself. */
  predicate EmitsItself(n: Node, c: Change) {
    match c
    case SetEnabled(on) => n.enabled != on
    case SetInverted(on) => n.inverted != on && n.enabled
    case _ => n.enabled
  }

  lemma {:induction false} RemoveOneInside(s: seq<Ptr>, x: Ptr, y: Ptr)
    ensures y in RemoveOne(s, x) ==> y in s
    ensures y in s && y != x ==> y in RemoveOne(s, x)
  {
    if s != [] {
      RemoveOneInside(s[1..], x, y);
      assert s == [s[0]] + s[1..];
    }
  }

  lemma ChangedIsWellFormed(g: Graph, p: Ptr, c: Change)
    requires WellFormed(g) && Legal(g, p, c)
    ensures WellFormed(Changed(g, p, c))
    ensures forall q, k :: Hears(g, q, k) ==> Hears(Changed(g, p, c), q, k)
  {
    var h := Changed(g, p, c);
    assert forall q, k :: Hears(h, q, k) <==> Hears(g, q, k) || (c.Append? && q == p && k == c.child);
    forall q, k | q in h.nodes && k in h.nodes[q].children ensures Hears(h, q, k) {
      if q == p && c.Remove? {
        RemoveOneInside(g.nodes[p].children, c.child, k);
      }
      assert k in g.nodes[q].children || (c.Append? && q == p && k == c.child);
    }
  }

  // ---- who emits -----------------------------------------------------------------------------------

  /** When p emits, q emits too: q is p, or an enabled container hears a filter that emits. */
  ghost predicate Emits(g: Graph, p: Ptr, q: Ptr)
    requires WellFormed(g) && q in g.nodes
    decreases g.nodes[q].level
  {
    q == p || (g.nodes[q].enabled && exists k :: Hears(g, q, k) && Emits(g, p, k))
  }

  ghost function EmittersFrom(g: Graph, p: Ptr): set<Ptr>
    requires WellFormed(g)
  {
    set q | q in g.nodes && Emits(g, p, q)
  }

  /** Seen from the emitting side: first p, then what each enabled container connected to it does. */
  lemma {:induction false} EmitsForward(g: Graph, p: Ptr, q: Ptr)
    requires WellFormed(g) && p in g.nodes && q in g.nodes
    ensures Emits(g, p, q) <==> q == p || exists l :: Hears(g, l, p) && g.nodes[l].enabled && Emits(g, l, q)
    decreases g.nodes[q].level
  {
    if q != p {
      if Emits(g, p, q) {
        var k :| Hears(g, q, k) && Emits(g, p, k);
        EmitsForward(g, p, k);
        if k == p {
          assert Emits(g, q, q);
        } else {
          var l :| Hears(g, l, p) && g.nodes[l].enabled && Emits(g, l, k);
          assert Emits(g, l, q);
        }
      }
      if l :| Hears(g, l, p) && g.nodes[l].enabled && Emits(g, l, q) {
        if q == l {
          assert Emits(g, p, p);
        } else {
          var k :| Hears(g, q, k) && Emits(g, l, k);
          EmitsForward(g, p, k);
        }
      }
    }
  }

  /** A chain of connections from p to q through enabled containers. */
  ghost predicate Chain(g: Graph, path: seq<Ptr>, p: Ptr, q: Ptr) {
    && path != [] && path[0] == p && path[|path| - 1] == q
    && forall i :: 0 < i < |path| ==> Hears(g, path[i], path[i - 1]) && path[i] in g.nodes && g.nodes[path[i]].enabled
  }

  lemma {:induction false} ChainFor(g: Graph, p: Ptr, q: Ptr) returns (path: seq<Ptr>)
    requires WellFormed(g) && q in g.nodes && Emits(g, p, q)
    ensures Chain(g, path, p, q)
    decreases g.nodes[q].level
  {
    if q == p {
      path := [p];
    } else {
      var k :| Hears(g, q, k) && Emits(g, p, k);
      var before := ChainFor(g, p, k);
      path := before + [q];
      assert path[|path| - 2] == k;
    }
  }

  lemma {:induction false} ChainEmits(g: Graph, path: seq<Ptr>, p: Ptr, q: Ptr)
    requires WellFormed(g) && q in g.nodes && Chain(g, path, p, q)
    ensures Emits(g, p, q)
    decreases |path|
  {
    if |path| > 1 {
      var k := path[|path| - 2];
      assert Hears(g, path[|path| - 1], path[|path| - 2]);
      ChainEmits(g, path[..|path| - 1], p, k);
    }
  }

  /** A signal reaches q exactly along a chain of enabled containers. */
  lemma EmitsAlongChains(g: Graph, p: Ptr, q: Ptr)
    requires WellFormed(g) && q in g.nodes
    ensures Emits(g, p, q) <==> exists path :: Chain(g, path, p, q)
  {
    if Emits(g, p, q) {
      var path := ChainFor(g, p, q);
    }
    if path :| Chain(g, path, p, q) {
      ChainEmits(g, path, p, q);
    }
  }

  // ---- no silent change ----------------------------------------------------------------------------

  ghost predicate Same(g: Graph, h: Graph, q: Ptr)
    requires WellFormed(g) && WellFormed(h) && q in g.nodes && q in h.nodes
  {
    g.nodes[q].enabled == h.nodes[q].enabled && forall row :: Accepts(g, q, row) == Accepts(h, q, row)
  }

  /** A filter whose own fields and children did not change, did not change. */
  lemma SameAbove(g: Graph, h: Graph, q: Ptr)
    requires WellFormed(g) && WellFormed(h) && q in g.nodes && q in h.nodes && g.nodes[q] == h.nodes[q]
    requires forall c :: c in g.nodes[q].children && Hears(g, q, c) && Hears(h, q, c) ==> Same(g, h, c)
    ensures Same(g, h, q)
  {
    forall row ensures FilterRow(g, q, row) == FilterRow(h, q, row) {
      SameRow(g, h, q, row);
    }
  }

  lemma SameRow(g: Graph, h: Graph, q: Ptr, row: Row)
    requires WellFormed(g) && WellFormed(h) && q in g.nodes && q in h.nodes && g.nodes[q] == h.nodes[q]
    requires forall c :: c in g.nodes[q].children && Hears(g, q, c) && Hears(h, q, c) ==> Same(g, h, c)
    ensures FilterRow(g, q, row) == FilterRow(h, q, row)
  {
    forall c | c in g.nodes[q].children
      ensures Hears(g, q, c) && Hears(h, q, c)
      ensures g.nodes[c].enabled == h.nodes[c].enabled && Accepts(g, c, row) == Accepts(h, c, row)
    {
      assert Same(g, h, c);
    }
  }

  /** What stands below the changed filter does not see the change. */
  lemma {:induction false} BelowIsSame(g: Graph, p: Ptr, c: Change, q: Ptr)
    requires WellFormed(g) && Legal(g, p, c) && WellFormed(Changed(g, p, c))
    requires q in g.nodes && q != p && g.nodes[q].level <= g.nodes[p].level
    ensures Same(g, Changed(g, p, c), q)
    decreases g.nodes[q].level
  {
    var h := Changed(g, p, c);
    forall k | k in g.nodes[q].children && Hears(g, q, k) && Hears(h, q, k) ensures Same(g, h, k) {
      BelowIsSame(g, p, c, k);
    }
    SameAbove(g, h, q);
  }

  /** A filter that a call leaves silent accepts what it accepted. */
  lemma SilentItself(g: Graph, p: Ptr, c: Change)
    requires WellFormed(g) && Legal(g, p, c) && WellFormed(Changed(g, p, c))
    requires !EmitsItself(g.nodes[p], c)
    ensures Same(g, Changed(g, p, c), p)
  {
    var h := Changed(g, p, c);
    if g.nodes[p].enabled {
      assert g.nodes[p] == h.nodes[p];
      forall k | k in g.nodes[p].children && Hears(g, p, k) && Hears(h, p, k) ensures Same(g, h, k) {
        BelowIsSame(g, p, c, k);
      }
      SameAbove(g, h, p);
    }
  }

  /** Whatever is nested in whatever: a filter that emits nothing after a call somewhere in the
      graph is enabled as before and accepts exactly the rows it accepted. */
  lemma {:induction false} NoSilentChange(g: Graph, p: Ptr, c: Change, q: Ptr)
    requires WellFormed(g) && Legal(g, p, c) && WellFormed(Changed(g, p, c)) && q in g.nodes
    requires !(EmitsItself(g.nodes[p], c) && Emits(Changed(g, p, c), p, q))
    ensures Same(g, Changed(g, p, c), q)
    decreases g.nodes[q].level
  {
    var h := Changed(g, p, c);
    if q == p {
      SilentItself(g, p, c);
    } else if g.nodes[q].enabled {
      forall k | k in g.nodes[q].children && Hears(g, q, k) && Hears(h, q, k) ensures Same(g, h, k) {
        NoSilentChange(g, p, c, k);
      }
      SameAbove(g, h, q);
    }
  }

  /** The filters' part of QQmlSortFilterProxyModel::filterAcceptsRow. */
  ghost predicate ProxyAccepts(g: Graph, filters: seq<Ptr>, row: Row)
    requires WellFormed(g) && forall q :: q in filters ==> q in g.nodes
  {
    forall q :: q in filters ==> Accepts(g, q, row)
  }

  /** A call that changes which rows a proxy accepts makes one of the proxy's filters emit, and
      so queues an invalidation. */
  lemma ProxyIsTold(g: Graph, filters: seq<Ptr>, p: Ptr, c: Change, row: Row)
    requires WellFormed(g) && Legal(g, p, c) && WellFormed(Changed(g, p, c))
    requires forall q :: q in filters ==> q in g.nodes
    ensures ProxyAccepts(g, filters, row) == ProxyAccepts(Changed(g, p, c), filters, row)
      || (EmitsItself(g.nodes[p], c) && exists q :: q in filters && Emits(Changed(g, p, c), p, q))
  {
    var h := Changed(g, p, c);
    forall q | q in filters && !(EmitsItself(g.nodes[p], c) && Emits(h, p, q))
      ensures Accepts(g, q, row) == Accepts(h, q, row)
    {
      NoSilentChange(g, p, c, q);
      assert Same(g, h, q);
    }
  }

  // ---- the two containers --------------------------------------------------------------------------

  /** An AllOf among a proxy's filters has the same effect as its children in its place. */
  lemma AllOfAtTheTop(g: Graph, before: seq<Ptr>, q: Ptr, after: seq<Ptr>, row: Row)
    requires WellFormed(g) && q in g.nodes && forall x :: x in before + after ==> x in g.nodes
    requires g.nodes[q].kind.AllOf? && g.nodes[q].enabled && !g.nodes[q].inverted
    ensures forall x :: x in before + g.nodes[q].children + after ==> x in g.nodes
    ensures ProxyAccepts(g, before + [q] + after, row) <==>
      ProxyAccepts(g, before + g.nodes[q].children + after, row)
  {
    var children := g.nodes[q].children;
    forall x | x in children ensures x in g.nodes && Hears(g, q, x) {
      assert Hears(g, q, x);
    }
    var one, many := before + [q] + after, before + children + after;
    assert forall x :: x in one <==> x in before + after || x == q;
    assert forall x :: x in many <==> x in before + after || x in children;
    assert Accepts(g, q, row) <==> forall c :: c in children && Hears(g, q, c) ==> Accepts(g, c, row);
    if ProxyAccepts(g, one, row) {
      assert q in one;
      forall x | x in many ensures Accepts(g, x, row) {
        assert x in children || x in one;
      }
    }
    if ProxyAccepts(g, many, row) {
      forall c | c in children && Hears(g, q, c) ensures Accepts(g, c, row) {
        assert c in many;
      }
      forall x | x in one ensures Accepts(g, x, row) {
        assert x == q || x in many;
      }
    }
  }

  /** A disabled child may as well be taken out: AnyOf skips it, AllOf finds it accepting. */
  lemma DisabledChildIsAbsent(g: Graph, p: Ptr, f: Ptr, row: Row)
    requires WellFormed(g) && Legal(g, p, Remove(f)) && WellFormed(Changed(g, p, Remove(f)))
    requires f in g.nodes[p].children && Hears(g, p, f) && !g.nodes[f].enabled
    ensures Accepts(g, p, row) == Accepts(Changed(g, p, Remove(f)), p, row)
  {
    var h := Changed(g, p, Remove(f));
    forall c | c in g.nodes[p].children && Hears(g, p, c)
      ensures c in h.nodes && g.nodes[c].enabled == h.nodes[c].enabled && Accepts(g, c, row) == Accepts(h, c, row)
      ensures c != f ==> c in h.nodes[p].children
    {
      BelowIsSame(g, p, Remove(f), c);
      assert Same(g, h, c);
      RemoveOneInside(g.nodes[p].children, f, c);
    }
    forall c | c in h.nodes[p].children ensures c in g.nodes[p].children && Hears(g, p, c) && Hears(h, p, c) {
      RemoveOneInside(g.nodes[p].children, f, c);
    }
    if g.nodes[p].kind.AnyOf? {
      AnyOfSame(g, h, p, row);
    }
  }

  lemma AnyOfSame(g: Graph, h: Graph, p: Ptr, row: Row)
    requires WellFormed(g) && WellFormed(h) && p in g.nodes && p in h.nodes
    requires g.nodes[p].kind.AnyOf? && h.nodes[p].kind.AnyOf?
    requires forall c :: c in g.nodes[p].children && Hears(g, p, c) ==>
      && c in h.nodes && g.nodes[c].enabled == h.nodes[c].enabled && Accepts(g, c, row) == Accepts(h, c, row)
      && (g.nodes[c].enabled ==> c in h.nodes[p].children)
    requires forall c :: c in h.nodes[p].children ==> c in g.nodes[p].children && Hears(g, p, c) && Hears(h, p, c)
    ensures FilterRow(g, p, row) == FilterRow(h, p, row)
  {
    if FilterRow(g, p, row) {
      var c :| c in g.nodes[p].children && Hears(g, p, c) && g.nodes[c].enabled && Accepts(g, c, row);
      assert c in h.nodes[p].children && Hears(h, p, c);
    }
    if FilterRow(h, p, row) {
      var c :| c in h.nodes[p].children && Hears(h, p, c) && h.nodes[c].enabled && Accepts(h, c, row);
      assert c in g.nodes[p].children && Hears(g, p, c);
    }
  }

  /** The children of the changed filter are as they were. */
  lemma ChildIsSame(g: Graph, p: Ptr, c: Change, k: Ptr)
    requires WellFormed(g) && Legal(g, p, c) && WellFormed(Changed(g, p, c))
    requires k in g.nodes && g.nodes[k].level < g.nodes[p].level
    ensures k in Changed(g, p, c).nodes && g.nodes[k].enabled == Changed(g, p, c).nodes[k].enabled
    ensures forall row :: Accepts(Changed(g, p, c), k, row) == Accepts(g, k, row)
  {
    BelowIsSame(g, p, c, k);
  }

  /** An enabled container that is not inverted. */
  ghost predicate Plain(g: Graph, p: Ptr) {
    p in g.nodes && g.nodes[p].enabled && !g.nodes[p].inverted
  }

  /** Without an enabled child AnyOf accepts no row. */
  lemma AnyOfNeedsOne(g: Graph, p: Ptr, row: Row)
    requires WellFormed(g) && Plain(g, p) && g.nodes[p].kind.AnyOf?
    requires forall c :: c in g.nodes[p].children && Hears(g, p, c) ==> !g.nodes[c].enabled
    ensures !Accepts(g, p, row)
  {
  }

  /** Appending an enabled child to AnyOf adds exactly the rows the child accepts; appending a
      disabled one adds none. */
  lemma AnyOfGrows(g: Graph, p: Ptr, f: Ptr, row: Row)
    requires WellFormed(g) && Legal(g, p, Append(f)) && WellFormed(Changed(g, p, Append(f)))
    requires Plain(g, p) && g.nodes[p].kind.AnyOf?
    ensures Accepts(Changed(g, p, Append(f)), p, row) <==>
      Accepts(g, p, row) || (g.nodes[f].enabled && Accepts(g, f, row))
  {
    var h := Changed(g, p, Append(f));
    assert h.nodes[p].children == g.nodes[p].children + [f];
    assert Hears(h, p, f);
    ChildIsSame(g, p, Append(f), f);
    forall c | c in g.nodes[p].children
      ensures Hears(g, p, c) && Hears(h, p, c) && c in h.nodes[p].children && c in h.nodes
      ensures g.nodes[c].enabled == h.nodes[c].enabled && Accepts(h, c, row) == Accepts(g, c, row)
    {
      assert Hears(g, p, c);
      ChildIsSame(g, p, Append(f), c);
    }
    if FilterRow(g, p, row) {
      var c :| c in g.nodes[p].children && Hears(g, p, c) && g.nodes[c].enabled && Accepts(g, c, row);
      assert Hears(h, p, c);
    }
    if g.nodes[f].enabled && Accepts(g, f, row) {
      assert f in h.nodes[p].children && Hears(h, p, f) && h.nodes[f].enabled && Accepts(h, f, row);
    }
    if FilterRow(h, p, row) {
      var c :| c in h.nodes[p].children && Hears(h, p, c) && h.nodes[c].enabled && Accepts(h, c, row);
      assert c != f ==> Hears(g, p, c);
    }
  }

  /** Appending a child to AllOf keeps exactly the rows the child accepts. */
  lemma AllOfShrinks(g: Graph, p: Ptr, f: Ptr, row: Row)
    requires WellFormed(g) && Legal(g, p, Append(f)) && WellFormed(Changed(g, p, Append(f)))
    requires Plain(g, p) && g.nodes[p].kind.AllOf?
    ensures Accepts(Changed(g, p, Append(f)), p, row) <==> Accepts(g, p, row) && Accepts(g, f, row)
  {
    var h := Changed(g, p, Append(f));
    assert h.nodes[p].children == g.nodes[p].children + [f];
    assert Hears(h, p, f);
    ChildIsSame(g, p, Append(f), f);
    forall c | c in g.nodes[p].children
      ensures Hears(g, p, c) && Hears(h, p, c) && c in h.nodes[p].children && c in h.nodes
      ensures Accepts(h, c, row) == Accepts(g, c, row)
    {
      assert Hears(g, p, c);
      ChildIsSame(g, p, Append(f), c);
    }
    assert forall c :: c in h.nodes[p].children ==> c == f || c in g.nodes[p].children;
    assert FilterRow(h, p, row) ==> Accepts(h, f, row);
  }

  /** With one child, which is enabled, either container accepts what the child does. */
  lemma OneChildDecides(g: Graph, p: Ptr, c: Ptr, row: Row)
    requires WellFormed(g) && Plain(g, p) && !g.nodes[p].kind.Leaf?
    requires g.nodes[p].children == [c] && Hears(g, p, c) && g.nodes[c].enabled
    ensures Accepts(g, p, row) <==> Accepts(g, c, row)
  {
    assert c in g.nodes[p].children;
  }

  /** Inverting an enabled filter exchanges the rows it accepts and those it rejects. */
  lemma InvertedExchanges(g: Graph, p: Ptr, row: Row)
    requires WellFormed(g) && p in g.nodes && g.nodes[p].enabled
    requires WellFormed(Changed(g, p, Change.SetInverted(!g.nodes[p].inverted)))
    ensures Accepts(Changed(g, p, Change.SetInverted(!g.nodes[p].inverted)), p, row) <==> !Accepts(g, p, row)
  {
    var c := Change.SetInverted(!g.nodes[p].inverted);
    var h := Changed(g, p, c);
    forall k | k in g.nodes[p].children
      ensures Hears(g, p, k) && Hears(h, p, k) && k in h.nodes
      ensures g.nodes[k].enabled == h.nodes[k].enabled && Accepts(h, k, row) == Accepts(g, k, row)
    {
      assert Hears(g, p, k);
      ChildIsSame(g, p, c, k);
    }
    assert FilterRow(h, p, row) == FilterRow(g, p, row) by {
      SameDecision(g, h, p, row);
    }
  }

  lemma SameDecision(g: Graph, h: Graph, p: Ptr, row: Row)
    requires WellFormed(g) && WellFormed(h) && p in g.nodes && p in h.nodes
    requires h.nodes[p].kind == g.nodes[p].kind && h.nodes[p].children == g.nodes[p].children
    requires h.nodes[p].test == g.nodes[p].test
    requires forall k :: k in g.nodes[p].children ==>
      && Hears(g, p, k) && Hears(h, p, k) && k in h.nodes
      && g.nodes[k].enabled == h.nodes[k].enabled && Accepts(h, k, row) == Accepts(g, k, row)
    ensures FilterRow(h, p, row) == FilterRow(g, p, row)
  {
  }

  /** A disabled filter accepts every row; an enabled leaf, if not inverted, those of its test. */
  lemma DisabledAndLeaf(g: Graph, p: Ptr, test: Row -> bool, row: Row)
    requires WellFormed(g) && p in g.nodes
    ensures WellFormed(Changed(g, p, Change.SetEnabled(false)))
      && Accepts(Changed(g, p, Change.SetEnabled(false)), p, row)
    ensures Plain(g, p) && g.nodes[p].kind.Leaf? ==>
      && WellFormed(Changed(g, p, Change.SetTest(test)))
      && (Accepts(Changed(g, p, Change.SetTest(test)), p, row) <==> test(row))
  {
    ChangedIsWellFormed(g, p, Change.SetEnabled(false));
    if g.nodes[p].kind.Leaf? {
      ChangedIsWellFormed(g, p, Change.SetTest(test));
    }
  }

  /** What makes nobody emit: a flag set to what it is, and anything but the flag of a disabled
      filter; whatever else is called, the filter itself emits. */
  lemma HeardExactly(g: Graph, p: Ptr, c: Change)
    requires WellFormed(g) && Legal(g, p, c)
    ensures HeardOf(g, p, c) == {} <==>
      || c == Change.SetEnabled(g.nodes[p].enabled)
      || c == Change.SetInverted(g.nodes[p].inverted)
      || (!g.nodes[p].enabled && !c.SetEnabled?)
    ensures HeardOf(g, p, c) != {} ==> p in HeardOf(g, p, c)
  {
    ChangedIsWellFormed(g, p, c);
    assert Emits(Changed(g, p, c), p, p);
    if EmitsItself(g.nodes[p], c) {
      assert p in HeardOf(g, p, c);
    }
  }

  /** A disabled container passes no signal on. */
  lemma DisabledIsSilent(g: Graph, p: Ptr, q: Ptr)
    requires WellFormed(g) && q in g.nodes && q != p && !g.nodes[q].enabled
    ensures !Emits(g, p, q) && q !in EmittersFrom(g, p)
  {
  }

  // ---- the objects and their signals ---------------------------------------------------------------

  class Scene {
    var nodes: map<Ptr, Node>
    var listeners: map<Ptr, set<Ptr>>
    const top: nat                       // no filter is nested deeper

    ghost function Contents(): Graph
      reads this
    {
      Graph(nodes, listeners)
    }

    ghost predicate Valid()
      reads this
    {
      WellFormed(Contents()) && forall q :: q in nodes ==> nodes[q].level < top
    }

    constructor (top: nat)
      ensures Valid() && nodes == map[] && listeners == map[] && this.top == top
    {
      this.top := top;
      nodes, listeners := map[], map[];
    }

    /** A new filter, enabled, not inverted, in no container. */
    method Create(kind: Kind, level: nat, test: Row -> bool) returns (p: Ptr)
      requires Valid() && level < top
      modifies this
      ensures Valid() && p !in old(nodes)
      ensures nodes == old(nodes)[p := Node(kind, level, true, false, test, [])]
      ensures listeners == old(listeners)[p := {}]
    {
      ghost var free := FreeExists(nodes.Keys);
      p :| p !in nodes;
      ghost var g := Contents();
      nodes := nodes[p := Node(kind, level, true, false, test, [])];
      listeners := listeners[p := {}];
      assert forall q, k :: Hears(Contents(), q, k) <==> Hears(g, q, k);
    }

    /** p emits `invalidated`: every container connected to it calls its own invalidate(). The
        filters that emit, p included. */
    method Signal(p: Ptr) returns (emitters: set<Ptr>)
      requires Valid() && p in nodes
      ensures emitters == EmittersFrom(Contents(), p)
      decreases top - nodes[p].level, 1
    {
      emitters := {p};
      var todo := listeners[p];
      while todo != {}
        invariant todo <= listeners[p]
        invariant emitters == {p} + Through(Contents(), p, listeners[p] - todo)
      {
        var l :| l in todo;
        assert Hears(Contents(), l, p);
        var more := Invalidate(l);
        ThroughMore(Contents(), p, todo, l);
        emitters := emitters + more;
        todo := todo - {l};
      }
      ThroughAll(Contents(), p);
    }

    /** Filter::invalidate. */
    method Invalidate(p: Ptr) returns (emitters: set<Ptr>)
      requires Valid() && p in nodes
      ensures emitters == if nodes[p].enabled then EmittersFrom(Contents(), p) else {}
      decreases top - nodes[p].level, 2
    {
      emitters := {};
      if nodes[p].enabled {
        emitters := Signal(p);
      }
    }

    method SetEnabled(p: Ptr, on: bool) returns (emitters: set<Ptr>)
      requires Valid() && p in nodes
      modifies this`nodes
      ensures Valid() && Contents() == Changed(old(Contents()), p, Change.SetEnabled(on))
      ensures emitters == HeardOf(old(Contents()), p, Change.SetEnabled(on))
    {
      ChangedIsWellFormed(Contents(), p, Change.SetEnabled(on));
      if nodes[p].enabled == on {
        assert nodes[p := nodes[p]] == nodes;
        return {};
      }
      nodes := nodes[p := nodes[p].(enabled := on)];
      emitters := Signal(p);
    }

    method SetInverted(p: Ptr, on: bool) returns (emitters: set<Ptr>)
      requires Valid() && p in nodes
      modifies this`nodes
      ensures Valid() && Contents() == Changed(old(Contents()), p, Change.SetInverted(on))
      ensures emitters == HeardOf(old(Contents()), p, Change.SetInverted(on))
    {
      ChangedIsWellFormed(Contents(), p, Change.SetInverted(on));
      if nodes[p].inverted == on {
        assert nodes[p := nodes[p]] == nodes;
        return {};
      }
      nodes := nodes[p := nodes[p].(inverted := on)];
      emitters := Invalidate(p);
    }

    /** A leaf's own property: the setter of a subclass, which calls invalidate(). */
    method SetTest(p: Ptr, test: Row -> bool) returns (emitters: set<Ptr>)
      requires Valid() && Legal(Contents(), p, Change.SetTest(test))
      modifies this`nodes
      ensures Valid() && Contents() == Changed(old(Contents()), p, Change.SetTest(test))
      ensures emitters == HeardOf(old(Contents()), p, Change.SetTest(test))
    {
      ChangedIsWellFormed(Contents(), p, Change.SetTest(test));
      nodes := nodes[p := nodes[p].(test := test)];
      emitters := Invalidate(p);
    }

    /** appendFilter and FilterContainerFilter::onFilterAppended. */
    method AppendFilter(p: Ptr, f: Ptr) returns (emitters: set<Ptr>)
      requires Valid() && Legal(Contents(), p, Append(f))
      modifies this`nodes, this`listeners
      ensures Valid() && Contents() == Changed(old(Contents()), p, Append(f))
      ensures emitters == HeardOf(old(Contents()), p, Append(f))
    {
      ChangedIsWellFormed(Contents(), p, Append(f));
      nodes := nodes[p := nodes[p].(children := nodes[p].children + [f])];
      listeners := listeners[f := listeners[f] + {p}];
      emitters := Invalidate(p);
    }

    /** removeFilter: the connection stays. */
    method RemoveFilter(p: Ptr, f: Ptr) returns (emitters: set<Ptr>)
      requires Valid() && Legal(Contents(), p, Remove(f))
      modifies this`nodes
      ensures Valid() && Contents() == Changed(old(Contents()), p, Remove(f))
      ensures emitters == HeardOf(old(Contents()), p, Remove(f))
    {
      ChangedIsWellFormed(Contents(), p, Remove(f));
      nodes := nodes[p := nodes[p].(children := RemoveOne(nodes[p].children, f))];
      emitters := Invalidate(p);
    }

    method ClearFilters(p: Ptr) returns (emitters: set<Ptr>)
      requires Valid() && Legal(Contents(), p, Clear)
      modifies this`nodes
      ensures Valid() && Contents() == Changed(old(Contents()), p, Clear)
      ensures emitters == HeardOf(old(Contents()), p, Clear)
    {
      ChangedIsWellFormed(Contents(), p, Clear);
      nodes := nodes[p := nodes[p].(children := [])];
      emitters := Invalidate(p);
    }
  }

  /** The filters that emit because of a call. */
  ghost function HeardOf(g: Graph, p: Ptr, c: Change): set<Ptr>
    requires WellFormed(g) && Legal(g, p, c)
  {
    ChangedIsWellFormed(g, p, c);
    if EmitsItself(g.nodes[p], c) then EmittersFrom(Changed(g, p, c), p) else {}
  }

  /** What the enabled ones among some listeners of p emit. */
  ghost function Through(g: Graph, p: Ptr, some: set<Ptr>): set<Ptr>
    requires WellFormed(g)
  {
    set q | q in g.nodes && exists l :: l in some && Hears(g, l, p) && g.nodes[l].enabled && Emits(g, l, q)
  }

  lemma ThroughMore(g: Graph, p: Ptr, todo: set<Ptr>, l: Ptr)
    requires WellFormed(g) && p in g.nodes && l in todo && todo <= g.listeners[p]
    ensures Hears(g, l, p)
    ensures {p} + Through(g, p, g.listeners[p] - (todo - {l})) ==
      ({p} + Through(g, p, g.listeners[p] - todo)) + if g.nodes[l].enabled then EmittersFrom(g, l) else {}
  {
    assert g.listeners[p] - (todo - {l}) == (g.listeners[p] - todo) + {l};
  }

  lemma ThroughAll(g: Graph, p: Ptr)
    requires WellFormed(g) && p in g.nodes
    ensures {p} + Through(g, p, g.listeners[p] - {}) == EmittersFrom(g, p)
  {
    assert g.listeners[p] - {} == g.listeners[p];
    forall q | q in g.nodes ensures q in {p} + Through(g, p, g.listeners[p]) <==> Emits(g, p, q) {
      EmitsForward(g, p, q);
    }
  }
}
