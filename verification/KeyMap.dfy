/** appsettings::Keys: which key sequences trigger which event. */
module KeyMap {
  import opened StdHelpers

  datatype KeyEvent =
    | Accept | Cancel | Details | Filters | NextPage | PrevPage | PageUp | PageDown
    | MainMenu | Netplay | Guide
    | Left | Right | Up | Down            // internal only, never written to the settings

  predicate Internal(e: KeyEvent) {
    e.Left? || e.Right? || e.Up? || e.Down?
  }

  /** A QKeySequence: the key codes pressed one after the other. */
  type KeySeq = seq<nat>

  type Bindings = map<KeyEvent, seq<KeySeq>>

  const GAMEPAD_A: nat := 0x100000

  /** The rows of default_keymap; gamepad codes count up from A in GamepadKeyId's order. */
  function Default(e: KeyEvent): seq<KeySeq> {
    match e
    case Left => [[0x01000012]]
    case Right => [[0x01000014]]
    case Up => [[0x01000013]]
    case Down => [[0x01000015]]
    case Accept => [[0x01000004], [0x01000005], [GAMEPAD_A]]
    case Cancel => [[0x01000000], [GAMEPAD_A + 1]]
    case Details => [[0x49], [GAMEPAD_A + 2]]
    case Filters => [[0x46], [GAMEPAD_A + 3]]
    case NextPage => [[0x45], [0x44], [GAMEPAD_A + 7]]
    case PrevPage => [[0x51], [0x41], [GAMEPAD_A + 4]]
    case PageUp => [[0x01000016], [GAMEPAD_A + 5]]
    case PageDown => [[0x01000017], [GAMEPAD_A + 8]]
    case MainMenu => [[0x01000030], [GAMEPAD_A + 11]]
    case Netplay => [[0x01000031], [GAMEPAD_A + 10]]
    case Guide => [[0x01000032], [GAMEPAD_A + 12]]
  }

  function DefaultKeymap(): Bindings {
    map e: KeyEvent | true :: Default(e)
  }

  function RemoveEverywhere(m: Bindings, k: KeySeq): Bindings {
    map e | e in m :: RemoveOne(m[e], k)
  }

  ghost predicate Total(m: Bindings) {
    forall e: KeyEvent :: e in m
  }

  function AddKey(m: Bindings, e: KeyEvent, k: KeySeq): Bindings
    requires e in m
  {
    var m' := RemoveEverywhere(m, k);
    m'[e := m'[e] + [k]]
  }

  datatype KeyOp = Add(e: KeyEvent, k: KeySeq) | Del(e: KeyEvent, k: KeySeq) | Clear(e: KeyEvent) | ResetAll

  function Step(m: Bindings, op: KeyOp): Bindings
    requires forall e: KeyEvent :: e in m
  {
    match op
    case Add(e, k) => AddKey(m, e, k)
    case Del(e, k) => m[e := RemoveOne(m[e], k)]
    case Clear(e) => m[e := []]
    case ResetAll => DefaultKeymap()
  }

  /** Every key sequence is bound to at most one event, and at most once. */
  ghost predicate Exclusive(m: Bindings) {
    && (forall e :: e in m ==> NoDup(m[e]))
    && (forall e, f, k :: e in m && f in m && k in m[e] && k in m[f] ==> e == f)
  }

  lemma NoDupCons(x: KeySeq, v: seq<KeySeq>)
    requires NoDup(v)
    ensures x !in v ==> NoDup([x] + v) && NoDup(v + [x])
  {
  }

  lemma {:induction false} RemoveOneMembers(s: seq<KeySeq>, k: KeySeq)
    requires NoDup(s)
    ensures forall x :: x in RemoveOne(s, k) <==> x in s && x != k
    ensures NoDup(RemoveOne(s, k))
  {
    if s != [] {
      assert s == [s[0]] + s[1..];
      RemoveOneMembers(s[1..], k);
      assert s[0] !in s[1..];
      NoDupCons(s[0], RemoveOne(s[1..], k));
    }
  }

  lemma {:induction false} RemoveOneAbsent(s: seq<KeySeq>, k: KeySeq)
    requires k !in s
    ensures RemoveOne(s, k) == s
  {
    if s != [] {
      RemoveOneAbsent(s[1..], k);
    }
  }

  /** The event a default key sequence is bound to: the table read the other way round. */
  function DefaultOwner(k: KeySeq): KeyEvent {
    if |k| != 1 then Left
    else
      var c := k[0];
      if c == 0x01000012 then Left else if c == 0x01000014 then Right
      else if c == 0x01000013 then Up else if c == 0x01000015 then Down
      else if c == 0x01000004 || c == 0x01000005 || c == GAMEPAD_A then Accept
      else if c == 0x01000000 || c == GAMEPAD_A + 1 then Cancel
      else if c == 0x49 || c == GAMEPAD_A + 2 then Details
      else if c == 0x46 || c == GAMEPAD_A + 3 then Filters
      else if c == 0x45 || c == 0x44 || c == GAMEPAD_A + 7 then NextPage
      else if c == 0x51 || c == 0x41 || c == GAMEPAD_A + 4 then PrevPage
      else if c == 0x01000016 || c == GAMEPAD_A + 5 then PageUp
      else if c == 0x01000017 || c == GAMEPAD_A + 8 then PageDown
      else if c == 0x01000030 || c == GAMEPAD_A + 11 then MainMenu
      else if c == 0x01000031 || c == GAMEPAD_A + 10 then Netplay
      else Guide
  }

  lemma DefaultRow(e: KeyEvent)
    ensures NoDup(Default(e))
    ensures forall k :: k in Default(e) ==> k != [] && DefaultOwner(k) == e
  {
  }

  lemma DefaultExclusive()
    ensures Total(DefaultKeymap()) && Exclusive(DefaultKeymap())
  {
    forall e: KeyEvent ensures NoDup(Default(e)) && forall k :: k in Default(e) ==> DefaultOwner(k) == e {
      DefaultRow(e);
    }
  }

  lemma RemoveKeepsExclusive(m: Bindings, k: KeySeq)
    requires Exclusive(m)
    ensures Exclusive(RemoveEverywhere(m, k))
    ensures forall e, x :: e in m ==> (x in RemoveEverywhere(m, k)[e] <==> x in m[e] && x != k)
  {
    forall e | e in m
      ensures NoDup(RemoveOne(m[e], k)) && forall x :: x in RemoveOne(m[e], k) <==> x in m[e] && x != k
    {
      RemoveOneMembers(m[e], k);
    }
  }

  lemma StepKeepsExclusive(m: Bindings, op: KeyOp)
    requires Total(m) && Exclusive(m)
    ensures Total(Step(m, op)) && Exclusive(Step(m, op))
  {
    match op
    case Add(e, k) =>
      RemoveKeepsExclusive(m, k);
      NoDupCons(k, RemoveEverywhere(m, k)[e]);
    case Del(e, k) => RemoveOneMembers(m[e], k);
    case Clear(e) =>
    case ResetAll => DefaultExclusive();
  }

  /** What one call does to every list: an added key sequence leaves the others and comes last in
      its own; a deleted or cleared one leaves its own list alone. */
  lemma StepEffects(m: Bindings, op: KeyOp, f: KeyEvent, x: KeySeq)
    requires Total(m) && Exclusive(m)
    ensures op.Add? ==>
      && (x in Step(m, op)[f] <==> if x == op.k then f == op.e else x in m[f])
      && Step(m, op)[op.e] != [] && Step(m, op)[op.e][|Step(m, op)[op.e]| - 1] == op.k
    ensures op.Del? ==> (x in Step(m, op)[f] <==> x in m[f] && !(f == op.e && x == op.k))
    ensures op.Clear? ==> (x in Step(m, op)[f] <==> x in m[f] && f != op.e)
    ensures op.ResetAll? ==> (x in Step(m, op)[f] <==> x in Default(f))
    ensures (op.Del? || op.Clear?) && f != op.e ==> Step(m, op)[f] == m[f]
    ensures op.Add? && f != op.e && op.k !in m[f] ==> Step(m, op)[f] == m[f]
  {
    if op.Add? || op.Del? {
      RemoveOneMembers(m[f], op.k);
      if op.k !in m[f] {
        RemoveOneAbsent(m[f], op.k);
      }
    }
  }

  /** The default key codes: each is bound, and to the event that the table names. */
  const DEFAULT_CODES: seq<nat> := [
    0x01000012, 0x01000014, 0x01000013, 0x01000015, 0x01000004, 0x01000005, 0x01000000, 0x49, 0x46, 0x45, 0x44,
    0x51, 0x41, 0x01000016, 0x01000017, 0x01000030, 0x01000031, 0x01000032,
    GAMEPAD_A, GAMEPAD_A + 1, GAMEPAD_A + 2, GAMEPAD_A + 3, GAMEPAD_A + 4, GAMEPAD_A + 5, GAMEPAD_A + 7,
    GAMEPAD_A + 8, GAMEPAD_A + 10, GAMEPAD_A + 11, GAMEPAD_A + 12]

  lemma DefaultsAreBound(i: nat)
    requires i < |DEFAULT_CODES|
    ensures [DEFAULT_CODES[i]] in DefaultKeymap()[DefaultOwner([DEFAULT_CODES[i]])]
  {
  }

  /** The bindings after the calls ops on a new Keys object. */
  ghost function Run(ops: seq<KeyOp>): (m: Bindings)
    ensures Total(m) && Exclusive(m)
  {
    if ops == [] then
      DefaultExclusive();
      DefaultKeymap()
    else
      var before := Run(ops[..|ops| - 1]);
      StepKeepsExclusive(before, ops[|ops| - 1]);
      Step(before, ops[|ops| - 1])
  }

  class Keys {
    var bindings: Bindings

    ghost predicate Valid()
      reads this
    {
      Total(bindings) && Exclusive(bindings)
    }

    constructor ()
      ensures bindings == DefaultKeymap() && Valid()
    {
      bindings := DefaultKeymap();
      DefaultExclusive();
    }

    method AddKey(e: KeyEvent, k: KeySeq)
      requires Valid()
      modifies this
      ensures Valid() && bindings == Step(old(bindings), Add(e, k))
    {
      StepKeepsExclusive(bindings, Add(e, k));
      var todo := bindings.Keys;
      while todo != {}
        invariant bindings.Keys == old(bindings).Keys && todo <= bindings.Keys
        invariant forall f :: f in bindings ==>
                    bindings[f] == if f in todo then old(bindings)[f] else RemoveOne(old(bindings)[f], k)
      {
        var f :| f in todo;
        bindings, todo := bindings[f := RemoveOne(bindings[f], k)], todo - {f};
      }
      assert bindings == RemoveEverywhere(old(bindings), k);
      bindings := bindings[e := bindings[e] + [k]];
    }

    method DelKey(e: KeyEvent, k: KeySeq)
      requires Valid()
      modifies this
      ensures Valid() && bindings == Step(old(bindings), Del(e, k))
    {
      StepKeepsExclusive(bindings, Del(e, k));
      bindings := bindings[e := RemoveOne(bindings[e], k)];
    }

    method Clear(e: KeyEvent)
      requires Valid()
      modifies this
      ensures Valid() && bindings == Step(old(bindings), KeyOp.Clear(e))
    {
      StepKeepsExclusive(bindings, KeyOp.Clear(e));
      bindings := bindings[e := []];
    }

    method ResetAll()
      requires Valid()
      modifies this
      ensures Valid() && bindings == Step(old(bindings), KeyOp.ResetAll)
    {
      DefaultExclusive();
      bindings := DefaultKeymap();
    }
  }

  // ---- loading saved bindings over any others ---------------------------------------------

  function AddAll(m: Bindings, e: KeyEvent, ks: seq<KeySeq>): (r: Bindings)
    requires e in m
    ensures r.Keys == m.Keys
  {
    if ks == [] then m else AddKey(AddAll(m, e, ks[..|ks| - 1]), e, ks[|ks| - 1])
  }

  /** What reading one saved row does: clear the event, then add its key sequences. */
  function LoadRow(m: Bindings, e: KeyEvent, ks: seq<KeySeq>): (r: Bindings)
    requires e in m
    ensures r.Keys == m.Keys
  {
    AddAll(m[e := []], e, ks)
  }

  function RemoveEach(s: seq<KeySeq>, ks: seq<KeySeq>): seq<KeySeq> {
    if ks == [] then s else RemoveOne(RemoveEach(s, ks[..|ks| - 1]), ks[|ks| - 1])
  }

  lemma {:induction false} AddAllOwn(m: Bindings, e: KeyEvent, ks: seq<KeySeq>)
    requires e in m && m[e] == [] && NoDup(ks)
    ensures AddAll(m, e, ks)[e] == ks
  {
    if ks != [] {
      var init, k := ks[..|ks| - 1], ks[|ks| - 1];
      AddAllOwn(m, e, init);
      RemoveOneAbsent(init, k);
      assert ks == init + [k];
    }
  }

  lemma {:induction false} AddAllOther(m: Bindings, e: KeyEvent, f: KeyEvent, ks: seq<KeySeq>)
    requires e in m && f in m && f != e
    ensures AddAll(m, e, ks)[f] == RemoveEach(m[f], ks)
  {
    if ks != [] {
      AddAllOther(m, e, f, ks[..|ks| - 1]);
    }
  }

  lemma LoadRowRestores(m: Bindings, e: KeyEvent, ks: seq<KeySeq>)
    requires e in m && NoDup(ks)
    ensures LoadRow(m, e, ks)[e] == ks
    ensures forall f :: f in m && f != e && (forall k :: k in ks ==> k !in m[f]) ==> LoadRow(m, e, ks)[f] == m[f]
  {
    AddAllOwn(m[e := []], e, ks);
    forall f | f in m && f != e && (forall k :: k in ks ==> k !in m[f])
      ensures LoadRow(m, e, ks)[f] == m[f]
    {
      AddAllOther(m[e := []], e, f, ks);
      RemoveEachAbsent(m[f], ks);
    }
  }

  lemma {:induction false} RemoveEachAbsent(s: seq<KeySeq>, ks: seq<KeySeq>)
    requires forall k :: k in ks ==> k !in s
    ensures RemoveEach(s, ks) == s
  {
    if ks != [] {
      RemoveEachAbsent(s, ks[..|ks| - 1]);
      RemoveOneAbsent(s, ks[|ks| - 1]);
    }
  }

  /** The rows of saved for the events in order, loaded one after the other. */
  function LoadRows(m: Bindings, saved: Bindings, order: seq<KeyEvent>): (r: Bindings)
    requires forall e: KeyEvent :: e in m && e in saved
    ensures r.Keys == m.Keys
  {
    if order == [] then m
    else LoadRow(LoadRows(m, saved, order[..|order| - 1]), order[|order| - 1], saved[order[|order| - 1]])
  }

  /** Whatever was bound before and whatever the order of the rows, every loaded event ends up
      with exactly its saved list. */
  lemma {:induction false} LoadRowsRestores(m: Bindings, saved: Bindings, order: seq<KeyEvent>, e: KeyEvent)
    requires Total(m) && Total(saved) && Exclusive(saved) && NoDup(order) && e in order
    ensures LoadRows(m, saved, order)[e] == saved[e]
  {
    var init, last := order[..|order| - 1], order[|order| - 1];
    assert order == init + [last];
    LoadRowRestores(LoadRows(m, saved, init), last, saved[last]);
    if e != last {
      LoadRowsRestores(m, saved, init, e);
      assert forall k :: k in saved[last] ==> k !in saved[e];
    }
  }

  /** An event that is not loaded keeps its list if nothing loaded was in it. */
  lemma {:induction false} LoadRowsSpares(m: Bindings, saved: Bindings, order: seq<KeyEvent>, e: KeyEvent)
    requires Total(m) && Total(saved) && Exclusive(saved) && e !in order
    requires forall f, k :: f in order && k in saved[f] ==> k !in m[e]
    ensures LoadRows(m, saved, order)[e] == m[e]
  {
    if order != [] {
      var init, last := order[..|order| - 1], order[|order| - 1];
      assert order == init + [last];
      LoadRowsSpares(m, saved, init, e);
      LoadRowRestores(LoadRows(m, saved, init), last, saved[last]);
    }
  }

  /** If the internal events were not rebound, loading restores the whole saved map. */
  lemma LoadRowsRestoresAll(m: Bindings, saved: Bindings, order: seq<KeyEvent>)
    requires Total(m) && Total(saved) && Exclusive(saved) && NoDup(order)
    requires forall e :: e in order <==> !Internal(e)
    requires forall e :: Internal(e) ==> m[e] == saved[e]
    ensures LoadRows(m, saved, order) == saved
  {
    forall e: KeyEvent ensures LoadRows(m, saved, order)[e] == saved[e] {
      if Internal(e) {
        LoadRowsSpares(m, saved, order, e);
      } else {
        LoadRowsRestores(m, saved, order, e);
      }
    }
  }
}
