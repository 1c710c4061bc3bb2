/**
 The bookkeeping of SearchContext as a value: what is alive, and the five linked tables.
 An object is its address; `new` returns any address that no live object has.
 */
module GameDb {
  import opened StdHelpers

  type Ptr = nat

  datatype Db = Db(
    names: map<Ptr, string>,               // the live collections and their names
    games: set<Ptr>,                       // the live games
    parentOf: map<Ptr, Ptr>,               // the live game files and the game each belongs to
    collections: map<string, Ptr>,
    collectionGames: map<Ptr, seq<Ptr>>,
    gameEntries: map<Ptr, seq<Ptr>>,
    byPath: map<string, Ptr>,
    byUri: map<string, Ptr>,
    parentless: seq<Ptr>
  )

  const EMPTY := Db(map[], {}, map[], map[], map[], map[], map[], map[], [])

  ghost predicate Free(db: Db, p: Ptr) {
    p !in db.names && p !in db.games && p !in db.parentOf
  }

  // ---- the calls a provider can make -------------------------------------------------

  datatype Op =
    | GetCollection(name: string, at: Ptr)
    | CreateGameFor(coll: Ptr, at: Ptr)
    | CreateGame(at: Ptr)
    | AddPath(game: Ptr, key: string, at: Ptr)
    | AddUri(game: Ptr, key: string, at: Ptr)
    | AddTo(game: Ptr, coll: Ptr)

  /** The references a call receives are to live objects, and `new` finds a free address. */
  ghost predicate Enabled(db: Db, op: Op) {
    match op
    case GetCollection(_, a) => Free(db, a)
    case CreateGameFor(c, a) => c in db.names && Free(db, a)
    case CreateGame(a) => Free(db, a)
    case AddPath(g, _, a) => g in db.games && Free(db, a)
    case AddUri(g, _, a) => g in db.games && Free(db, a)
    case AddTo(g, c) => g in db.games && c in db.names
  }

  /** m[k].emplace_back(x), where a missing key starts as the empty vector. */
  function Push(m: map<Ptr, seq<Ptr>>, k: Ptr, x: Ptr): map<Ptr, seq<Ptr>> {
    m[k := (if k in m then m[k] else []) + [x]]
  }

  function WithFile(db: Db, g: Ptr, a: Ptr): Db {
    db.(parentOf := db.parentOf[a := g], gameEntries := Push(db.gameEntries, g, a))
  }

  function Step(db: Db, op: Op): Db {
    match op
    case GetCollection(name, a) =>
      if name in db.collections then db
      else db.(names := db.names[a := name], collections := db.collections[name := a])
    case CreateGameFor(c, a) =>
      db.(games := db.games + {a}, collectionGames := Push(db.collectionGames, c, a))
    case CreateGame(a) =>
      db.(games := db.games + {a}, parentless := db.parentless + [a])
    case AddPath(g, key, a) =>
      if key in db.byPath then db else WithFile(db, g, a).(byPath := db.byPath[key := a])
    case AddUri(g, key, a) =>
      if key in db.byUri then db else WithFile(db, g, a).(byUri := db.byUri[key := a])
    case AddTo(g, c) =>
      db.(collectionGames := Push(db.collectionGames, c, g),
          parentless := Filter(db.parentless, OtherThan(g)))
  }

  // ---- what every reachable state keeps ----------------------------------------------

  ghost predicate Separate(db: Db) {
    && db.names.Keys !! db.games
    && db.names.Keys !! db.parentOf.Keys
    && db.games !! db.parentOf.Keys
  }

  /** Collections and names are in one-to-one correspondence. */
  ghost predicate NamesAgree(db: Db) {
    && (forall n :: n in db.collections ==>
          db.collections[n] in db.names && db.names[db.collections[n]] == n)
    && (forall c :: c in db.names ==>
          db.names[c] in db.collections && db.collections[db.names[c]] == c)
  }

  ghost predicate Has(m: map<Ptr, seq<Ptr>>, k: Ptr, x: Ptr) {
    k in m && x in m[k]
  }

  ghost predicate Lists(db: Db, c: Ptr, g: Ptr) {
    Has(db.collectionGames, c, g)
  }

  ghost predicate Collected(db: Db, g: Ptr) {
    exists c :: Lists(db, c, g)
  }

  ghost predicate ListsAreLive(db: Db) {
    && db.collectionGames.Keys <= db.names.Keys
    && (forall c, g :: Lists(db, c, g) ==> g in db.games)
  }

  /** Every created game is either parentless or in some collection list, never both. */
  ghost predicate ParentlessOrCollected(db: Db) {
    && NoDup(db.parentless)
    && (forall g :: g in db.parentless ==> g in db.games)
    && (forall g :: g in db.games ==> (g in db.parentless <==> !Collected(db, g)))
  }

  /** A file is exactly once in the entries of its parent, and nowhere else. */
  ghost predicate EntriesAgree(db: Db) {
    && db.gameEntries.Keys <= db.games
    && (forall g :: g in db.gameEntries ==> db.gameEntries[g] != [] && NoDup(db.gameEntries[g]))
    && (forall g, f :: Has(db.gameEntries, g, f) <==> f in db.parentOf && db.parentOf[f] == g)
  }

  /** A path or uri leads to a live file; no two of them lead to the same one. */
  ghost predicate KeysAgree(db: Db) {
    && db.byPath.Values + db.byUri.Values == db.parentOf.Keys
    && db.byPath.Values !! db.byUri.Values
    && Injective(db.byPath) && Injective(db.byUri)
  }

  ghost predicate Injective(m: map<string, Ptr>) {
    forall p, q :: p in m && q in m && m[p] == m[q] ==> p == q
  }

  ghost predicate Inv(db: Db) {
    && Separate(db)
    && NamesAgree(db)
    && ListsAreLive(db)
    && ParentlessOrCollected(db)
    && EntriesAgree(db)
    && KeysAgree(db)
  }

  lemma StepKeepsSeparate(db: Db, op: Op)
    requires Separate(db) && Enabled(db, op)
    ensures Separate(Step(db, op))
  {
  }

  lemma StepKeepsNames(db: Db, op: Op)
    requires NamesAgree(db) && Enabled(db, op)
    ensures NamesAgree(Step(db, op))
  {
    if op.GetCollection? && op.name !in db.collections {
      var db' := Step(db, op);
      forall c | c in db'.names
        ensures db'.names[c] in db'.collections && db'.collections[db'.names[c]] == c
      {
        if c != op.at { assert db.names[c] != op.name; }
      }
    }
  }

  lemma PushHas(m: map<Ptr, seq<Ptr>>, k: Ptr, x: Ptr)
    ensures forall k', x' :: Has(Push(m, k, x), k', x') <==> Has(m, k', x') || (k' == k && x' == x)
  {
  }

  lemma PushLists(db: Db, db': Db, c: Ptr, g: Ptr)
    requires db'.collectionGames == Push(db.collectionGames, c, g)
    ensures forall c', g' :: Lists(db', c', g') <==> Lists(db, c', g') || (c' == c && g' == g)
    ensures forall g' :: Collected(db', g') <==> Collected(db, g') || g' == g
  {
    PushHas(db.collectionGames, c, g);
    assert Lists(db', c, g);
    forall g' | Collected(db, g') ensures Collected(db', g') {
      var c' :| Lists(db, c', g');
      assert Lists(db', c', g');
    }
  }

  lemma CreateKeepsLists(db: Db, c: Ptr, a: Ptr)
    requires ListsAreLive(db) && ParentlessOrCollected(db) && Enabled(db, CreateGameFor(c, a))
    ensures ListsAreLive(Step(db, CreateGameFor(c, a))) && ParentlessOrCollected(Step(db, CreateGameFor(c, a)))
  {
    PushLists(db, Step(db, CreateGameFor(c, a)), c, a);
  }

  lemma AddToKeepsLists(db: Db, g: Ptr, c: Ptr)
    requires ListsAreLive(db) && ParentlessOrCollected(db) && Enabled(db, AddTo(g, c))
    ensures ListsAreLive(Step(db, AddTo(g, c))) && ParentlessOrCollected(Step(db, AddTo(g, c)))
  {
    PushLists(db, Step(db, AddTo(g, c)), c, g);
    FilterNoDup(db.parentless, OtherThan(g));
  }

  lemma StepKeepsLists(db: Db, op: Op)
    requires ListsAreLive(db) && ParentlessOrCollected(db) && Enabled(db, op)
    ensures ListsAreLive(Step(db, op)) && ParentlessOrCollected(Step(db, op))
  {
    var db' := Step(db, op);
    match op
    case CreateGameFor(c, a) =>
      CreateKeepsLists(db, c, a);
    case AddTo(g, c) =>
      AddToKeepsLists(db, g, c);
    case CreateGame(a) =>
      SameLists(db, db');
      assert !Collected(db, a);
    case _ =>
      SameLists(db, db');
  }

  lemma SameLists(db: Db, db': Db)
    requires db'.collectionGames == db.collectionGames
    ensures forall c, g :: Lists(db', c, g) <==> Lists(db, c, g)
    ensures forall g :: Collected(db', g) <==> Collected(db, g)
  {
    forall g ensures Collected(db', g) <==> Collected(db, g) {
      if Collected(db, g) { var c :| Lists(db, c, g); assert Lists(db', c, g); }
      if Collected(db', g) { var c :| Lists(db', c, g); assert Lists(db, c, g); }
    }
  }

  lemma FileKeepsEntries(db: Db, g: Ptr, a: Ptr)
    requires EntriesAgree(db) && g in db.games && a !in db.parentOf
    ensures EntriesAgree(WithFile(db, g, a))
  {
    PushHas(db.gameEntries, g, a);
    assert !Has(db.gameEntries, g, a);
  }

  lemma NewKey(m: map<string, Ptr>, key: string, a: Ptr)
    requires key !in m && a !in m.Values && Injective(m)
    ensures m[key := a].Values == m.Values + {a} && Injective(m[key := a])
  {
    var m' := m[key := a];
    assert key in m' && m'[key] == a;
    forall k | k in m ensures m[k] in m'.Values && m[k] != a {
      assert m'[k] == m[k];
    }
  }

  lemma FileKeepsPaths(db: Db, g: Ptr, key: string, a: Ptr)
    requires KeysAgree(db) && a !in db.parentOf && key !in db.byPath
    ensures KeysAgree(WithFile(db, g, a).(byPath := db.byPath[key := a]))
  {
    assert a !in db.byPath.Values + db.byUri.Values;
    NewKey(db.byPath, key, a);
  }

  lemma FileKeepsUris(db: Db, g: Ptr, key: string, a: Ptr)
    requires KeysAgree(db) && a !in db.parentOf && key !in db.byUri
    ensures KeysAgree(WithFile(db, g, a).(byUri := db.byUri[key := a]))
  {
    assert a !in db.byPath.Values + db.byUri.Values;
    NewKey(db.byUri, key, a);
  }

  lemma StepKeepsFiles(db: Db, op: Op)
    requires EntriesAgree(db) && KeysAgree(db) && Enabled(db, op)
    ensures EntriesAgree(Step(db, op)) && KeysAgree(Step(db, op))
  {
    match op
    case AddPath(g, key, a) =>
      FileKeepsEntries(db, g, a);
      if key !in db.byPath { FileKeepsPaths(db, g, key, a); }
    case AddUri(g, key, a) =>
      FileKeepsEntries(db, g, a);
      if key !in db.byUri { FileKeepsUris(db, g, key, a); }
    case _ =>
  }

  lemma StepKeepsInv(db: Db, op: Op)
    requires Inv(db) && Enabled(db, op)
    ensures Inv(Step(db, op))
  {
    StepKeepsSeparate(db, op);
    StepKeepsNames(db, op);
    StepKeepsLists(db, op);
    StepKeepsFiles(db, op);
  }

  // ---- whole runs --------------------------------------------------------------------

  /** The state after the calls ops, made in this order on a new context. */
  ghost function Run(ops: seq<Op>): Db {
    if ops == [] then EMPTY else Step(Run(ops[..|ops| - 1]), ops[|ops| - 1])
  }

  ghost predicate Possible(ops: seq<Op>) {
    ops != [] ==> Possible(ops[..|ops| - 1]) && Enabled(Run(ops[..|ops| - 1]), ops[|ops| - 1])
  }

  lemma {:induction false} RunKeepsInv(ops: seq<Op>)
    requires Possible(ops)
    ensures Inv(Run(ops))
  {
    if ops == [] {
      assert EMPTY.byPath.Values == {} && EMPTY.byUri.Values == {};
    } else {
      RunKeepsInv(ops[..|ops| - 1]);
      StepKeepsInv(Run(ops[..|ops| - 1]), ops[|ops| - 1]);
    }
  }

  lemma RunLast(ops: seq<Op>, op: Op)
    ensures Run(ops + [op]) == Step(Run(ops), op)
    ensures Possible(ops + [op]) <==> Possible(ops) && Enabled(Run(ops), op)
  {
    assert (ops + [op])[..|ops|] == ops;
  }

  lemma StepKeepsKeys(db: Db, op: Op, key: string)
    ensures key in db.byPath ==> key in Step(db, op).byPath && Step(db, op).byPath[key] == db.byPath[key]
    ensures key in db.byUri ==> key in Step(db, op).byUri && Step(db, op).byUri[key] == db.byUri[key]
  {
  }

  /** A registered path or uri keeps leading to the file it led to first, whatever is called
      later, and registering it again under any game changes nothing. */
  lemma {:induction false} FirstFileStays(ops: seq<Op>, later: seq<Op>, key: string, g: Ptr, a: Ptr)
    ensures key in Run(ops).byPath ==>
              && key in Run(ops + later).byPath
              && Run(ops + later).byPath[key] == Run(ops).byPath[key]
              && Step(Run(ops + later), AddPath(g, key, a)) == Run(ops + later)
    ensures key in Run(ops).byUri ==>
              && key in Run(ops + later).byUri
              && Run(ops + later).byUri[key] == Run(ops).byUri[key]
              && Step(Run(ops + later), AddUri(g, key, a)) == Run(ops + later)
    decreases |later|
  {
    if later == [] {
      assert ops + later == ops;
    } else {
      var init, last := later[..|later| - 1], later[|later| - 1];
      assert ops + later == (ops + init) + [last];
      FirstFileStays(ops, init, key, g, a);
      RunLast(ops + init, last);
      StepKeepsKeys(Run(ops + init), last, key);
    }
  }

  // ---- what a run did, told from its calls alone ---------------------------------------

  predicate Creates(op: Op, g: Ptr) {
    (op.CreateGameFor? || op.CreateGame?) && op.at == g
  }

  predicate Links(op: Op, c: Ptr, g: Ptr) {
    op == CreateGameFor(c, g) || op == AddTo(g, c)
  }

  predicate UsesKey(op: Op, uri: bool, key: string) {
    (if uri then op.AddUri? else op.AddPath?) && op.key == key
  }

  /** Some call created g. */
  ghost predicate WasCreated(ops: seq<Op>, g: Ptr) {
    exists op :: op in ops && Creates(op, g)
  }

  /** Some call put g into collection c. */
  ghost predicate WasLinked(ops: seq<Op>, c: Ptr, g: Ptr) {
    exists op :: op in ops && Links(op, c, g)
  }

  ghost predicate KeyUsed(ops: seq<Op>, uri: bool, key: string) {
    exists op :: op in ops && UsesKey(op, uri, key)
  }

  /** op names, under g, a path or uri that none of the earlier calls has named. */
  ghost predicate Registers(earlier: seq<Op>, op: Op, g: Ptr) {
    (op.AddPath? || op.AddUri?) && op.game == g && !KeyUsed(earlier, op.AddUri?, op.key)
  }

  ghost predicate OwnsFile(ops: seq<Op>, g: Ptr) {
    exists i :: 0 <= i < |ops| && Registers(ops[..i], ops[i], g)
  }

  lemma StepHistory(db: Db, op: Op, c: Ptr, g: Ptr)
    ensures g in Step(db, op).games <==> g in db.games || Creates(op, g)
    ensures Lists(Step(db, op), c, g) <==> Lists(db, c, g) || Links(op, c, g)
  {
  }

  lemma StepKeys(db: Db, op: Op, key: string)
    ensures key in Step(db, op).byPath <==> key in db.byPath || UsesKey(op, false, key)
    ensures key in Step(db, op).byUri <==> key in db.byUri || UsesKey(op, true, key)
  {
  }

  lemma HistoryLast(init: seq<Op>, last: Op, c: Ptr, g: Ptr, key: string)
    ensures WasCreated(init + [last], g) <==> WasCreated(init, g) || Creates(last, g)
    ensures WasLinked(init + [last], c, g) <==> WasLinked(init, c, g) || Links(last, c, g)
    ensures forall uri :: KeyUsed(init + [last], uri, key) <==> KeyUsed(init, uri, key) || UsesKey(last, uri, key)
  {
    assert forall op :: op in init + [last] <==> op in init || op == last;
  }

  /** The tables of a reachable state, read back as facts about the calls that were made. */
  lemma {:induction false} HistoryOfRun(ops: seq<Op>, c: Ptr, g: Ptr, key: string)
    ensures g in Run(ops).games <==> WasCreated(ops, g)
    ensures Lists(Run(ops), c, g) <==> WasLinked(ops, c, g)
    ensures key in Run(ops).byPath <==> KeyUsed(ops, false, key)
    ensures key in Run(ops).byUri <==> KeyUsed(ops, true, key)
  {
    if ops != [] {
      var init, last := ops[..|ops| - 1], ops[|ops| - 1];
      assert ops == init + [last];
      HistoryOfRun(init, c, g, key);
      HistoryLast(init, last, c, g, key);
      StepHistory(Run(init), last, c, g);
      StepKeys(Run(init), last, key);
    }
  }

  lemma OwnsFileLast(init: seq<Op>, last: Op, g: Ptr)
    ensures OwnsFile(init + [last], g) <==> OwnsFile(init, g) || Registers(init, last, g)
  {
    var ops := init + [last];
    assert ops[..|init|] == init;
    assert forall i :: 0 <= i < |init| ==> ops[..i] == init[..i];
    if OwnsFile(init, g) {
      var i :| 0 <= i < |init| && Registers(init[..i], init[i], g);
      assert Registers(ops[..i], ops[i], g);
    } else if Registers(init, last, g) {
      assert Registers(ops[..|init|], ops[|init|], g);
    }
  }

  lemma StepEntries(db: Db, op: Op, g: Ptr)
    ensures g in Step(db, op).gameEntries <==>
      || g in db.gameEntries
      || (op.AddPath? && op.game == g && op.key !in db.byPath)
      || (op.AddUri? && op.game == g && op.key !in db.byUri)
  {
  }

  lemma {:induction false} FilesOfRun(ops: seq<Op>, g: Ptr)
    ensures g in Run(ops).gameEntries <==> OwnsFile(ops, g)
  {
    if ops != [] {
      var init, last := ops[..|ops| - 1], ops[|ops| - 1];
      FilesOfRun(init, g);
      assert ops == init + [last];
      OwnsFileLast(init, last, g);
      StepEntries(Run(init), last, g);
      match last
      case AddPath(_, key, _) => HistoryOfRun(init, 0, 0, key);
      case AddUri(_, key, _) => HistoryOfRun(init, 0, 0, key);
      case _ =>
    }
  }
}
