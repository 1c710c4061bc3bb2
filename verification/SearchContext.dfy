/** The game database builder: the object that providers fill and `finalize` prunes. */
module SearchContext {
  import opened StdHelpers
  import opened GameDb

  /** What finalize leaves in the collections and games it returns. */
  datatype Result = Result(
    collections: seq<Ptr>,
    games: seq<Ptr>,
    files: map<Ptr, seq<Ptr>>,      // Game::setFiles
    handed: map<Ptr, seq<Ptr>>,     // the list given to Game::setCollections
    stored: map<Ptr, Ptr>,          // the one collection Game::setCollections keeps of it
    listed: map<Ptr, seq<Ptr>>      // Collection::setGames
  )

  /** sort_gamefiles, sort_games and sort_collections: they compare names by the locale's rules. */
  datatype Orders = Orders(file: (Ptr, Ptr) -> bool, game: (Ptr, Ptr) -> bool, coll: (Ptr, Ptr) -> bool)

  ghost predicate WeakOrders(o: Orders) {
    StrictWeakOrder(o.file) && StrictWeakOrder(o.game) && StrictWeakOrder(o.coll)
  }

  function Members(v: seq<Ptr>): set<Ptr> {
    set x | x in v
  }

  /** The state after finalize_cleanup_games. */
  function WithoutParentless(db: Db): Db {
    db.(games := db.games - Members(db.parentless),
        parentOf := map f | f in db.parentOf && db.parentOf[f] !in db.parentless :: db.parentOf[f],
        gameEntries := db.gameEntries - Members(db.parentless))
  }

  function KeptGames(db: Db, c: Ptr): seq<Ptr>
    requires c in db.collectionGames
  {
    Filter(db.collectionGames[c], KeyOf(db.gameEntries))
  }

  function WithoutEmptyLists(db: Db): Db {
    db.(collectionGames := map c | c in db.collectionGames && KeptGames(db, c) != [] :: KeptGames(db, c))
  }

  /** The state after finalize_cleanup_collections. */
  function WithoutGameless(db: Db): Db {
    db.(names := map c | c in db.names && c in db.collectionGames :: db.names[c],
        collections := map n | n in db.collections && db.collections[n] in db.collectionGames :: db.collections[n])
  }

  function Cleaned(db: Db): Db {
    WithoutGameless(WithoutEmptyLists(WithoutParentless(db)))
  }

  /** The games and collections that survive, told from the state before finalize. */
  ghost predicate KeptGame(db: Db, g: Ptr) {
    g in db.gameEntries && Collected(db, g)
  }

  ghost predicate KeptCollection(db: Db, c: Ptr) {
    exists g :: Lists(db, c, g) && g in db.gameEntries
  }

  ghost predicate EntriesKept(db: Db, db': Db) {
    && (forall g :: g in db'.gameEntries <==> KeptGame(db, g))
    && (forall g :: g in db'.gameEntries ==> db'.gameEntries[g] == db.gameEntries[g] != [])
    && db'.gameEntries.Keys <= db'.games
    && (forall g, f :: Has(db'.gameEntries, g, f) ==> f in db'.parentOf && db'.parentOf[f] == g)
  }

  ghost predicate ListsKept(db: Db, db': Db) {
    && (forall c, g :: Lists(db', c, g) <==> Lists(db, c, g) && g in db.gameEntries)
    && (forall c :: c in db'.collectionGames <==> KeptCollection(db, c))
    && (forall c :: c in db'.collectionGames ==> db'.collectionGames[c] != [])
  }

  ghost predicate NamesKept(db': Db) {
    db'.names.Keys == db'.collectionGames.Keys && NamesAgree(db')
  }

  /** The objects that are not deleted: the games that are in a collection, with their files, and
      the collections that keep a game. A game without files lives on, in no list. */
  ghost predicate Alive(db: Db, games: set<Ptr>, parentOf: map<Ptr, Ptr>, names: map<Ptr, string>) {
    && (forall g :: g in games <==> g in db.games && Collected(db, g))
    && (forall f :: f in parentOf <==> f in db.parentOf && Collected(db, db.parentOf[f]))
    && (forall f :: f in parentOf ==> parentOf[f] == db.parentOf[f])
    && (forall c :: c in names <==> KeptCollection(db, c))
    && (forall c :: c in names ==> c in db.names && names[c] == db.names[c])
  }

  ghost predicate CleanedAs(db: Db, db': Db) {
    EntriesKept(db, db') && ListsKept(db, db') && NamesKept(db') && Alive(db, db'.games, db'.parentOf, db'.names)
  }

  lemma CleanedAlive(db: Db, db': Db)
    requires ParentlessOrCollected(db) && EntriesAgree(db) && db' == Cleaned(db)
    requires ListsKept(db, db') && NamesKept(db')
    ensures Alive(db, db'.games, db'.parentOf, db'.names)
  {
    assert forall g :: g in Members(db.parentless) <==> g in db.parentless;
    forall f | f in db.parentOf ensures db.parentOf[f] in db.games {
      assert Has(db.gameEntries, db.parentOf[f], f);
    }
  }

  /** A pair survives exactly if it was there and its game has entries. */
  lemma CleanedRelation(db: Db, db': Db, c: Ptr, g: Ptr)
    requires ParentlessOrCollected(db) && db' == Cleaned(db)
    ensures Lists(db', c, g) <==> Lists(db, c, g) && g in db.gameEntries
  {
    var db1 := WithoutParentless(db);
    if Lists(db, c, g) {
      assert Collected(db, g);
      assert g in db1.gameEntries <==> g in db.gameEntries;
    }
    if c in db1.collectionGames {
      assert g in KeptGames(db1, c) <==> g in db1.collectionGames[c] && g in db1.gameEntries;
    }
  }

  lemma CleanedKeys(db: Db, db': Db, c: Ptr)
    requires forall g :: Lists(db', c, g) <==> Lists(db, c, g) && g in db.gameEntries
    requires c in db'.collectionGames ==> db'.collectionGames[c] != []
    ensures c in db'.collectionGames <==> KeptCollection(db, c)
  {
    if c in db'.collectionGames {
      assert Lists(db', c, db'.collectionGames[c][0]);
    }
    if KeptCollection(db, c) {
      var g :| Lists(db, c, g) && g in db.gameEntries;
      assert Lists(db', c, g);
    }
  }

  lemma CleanedLists(db: Db, db': Db)
    requires Inv(db) && db' == Cleaned(db)
    ensures ListsKept(db, db')
  {
    forall c, g ensures Lists(db', c, g) <==> Lists(db, c, g) && g in db.gameEntries {
      CleanedRelation(db, db', c, g);
    }
    forall c ensures c in db'.collectionGames <==> KeptCollection(db, c) {
      CleanedKeys(db, db', c);
    }
  }

  lemma CleanedEntries(db: Db, db': Db)
    requires EntriesAgree(db) && ParentlessOrCollected(db) && db' == Cleaned(db)
    ensures EntriesKept(db, db')
  {
    assert forall g :: g in Members(db.parentless) <==> g in db.parentless;
    forall g, f | Has(db'.gameEntries, g, f) ensures f in db'.parentOf && db'.parentOf[f] == g {
      assert Has(db.gameEntries, g, f);
    }
  }

  lemma CleanedNames(db: Db, db': Db)
    requires Inv(db) && db' == Cleaned(db)
    ensures NamesKept(db')
  {
    assert db'.collectionGames.Keys <= db.collectionGames.Keys;
  }

  lemma CleanedGood(db: Db)
    requires Inv(db)
    ensures CleanedAs(db, Cleaned(db))
  {
    var db' := Cleaned(db);
    CleanedLists(db, db');
    CleanedEntries(db, db');
    CleanedNames(db, db');
    CleanedAlive(db, db');
  }

  /** What the caller of finalize gets, told from the state before it. */
  ghost predicate Finalized(db: Db, r: Result) {
    && GamesChosen(db, r)
    && CollectionsChosen(db, r)
    && FilesApplied(db, r)
    && CollectionsApplied(db, r)
    && GamesApplied(db, r)
  }

  ghost predicate GamesChosen(db: Db, r: Result) {
    NoDup(r.games) && forall g :: g in r.games <==> KeptGame(db, g)
  }

  ghost predicate CollectionsChosen(db: Db, r: Result) {
    NoDup(r.collections) && forall c :: c in r.collections <==> KeptCollection(db, c)
  }

  ghost predicate FilesApplied(db: Db, r: Result) {
    && (forall g :: g in r.files <==> KeptGame(db, g))
    && (forall g :: g in r.files ==> multiset(r.files[g]) == multiset(db.gameEntries[g]))
  }

  ghost predicate CollectionsApplied(db: Db, r: Result) {
    && (forall g :: g in r.handed <==> KeptGame(db, g))
    && r.stored.Keys == r.handed.Keys
    && (forall g :: g in r.handed ==>
          StrictlyAscending(r.handed[g]) && r.handed[g] != [] && r.stored[g] == r.handed[g][0])
    && (forall g, c :: Has(r.handed, g, c) <==> Lists(db, c, g) && g in db.gameEntries)
  }

  ghost predicate GamesApplied(db: Db, r: Result) {
    && (forall c :: c in r.listed <==> KeptCollection(db, c))
    && (forall c :: c in r.listed ==> StrictlyAscending(r.listed[c]))
    && (forall c, g :: Has(r.listed, c, g) <==> Lists(db, c, g) && g in db.gameEntries)
  }

  /** What finalize_apply_lists makes of the pruned state db. */
  ghost predicate Applied(db: Db, r: Result) {
    FilesTaken(db, r) && CollectionsHanded(db, r) && GamesListed(db, r)
  }

  ghost predicate FilesTaken(db: Db, r: Result) {
    && r.files.Keys == db.gameEntries.Keys
    && forall g :: g in r.files ==> multiset(r.files[g]) == multiset(db.gameEntries[g])
  }

  ghost predicate CollectionsHanded(db: Db, r: Result) {
    && r.stored.Keys == r.handed.Keys
    && (forall g :: g in r.handed ==>
          StrictlyAscending(r.handed[g]) && r.handed[g] != [] && r.stored[g] == r.handed[g][0])
    && (forall g, c :: Has(r.handed, g, c) <==> Lists(db, c, g))
  }

  ghost predicate GamesListed(db: Db, r: Result) {
    && r.listed.Keys == db.collectionGames.Keys
    && (forall c :: c in r.listed ==> StrictlyAscending(r.listed[c]))
    && (forall c, g :: Has(r.listed, c, g) <==> Lists(db, c, g))
  }

  /** The vector holds the members of the set, each once. */
  ghost predicate Exactly(v: seq<Ptr>, s: set<Ptr>) {
    NoDup(v) && forall x :: x in v <==> x in s
  }

  /** The games returned and their files are alive. */
  ghost predicate StaysInside(r: Result, games: set<Ptr>, parentOf: map<Ptr, Ptr>) {
    forall g :: g in r.games ==> g in games && g in r.files && forall f :: f in r.files[g] ==> f in parentOf
  }

  lemma CleanedReady(db: Db)
    requires Inv(db)
    ensures NamesAgree(WithoutEmptyLists(WithoutParentless(db)))
    ensures NamesAgree(Cleaned(db))
    ensures forall g :: g in Cleaned(db).gameEntries ==> Cleaned(db).gameEntries[g] != []
  {
    CleanedNames(db, Cleaned(db));
  }

  lemma FinalizeGood(db: Db, db': Db, r: Result)
    requires Inv(db) && db' == Cleaned(db) && Applied(db', r)
    requires Exactly(r.games, db'.gameEntries.Keys) && Exactly(r.collections, db'.names.Keys)
    ensures Finalized(db, r) && StaysInside(r, db'.games, db'.parentOf)
    ensures Alive(db, db'.games, db'.parentOf, db'.names)
  {
    CleanedGood(db);
    AppliedIsFinalized(db, db', r);
  }

  lemma AppliedIsFinalized(db: Db, db': Db, r: Result)
    requires EntriesAgree(db)
    requires CleanedAs(db, db') && Applied(db', r)
    requires Exactly(r.games, db'.gameEntries.Keys) && Exactly(r.collections, db'.names.Keys)
    ensures Finalized(db, r) && StaysInside(r, db'.games, db'.parentOf)
  {
    AppliedFiles(db, db', r);
    AppliedCollections(db, db', r);
    AppliedGames(db, db', r);
    AppliedMembers(db, db', r);
  }

  lemma AppliedMembers(db: Db, db': Db, r: Result)
    requires CleanedAs(db, db')
    requires Exactly(r.games, db'.gameEntries.Keys) && Exactly(r.collections, db'.names.Keys)
    ensures GamesChosen(db, r) && CollectionsChosen(db, r)
    ensures forall g :: g in r.games ==> g in db'.games && g in db'.gameEntries
  {
    assert forall c :: c in db'.names <==> c in db'.collectionGames;
  }

  lemma AppliedFiles(db: Db, db': Db, r: Result)
    requires EntriesKept(db, db') && FilesTaken(db', r)
    ensures r.files.Keys == db'.gameEntries.Keys && FilesApplied(db, r)
    ensures forall g, f :: g in r.files && f in r.files[g] ==> f in db'.parentOf
  {
    forall g | g in r.files
      ensures multiset(r.files[g]) == multiset(db.gameEntries[g]) && forall f :: f in r.files[g] ==> f in db'.parentOf
    {
      SameMembers(r.files[g], db'.gameEntries[g]);
      forall f | f in r.files[g] ensures f in db'.parentOf {
        assert Has(db'.gameEntries, g, f);
      }
    }
  }

  lemma AppliedCollections(db: Db, db': Db, r: Result)
    requires ListsKept(db, db') && CollectionsHanded(db', r)
    ensures CollectionsApplied(db, r)
  {
    forall g ensures g in r.handed <==> KeptGame(db, g) {
      if g in r.handed {
        assert Has(r.handed, g, r.handed[g][0]);
        assert Lists(db, r.handed[g][0], g);
      }
      if KeptGame(db, g) {
        var c :| Lists(db, c, g);
        assert Lists(db', c, g);
        assert Has(r.handed, g, c);
      }
    }
  }

  lemma AppliedGames(db: Db, db': Db, r: Result)
    requires ListsKept(db, db') && GamesListed(db', r)
    ensures GamesApplied(db, r)
  {
  }

  function NamesBut(names: map<Ptr, string>, gone: seq<Ptr>): map<Ptr, string> {
    map c | c in names && c !in gone :: names[c]
  }

  function CollectionsBut(collections: map<string, Ptr>, gone: seq<Ptr>): map<string, Ptr> {
    map n | n in collections && collections[n] !in gone :: collections[n]
  }

  lemma OneNameLess(names: map<Ptr, string>, gone: seq<Ptr>, i: nat)
    requires i < |gone| && NoDup(gone) && gone[i] in names
    ensures gone[i] in NamesBut(names, gone[..i])
    ensures NamesBut(names, gone[..i + 1]) == NamesBut(names, gone[..i]) - {gone[i]}
  {
    assert gone[..i + 1] == gone[..i] + [gone[i]];
  }

  lemma OneCollectionLess(names: map<Ptr, string>, collections: map<string, Ptr>, gone: seq<Ptr>, i: nat)
    requires forall n :: n in collections ==> collections[n] in names && names[collections[n]] == n
    requires forall c :: c in names ==> names[c] in collections && collections[names[c]] == c
    requires i < |gone| && gone[i] in names
    ensures CollectionsBut(collections, gone[..i + 1]) == CollectionsBut(collections, gone[..i]) - {names[gone[i]]}
  {
    assert gone[..i + 1] == gone[..i] + [gone[i]];
  }

  class SearchContext {
    var names: map<Ptr, string>
    var liveGames: set<Ptr>
    var parentOf: map<Ptr, Ptr>
    var collections: map<string, Ptr>
    var collectionGames: map<Ptr, seq<Ptr>>
    var gameEntries: map<Ptr, seq<Ptr>>
    var byPath: map<string, Ptr>
    var byUri: map<string, Ptr>
    var parentless: seq<Ptr>

    // the fields of the game and collection objects that finalize sets
    var files: map<Ptr, seq<Ptr>>
    var handed: map<Ptr, seq<Ptr>>
    var stored: map<Ptr, Ptr>
    var listed: map<Ptr, seq<Ptr>>

    const orders: Orders

    ghost function Contents(): Db
      reads this
    {
      Db(names, liveGames, parentOf, collections, collectionGames, gameEntries, byPath, byUri, parentless)
    }

    constructor (orders: Orders)
      ensures Contents() == EMPTY && Inv(Contents()) && this.orders == orders
    {
      this.orders := orders;
      names, liveGames, parentOf := map[], {}, map[];
      collections, collectionGames, gameEntries := map[], map[], map[];
      byPath, byUri, parentless := map[], map[], [];
      files, handed, stored, listed := map[], map[], map[], map[];
      new;
      assert EMPTY == Run([]);
      RunKeepsInv([]);
    }

    /** operator new: some address no live object has. */
    method New() returns (p: Ptr)
      ensures Free(Contents(), p)
    {
      ghost var q := FreeExists(names.Keys + liveGames + parentOf.Keys);
      p :| p !in names && p !in liveGames && p !in parentOf;
    }

    method GetOrCreateCollection(name: string) returns (c: Ptr)
      requires Inv(Contents())
      modifies this
      ensures Inv(Contents())
      ensures c in names && names[c] == name && collections[name] == c
      ensures name in old(collections) ==> Contents() == old(Contents())
      ensures name !in old(collections) ==>
                Free(old(Contents()), c) && Contents() == Step(old(Contents()), GetCollection(name, c))
    {
      if name in collections {
        return collections[name];
      }
      c := New();
      StepKeepsInv(Contents(), GetCollection(name, c));
      names, collections := names[c := name], collections[name := c];
    }

    method CreateGameFor(c: Ptr) returns (g: Ptr)
      requires Inv(Contents()) && c in names
      modifies this
      ensures Inv(Contents())
      ensures Free(old(Contents()), g) && Contents() == Step(old(Contents()), Op.CreateGameFor(c, g))
    {
      g := New();
      StepKeepsInv(Contents(), Op.CreateGameFor(c, g));
      liveGames, collectionGames := liveGames + {g}, Push(collectionGames, c, g);
    }

    method CreateGame() returns (g: Ptr)
      requires Inv(Contents())
      modifies this
      ensures Inv(Contents())
      ensures Free(old(Contents()), g) && Contents() == Step(old(Contents()), Op.CreateGame(g))
    {
      g := New();
      StepKeepsInv(Contents(), Op.CreateGame(g));
      liveGames, parentless := liveGames + {g}, parentless + [g];
    }

    method GameAddFilepath(g: Ptr, path: string) returns (f: Ptr)
      requires Inv(Contents()) && g in liveGames
      modifies this
      ensures Inv(Contents())
      ensures path in byPath && f == byPath[path]
      ensures path in old(byPath) ==> f == old(byPath[path]) && Contents() == old(Contents())
      ensures path !in old(byPath) ==>
                Free(old(Contents()), f) && Contents() == Step(old(Contents()), AddPath(g, path, f))
    {
      if path in byPath {
        return byPath[path];
      }
      f := New();
      ghost var before := Contents();
      StepKeepsInv(before, AddPath(g, path, f));
      parentOf, gameEntries := parentOf[f := g], Push(gameEntries, g, f);
      byPath := byPath[path := f];
      assert Contents() == Step(before, AddPath(g, path, f));
    }

    method GameAddUri(g: Ptr, uri: string) returns (f: Ptr)
      requires Inv(Contents()) && g in liveGames
      modifies this
      ensures Inv(Contents())
      ensures uri in byUri && f == byUri[uri]
      ensures uri in old(byUri) ==> f == old(byUri[uri]) && Contents() == old(Contents())
      ensures uri !in old(byUri) ==>
                Free(old(Contents()), f) && Contents() == Step(old(Contents()), AddUri(g, uri, f))
    {
      if uri in byUri {
        return byUri[uri];
      }
      f := New();
      ghost var before := Contents();
      StepKeepsInv(before, AddUri(g, uri, f));
      parentOf, gameEntries := parentOf[f := g], Push(gameEntries, g, f);
      byUri := byUri[uri := f];
      assert Contents() == Step(before, AddUri(g, uri, f));
    }

    method GameAddTo(g: Ptr, c: Ptr)
      requires Inv(Contents()) && g in liveGames && c in names
      modifies this
      ensures Inv(Contents())
      ensures Contents() == Step(old(Contents()), AddTo(g, c))
    {
      StepKeepsInv(Contents(), AddTo(g, c));
      collectionGames := Push(collectionGames, c, g);
      parentless := RemoveIf(parentless, OtherThan(g));
    }

    /** finalize_cleanup_games: delete the parentless games (and with them their files), drop
        entryless games from the lists, then the lists left empty. */
    method CleanupGames()
      modifies this
      ensures Contents() == WithoutEmptyLists(WithoutParentless(old(Contents())))
    {
      DeleteParentless();
      ghost var db := Contents();
      DropEntryless();
      EraseEmpty(db);
    }

    method DeleteParentless()
      modifies this`liveGames, this`parentOf, this`gameEntries
      ensures Contents() == WithoutParentless(old(Contents()))
    {
      var i := 0;
      while i < |parentless|
        invariant 0 <= i <= |parentless|
        invariant liveGames == old(liveGames) - Members(parentless[..i])
        invariant gameEntries == old(gameEntries) - Members(parentless[..i])
        invariant parentOf == map f | f in old(parentOf) && old(parentOf)[f] !in parentless[..i] :: old(parentOf)[f]
      {
        var g := parentless[i];
        assert parentless[..i + 1] == parentless[..i] + [g];
        assert Members(parentless[..i + 1]) == Members(parentless[..i]) + {g};
        gameEntries := gameEntries - {g};
        liveGames := liveGames - {g};
        parentOf := map f | f in parentOf && parentOf[f] != g :: parentOf[f];
        i := i + 1;
      }
      assert parentless[..i] == parentless;
    }

    method DropEntryless()
      modifies this`collectionGames
      ensures collectionGames.Keys == old(collectionGames).Keys
      ensures forall c :: c in collectionGames ==> collectionGames[c] == KeptGames(old(Contents()), c)
    {
      ghost var db := Contents();
      var todo := collectionGames.Keys;
      while todo != {}
        invariant todo <= collectionGames.Keys == db.collectionGames.Keys
        invariant forall c :: c in collectionGames ==>
                    collectionGames[c] == if c in todo then db.collectionGames[c] else KeptGames(db, c)
      {
        var c :| c in todo;
        var kept := RemoveIf(collectionGames[c], KeyOf(gameEntries));
        collectionGames, todo := collectionGames[c := kept], todo - {c};
      }
    }

    method EraseEmpty(ghost db: Db)
      requires collectionGames.Keys == db.collectionGames.Keys
      requires forall c :: c in collectionGames ==> collectionGames[c] == KeptGames(db, c)
      modifies this`collectionGames
      ensures collectionGames == WithoutEmptyLists(db).collectionGames
    {
      var emptyKeys := set c | c in collectionGames && collectionGames[c] == [];
      collectionGames := collectionGames - emptyKeys;
    }

    /** finalize_cleanup_collections: find, then forget and delete, the collections without
        a game list. */
    method CleanupCollections()
      requires NamesAgree(Contents())
      modifies this`names, this`collections
      ensures Contents() == WithoutGameless(old(Contents()))
    {
      var gameless := FindGameless();
      RemoveCollections(gameless);
    }

    method FindGameless() returns (gameless: seq<Ptr>)
      requires NamesAgree(Contents())
      ensures NoDup(gameless)
      ensures forall c :: c in gameless <==> c in names && c !in collectionGames
    {
      gameless := [];
      var todo := collections.Keys;
      while todo != {}
        invariant todo <= collections.Keys
        invariant NoDup(gameless)
        invariant forall c :: c in gameless <==> c in names && names[c] !in todo && c !in collectionGames
      {
        var n :| n in todo;
        var c := collections[n];
        if c !in collectionGames { gameless := gameless + [c]; }
        todo := todo - {n};
      }
    }

    method RemoveCollections(gone: seq<Ptr>)
      requires NamesAgree(Contents()) && NoDup(gone)
      requires forall c :: c in gone ==> c in names
      modifies this`names, this`collections
      ensures names == NamesBut(old(names), gone)
      ensures collections == CollectionsBut(old(collections), gone)
    {
      var i := 0;
      while i < |gone|
        invariant 0 <= i <= |gone|
        invariant names == NamesBut(old(names), gone[..i])
        invariant collections == CollectionsBut(old(collections), gone[..i])
      {
        OneNameLess(old(names), gone, i);
        OneCollectionLess(old(names), old(collections), gone, i);
        collections := collections - {names[gone[i]]};
        names := names - {gone[i]};
        i := i + 1;
      }
      assert gone[..i] == gone;
    }

    /** finalize_apply_lists, first loop: each game takes its entries, which Game::setFiles sorts. */
    method ApplyFiles()
      requires forall g :: g in gameEntries ==> gameEntries[g] != []
      requires StrictWeakOrder(orders.file)
      modifies this`gameEntries, this`files
      ensures gameEntries.Keys == old(gameEntries).Keys == files.Keys
      ensures forall g :: g in files ==>
                multiset(files[g]) == multiset(old(gameEntries)[g]) && SortedBy(files[g], orders.file)
    {
      files := map[];
      var todo := gameEntries.Keys;
      while todo != {}
        invariant todo <= gameEntries.Keys == old(gameEntries).Keys
        invariant forall g :: g in todo ==> gameEntries[g] == old(gameEntries)[g]
        invariant files.Keys == gameEntries.Keys - todo
        invariant forall g :: g in files ==>
                    multiset(files[g]) == multiset(old(gameEntries)[g]) && SortedBy(files[g], orders.file)
      {
        var g :| g in todo;
        assert gameEntries[g] != [];                                   // Q_ASSERT
        var sorted := Sort(gameEntries[g], orders.file);
        files, gameEntries := files[g := sorted], gameEntries[g := []];
        todo := todo - {g};
      }
    }

    /** Second loop: turn "the games of a collection" into "the collections of a game". */
    method GatherCollections() returns (gc: map<Ptr, seq<Ptr>>)
      ensures forall g, c :: Has(gc, g, c) <==> Has(collectionGames, c, g)
      ensures forall g :: g in gc ==> gc[g] != []
    {
      gc := map[];
      var todo := collectionGames.Keys;
      while todo != {}
        invariant todo <= collectionGames.Keys
        invariant forall g, c :: Has(gc, g, c) <==> Has(collectionGames, c, g) && c !in todo
        invariant forall g :: g in gc ==> gc[g] != []
      {
        var k :| k in todo;
        ghost var before := gc;
        var i := 0;
        while i < |collectionGames[k]|
          invariant 0 <= i <= |collectionGames[k]|
          invariant forall g, c :: Has(gc, g, c) <==> Has(before, g, c) || (c == k && g in collectionGames[k][..i])
          invariant forall g :: g in gc ==> gc[g] != []
        {
          PushHas(gc, collectionGames[k][i], k);
          gc := Push(gc, collectionGames[k][i], k);
          i := i + 1;
        }
        todo := todo - {k};
      }
    }

    /** Third loop: hand the sorted lists to Game::setCollections, which keeps the first. */
    method ApplyCollections(gc: map<Ptr, seq<Ptr>>)
      requires forall g :: g in gc ==> gc[g] != []
      modifies this`handed, this`stored
      ensures handed.Keys == stored.Keys == gc.Keys
      ensures forall g :: g in gc ==>
                && StrictlyAscending(handed[g]) && handed[g] != [] && stored[g] == handed[g][0]
      ensures forall g, c :: Has(handed, g, c) <==> Has(gc, g, c)
    {
      handed, stored := map[], map[];
      var todo := gc.Keys;
      while todo != {}
        invariant todo <= gc.Keys
        invariant handed.Keys == stored.Keys == gc.Keys - todo
        invariant forall g :: g in handed ==>
                    && StrictlyAscending(handed[g]) && handed[g] != [] && stored[g] == handed[g][0]
        invariant forall g, c :: g in handed ==> (c in handed[g] <==> c in gc[g])
      {
        var g :| g in todo;
        var list := RemoveDuplicates(gc[g]);
        assert gc[g][0] in list;
        handed, stored := handed[g := list], stored[g := list[0]];
        todo := todo - {g};
      }
    }

    /** Last loop: each collection takes its games. */
    method ApplyGames()
      modifies this`collectionGames, this`listed
      ensures collectionGames.Keys == old(collectionGames).Keys == listed.Keys
      ensures forall c :: c in listed ==> StrictlyAscending(listed[c])
      ensures forall c, g :: Has(listed, c, g) <==> Has(old(collectionGames), c, g)
    {
      listed := map[];
      var todo := collectionGames.Keys;
      while todo != {}
        invariant todo <= collectionGames.Keys == old(collectionGames).Keys
        invariant forall c :: c in todo ==> collectionGames[c] == old(collectionGames)[c]
        invariant listed.Keys == collectionGames.Keys - todo
        invariant forall c :: c in listed ==> StrictlyAscending(listed[c])
        invariant forall c, g :: c in listed ==> (g in listed[c] <==> g in old(collectionGames)[c])
      {
        var c :| c in todo;
        var list := RemoveDuplicates(collectionGames[c]);
        listed, collectionGames := listed[c := list], collectionGames[c := []];
        todo := todo - {c};
      }
    }

    method Cleanup()
      requires Inv(Contents())
      modifies this
      ensures Contents() == Cleaned(old(Contents()))
    {
      CleanupGames();
      CleanupCollections();
    }

    method ApplyLists()
      requires forall g :: g in gameEntries ==> gameEntries[g] != []
      requires StrictWeakOrder(orders.file)
      modifies this`gameEntries, this`collectionGames, this`files, this`handed, this`stored, this`listed
      ensures gameEntries.Keys == old(gameEntries).Keys
      ensures Applied(old(Contents()), Result([], [], files, handed, stored, listed))
      ensures forall g :: g in files ==> SortedBy(files[g], orders.file)
    {
      ApplyFiles();
      var gc := GatherCollections();
      ApplyCollections(gc);
      ApplyGames();
    }

    /** The three passes, in order; db is the state between pruning and applying. */
    method RunPasses() returns (ghost db: Db)
      requires Inv(Contents()) && StrictWeakOrder(orders.file)
      modifies this
      ensures db == Cleaned(old(Contents()))
      ensures Applied(db, Result([], [], files, handed, stored, listed))
      ensures forall g :: g in files ==> SortedBy(files[g], orders.file)
      ensures gameEntries.Keys == db.gameEntries.Keys
      ensures names == db.names && collections == db.collections
      ensures liveGames == db.games && parentOf == db.parentOf
    {
      ghost var before := Contents();
      CleanedReady(before);
      Cleanup();
      db := Contents();
      ApplyLists();
    }

    /** finalize: prune, apply the lists, and return what is left, sorted. */
    method Finalize() returns (colls: seq<Ptr>, games: seq<Ptr>)
      requires Inv(Contents()) && WeakOrders(orders)
      modifies this
      ensures Finalized(old(Contents()), Result(colls, games, files, handed, stored, listed))
      ensures SortedBy(colls, orders.coll) && SortedBy(games, orders.game)
      ensures forall g :: g in files ==> SortedBy(files[g], orders.file)
      ensures StaysInside(Result(colls, games, files, handed, stored, listed), liveGames, parentOf)
      ensures forall c :: c in colls ==> c in names
      ensures Alive(old(Contents()), liveGames, parentOf, names)
    {
      ghost var before := Contents();
      ghost var db := RunPasses();
      CleanedReady(before);
      games := GameList();
      colls := CollectionList();
      FinalizeGood(before, db, Result(colls, games, files, handed, stored, listed));
    }

    method GameList() returns (games: seq<Ptr>)
      requires StrictWeakOrder(orders.game)
      ensures Exactly(games, gameEntries.Keys) && SortedBy(games, orders.game)
    {
      var v := Listed(gameEntries.Keys);
      games := Sort(v, orders.game);
      SortedNoDup(v, games);
      SameMembers(v, games);
    }

    method CollectionList() returns (colls: seq<Ptr>)
      requires NamesAgree(Contents()) && StrictWeakOrder(orders.coll)
      ensures Exactly(colls, names.Keys) && SortedBy(colls, orders.coll)
    {
      var v := CollectionValues();
      colls := Sort(v, orders.coll);
      SortedNoDup(v, colls);
      SameMembers(v, colls);
    }

    method Listed(s: set<Ptr>) returns (v: seq<Ptr>)
      ensures Exactly(v, s)
    {
      v := [];
      var todo := s;
      while todo != {}
        invariant todo <= s
        invariant NoDup(v)
        invariant forall x :: x in v <==> x in s && x !in todo
      {
        var x :| x in todo;
        v, todo := v + [x], todo - {x};
      }
    }

    method CollectionValues() returns (v: seq<Ptr>)
      requires NamesAgree(Contents())
      ensures Exactly(v, names.Keys)
    {
      v := [];
      var todo := collections.Keys;
      while todo != {}
        invariant todo <= collections.Keys
        invariant NoDup(v)
        invariant forall c :: c in v <==> c in names && names[c] !in todo
      {
        var n :| n in todo;
        v, todo := v + [collections[n]], todo - {n};
      }
    }
  }

  // ---- what a caller can rely on, whatever the providers did ---------------------------

  /** Both directions of the games/collections relation agree, and stay inside the result. */
  ghost predicate TwoWay(r: Result) {
    && RelationAgrees(r)
    && SelectionAgrees(r)
    && (forall g :: g in r.handed ==> StrictlyAscending(r.handed[g]))
    && (forall c :: c in r.listed ==> StrictlyAscending(r.listed[c]))
  }

  ghost predicate SelectionAgrees(r: Result) {
    && (forall g :: g in r.games <==> g in r.handed)
    && (forall c :: c in r.collections <==> c in r.listed)
  }

  ghost predicate RelationAgrees(r: Result) {
    && (forall c, g :: Has(r.handed, g, c) <==> Has(r.listed, c, g))
    && (forall c, g :: Has(r.listed, c, g) ==> g in r.games && c in r.collections)
  }

  lemma FinalizedTwoWay(db: Db, r: Result)
    requires Finalized(db, r)
    ensures TwoWay(r)
  {
    FinalizedRelation(db, r);
    FinalizedSelection(db, r);
  }

  lemma FinalizedSelection(db: Db, r: Result)
    requires GamesChosen(db, r) && CollectionsChosen(db, r) && CollectionsApplied(db, r) && GamesApplied(db, r)
    ensures SelectionAgrees(r)
  {
  }

  lemma FinalizedRelation(db: Db, r: Result)
    requires Finalized(db, r)
    ensures RelationAgrees(r)
  {
    forall c, g | Has(r.listed, c, g) ensures g in r.games && c in r.collections {
      assert Lists(db, c, g);
    }
  }

  /** The relation and the selection do not depend on the order in which the hash maps are walked;
      only entries that compare equal by name may change places. */
  lemma FinalizedOneWay(db: Db, r: Result, q: Result)
    requires Finalized(db, r) && Finalized(db, q)
    ensures r.files.Keys == q.files.Keys && forall g :: g in r.files ==> multiset(r.files[g]) == multiset(q.files[g])
    ensures r.handed == q.handed && r.stored == q.stored && r.listed == q.listed
    ensures Members(r.games) == Members(q.games) && Members(r.collections) == Members(q.collections)
  {
    FilesOneWay(db, r, q);
    HandedOneWay(db, r, q);
    ListedOneWay(db, r, q);
    MembersOneWay(db, r, q);
  }

  lemma FilesOneWay(db: Db, r: Result, q: Result)
    requires FilesApplied(db, r) && FilesApplied(db, q)
    ensures r.files.Keys == q.files.Keys && forall g :: g in r.files ==> multiset(r.files[g]) == multiset(q.files[g])
  {
    assert forall g :: g in r.files <==> g in q.files;
  }

  lemma HandedOneWay(db: Db, r: Result, q: Result)
    requires CollectionsApplied(db, r) && CollectionsApplied(db, q)
    ensures r.handed == q.handed && r.stored == q.stored
  {
    assert r.handed.Keys == q.handed.Keys;
    OneWayToList(r.handed, q.handed);
  }

  lemma ListedOneWay(db: Db, r: Result, q: Result)
    requires GamesApplied(db, r) && GamesApplied(db, q)
    ensures r.listed == q.listed
  {
    assert r.listed.Keys == q.listed.Keys;
    OneWayToList(r.listed, q.listed);
  }

  lemma MembersOneWay(db: Db, r: Result, q: Result)
    requires GamesChosen(db, r) && GamesChosen(db, q) && CollectionsChosen(db, r) && CollectionsChosen(db, q)
    ensures Members(r.games) == Members(q.games) && Members(r.collections) == Members(q.collections)
  {
    assert forall g :: g in r.games <==> g in q.games;
    assert forall c :: c in r.collections <==> c in q.collections;
  }

  lemma OneWayToList(a: map<Ptr, seq<Ptr>>, b: map<Ptr, seq<Ptr>>)
    requires a.Keys == b.Keys && forall k, x :: Has(a, k, x) <==> Has(b, k, x)
    requires forall k :: k in a ==> StrictlyAscending(a[k]) && StrictlyAscending(b[k])
    ensures a == b
  {
    forall k | k in a ensures a[k] == b[k] {
      assert forall x :: x in a[k] <==> Has(a, k, x);
      assert forall x :: x in b[k] <==> Has(b, k, x);
      AscendingUnique(a[k], b[k]);
    }
  }

  lemma KeptByRun(ops: seq<Op>, db: Db, c: Ptr, g: Ptr)
    requires Inv(db) && db == Run(ops)
    ensures Lists(db, c, g) && g in db.gameEntries <==> WasLinked(ops, c, g) && OwnsFile(ops, g)
    ensures KeptGame(db, g) <==> WasCreated(ops, g) && OwnsFile(ops, g) && exists d :: WasLinked(ops, d, g)
    ensures KeptCollection(db, c) <==> exists h :: WasLinked(ops, c, h) && OwnsFile(ops, h)
  {
    forall d, h ensures Lists(db, d, h) <==> WasLinked(ops, d, h) { HistoryOfRun(ops, d, h, ""); }
    forall h ensures h in db.gameEntries <==> OwnsFile(ops, h) { FilesOfRun(ops, h); }
    HistoryOfRun(ops, c, g, "");
    if Collected(db, g) { var d :| Lists(db, d, g); }
    if d :| WasLinked(ops, d, g) { assert Lists(db, d, g); }
    if h :| WasLinked(ops, c, h) && OwnsFile(ops, h) { assert Lists(db, c, h); }
  }

  /** After any calls and then finalize, the games returned are the created games that own a
      file and are in a collection. */
  lemma GamesReturned(ops: seq<Op>, r: Result, g: Ptr)
    requires Possible(ops) && Finalized(Run(ops), r)
    ensures NoDup(r.games)
    ensures g in r.games <==> WasCreated(ops, g) && OwnsFile(ops, g) && exists c :: WasLinked(ops, c, g)
  {
    RunKeepsInv(ops);
    KeptByRun(ops, Run(ops), 0, g);
  }

  /** The collections returned are those holding such a game, each listing exactly its own. */
  lemma CollectionsReturned(ops: seq<Op>, r: Result, c: Ptr, g: Ptr)
    requires Possible(ops) && Finalized(Run(ops), r)
    ensures NoDup(r.collections)
    ensures c in r.collections <==> exists h :: WasLinked(ops, c, h) && OwnsFile(ops, h)
    ensures Has(r.listed, c, g) <==> WasLinked(ops, c, g) && OwnsFile(ops, g)
    ensures Has(r.handed, g, c) <==> WasLinked(ops, c, g) && OwnsFile(ops, g)
  {
    RunKeepsInv(ops);
    KeptByRun(ops, Run(ops), c, g);
  }

  lemma ListedByRun(ops: seq<Op>, r: Result, c: Ptr, g: Ptr)
    requires Possible(ops) && CollectionsApplied(Run(ops), r) && GamesApplied(Run(ops), r) && g in r.handed
    ensures Has(r.listed, c, g) <==> WasLinked(ops, c, g)
  {
    RunKeepsInv(ops);
    KeptByRun(ops, Run(ops), c, g);
  }

  lemma StoredIsListed(db: Db, r: Result, g: Ptr)
    requires CollectionsApplied(db, r) && GamesApplied(db, r) && g in r.handed
    ensures g in r.stored && Has(r.listed, r.stored[g], g)
    ensures forall c :: Has(r.listed, c, g) ==> r.stored[g] <= c
  {
    assert Has(r.handed, g, r.stored[g]);
    forall c | Has(r.listed, c, g) ensures r.stored[g] <= c {
      assert Has(r.handed, g, c);
    }
  }

  /** Game::setCollections keeps one collection only, so a game's own view of its
      collections is complete exactly when no two collections were given that game. */
  lemma StoredCollectionComplete(ops: seq<Op>, r: Result, g: Ptr)
    requires Possible(ops) && CollectionsApplied(Run(ops), r) && GamesApplied(Run(ops), r) && g in r.handed
    ensures g in r.stored && Has(r.listed, r.stored[g], g)
    ensures (forall c :: Has(r.listed, c, g) ==> c == r.stored[g])
            <==> (forall c, d :: WasLinked(ops, c, g) && WasLinked(ops, d, g) ==> c == d)
  {
    StoredIsListed(Run(ops), r, g);
    forall c ensures Has(r.listed, c, g) <==> WasLinked(ops, c, g) {
      ListedByRun(ops, r, c, g);
    }
  }
}
