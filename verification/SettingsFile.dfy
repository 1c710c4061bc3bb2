/** Saving the providers and the key bindings to the settings text, and loading them back. */
module SettingsFile {
  import opened StdHelpers
  import opened Text
  import opened MetaFile
  import opened EntryText
  import opened KeyMap
  import opened KeyText

  datatype Provider = Provider(
    codename: string,
    internal: bool,                        // PROVIDER_FLAG_INTERNAL
    enabled: bool,
    options: map<string, seq<string>>
  )

  // ---- what is written ----------------------------------------------------------------------

  const PROVIDERS := "providers"
  const KEYS := "keys"
  const ENABLED := "enabled"

  function Dotted(parts: seq<string>): string {
    Join(parts, '.')
  }

  function ProviderKey(p: Provider, name: string): string {
    Dotted([PROVIDERS, p.codename, name])
  }

  function EnabledItem(p: Provider): Item {
    Item(ProviderKey(p, ENABLED), [if p.enabled then "true" else "false"])
  }

  /** The option items of a provider, in the order its hash map is walked. */
  function OptionItems(p: Provider, order: seq<string>): seq<Item>
    requires forall n :: n in order ==> n in p.options
  {
    if order == [] then []
    else [Item(ProviderKey(p, order[0]), p.options[order[0]])] + OptionItems(p, order[1..])
  }

  ghost predicate IsOrder<T(!new)>(order: seq<T>, keys: set<T>) {
    NoDup(order) && forall n :: n in order <==> n in keys
  }

  ghost predicate AreOrders(ps: seq<Provider>, orders: seq<seq<string>>) {
    |orders| == |ps| && forall i :: 0 <= i < |ps| ==> IsOrder(orders[i], ps[i].options.Keys)
  }

  function ProviderItems(p: Provider, order: seq<string>): seq<Item>
    requires forall n :: n in order ==> n in p.options
  {
    if p.internal then [] else [EnabledItem(p)] + OptionItems(p, order)
  }

  ghost function AllProviderItems(ps: seq<Provider>, orders: seq<seq<string>>): seq<Item>
    requires AreOrders(ps, orders)
  {
    if ps == [] then []
    else
      var n := |ps| - 1;
      assert AreOrders(ps[..n], orders[..n]);
      AllProviderItems(ps[..n], orders[..n]) + ProviderItems(ps[n], orders[n])
  }

  /** ConfigEntryMaps::str_to_key_opt; the internal events have no name. */
  function EventName(e: KeyEvent): string {
    match e
    case Accept => "accept"
    case Cancel => "cancel"
    case Details => "details"
    case Filters => "filters"
    case NextPage => "next-page"
    case PrevPage => "prev-page"
    case PageUp => "page-up"
    case PageDown => "page-down"
    case MainMenu => "menu"
    case Netplay => "netplay"
    case Guide => "guide"
    case _ => ""
  }

  /** Looking a name up in str_to_key_opt; an internal event stands for "not found". */
  function EventNamed(s: string): KeyEvent {
    if s == "accept" then Accept else if s == "cancel" then Cancel
    else if s == "details" then Details else if s == "filters" then Filters
    else if s == "next-page" then NextPage else if s == "prev-page" then PrevPage
    else if s == "page-up" then PageUp else if s == "page-down" then PageDown
    else if s == "menu" then MainMenu else if s == "netplay" then Netplay
    else if s == "guide" then Guide else Left
  }

  function KeyItem(cv: Conversion, m: Bindings, e: KeyEvent): Item
    requires e in m
  {
    Item(Dotted([KEYS, EventName(e)]), [KeyValue(cv, m[e])])
  }

  function KeyItems(cv: Conversion, m: Bindings, order: seq<KeyEvent>): seq<Item>
    requires forall e :: e in order ==> e in m
  {
    if order == [] then []
    else KeyItems(cv, m, order[..|order| - 1]) + [KeyItem(cv, m, order[|order| - 1])]
  }

  // ---- what loading does with an entry --------------------------------------------------------

  datatype Store = Store(providers: seq<Provider>, bindings: Bindings)

  /** The first provider with this codename, or the number of providers. */
  function FindProvider(ps: seq<Provider>, name: string): (i: nat)
    ensures i <= |ps|
    ensures i < |ps| ==> ps[i].codename == name
    ensures forall j :: 0 <= j < i ==> ps[j].codename != name
  {
    if ps == [] || ps[0].codename == name then 0 else 1 + FindProvider(ps[1..], name)
  }

  /** StrBoolConverter::to_bool, on text already in lower case. */
  function ToBool(s: string, before: bool): bool {
    if s == "yes" || s == "on" || s == "true" then true
    else if s == "no" || s == "off" || s == "false" then false
    else before
  }

  function SetProvider(p: Provider, option: string, vals: seq<string>): Provider {
    if option == ENABLED then p.(enabled := ToBool(ToLower(MergeLines(vals)), p.enabled))
    else p.(options := p.options[option := vals])
  }

  function HandleProvider(ps: seq<Provider>, vals: seq<string>, sections: seq<string>): (r: seq<Provider>)
    ensures |r| == |ps|
  {
    if |sections| < 2 then ps
    else
      var i := FindProvider(ps, sections[0]);
      if i == |ps| || ps[i].internal then ps else ps[i := SetProvider(ps[i], sections[1], vals)]
  }

  function HandleKey(cv: Conversion, m: Bindings, val: string, sections: seq<string>): (r: Bindings)
    requires sections != [] && forall e: KeyEvent :: e in m
    ensures r.Keys == m.Keys
  {
    var e := EventNamed(sections[0]);
    if Internal(e) then m else LoadRow(m, e, ReadKeys(cv, val))
  }

  /** handle_entry; general options do not touch this store. */
  function HandleEntry(cv: Conversion, st: Store, key: string, vals: seq<string>): (r: Store)
    requires forall e: KeyEvent :: e in st.bindings
    ensures |r.providers| == |st.providers| && r.bindings.Keys == st.bindings.Keys
  {
    var sections := Split(key, '.');
    if |sections| < 2 then st
    else if sections[0] == PROVIDERS then st.(providers := HandleProvider(st.providers, vals, sections[1..]))
    else if sections[0] == KEYS then st.(bindings := HandleKey(cv, st.bindings, MergeLines(vals), sections[1..]))
    else st
  }

  function HandleEvents(cv: Conversion, st: Store, evs: seq<Event>): (r: Store)
    requires forall e: KeyEvent :: e in st.bindings
    ensures |r.providers| == |st.providers| && r.bindings.Keys == st.bindings.Keys
    decreases |evs|
  {
    if evs == [] then st
    else
      var n := |evs| - 1;
      var before := HandleEvents(cv, st, evs[..n]);
      if evs[n].Attribute? then HandleEntry(cv, before, evs[n].key, evs[n].values) else before
  }

  function LoadText(cv: Conversion, st: Store, text: string): Store
    requires forall e: KeyEvent :: e in st.bindings
  {
    HandleEvents(cv, st, ReadFile(text))
  }

  // ---- good names ---------------------------------------------------------------------------

  predicate IsLower(s: string) {
    forall c :: c in s ==> ToLowerChar(c) == c
  }

  lemma {:induction false} LowerFixed(s: string)
    requires IsLower(s)
    ensures ToLower(s) == s
  {
    if s != "" {
      LowerFixed(s[1..]);
      assert s == [s[0]] + s[1..];
    }
  }

  predicate GoodWord(s: string) {
    IsLower(s) && '.' !in s && ':' !in s && OneLine(s)
  }

  /** The last part of a key: no white space at its end. */
  predicate GoodName(n: string) {
    GoodWord(n) && (n != "" ==> !IsSpace(n[|n| - 1]))
  }

  predicate GoodOption(n: string, vals: seq<string>) {
    GoodName(n) && n != ENABLED && GoodValues(vals)
  }

  /** Internal providers are neither printed nor loaded. */
  ghost predicate GoodProvider(p: Provider) {
    p.internal || (GoodWord(p.codename) && forall n :: n in p.options ==> GoodOption(n, p.options[n]))
  }

  ghost predicate DistinctCodes(ps: seq<Provider>) {
    forall i, j :: 0 <= i < j < |ps| ==> ps[i].codename != ps[j].codename
  }

  lemma {:induction false} DottedIsGood(parts: seq<string>)
    requires parts != [] && (forall w :: w in parts ==> GoodWord(w)) && GoodName(parts[|parts| - 1])
    ensures IsLower(Dotted(parts)) && ':' !in Dotted(parts) && OneLine(Dotted(parts))
    ensures Dotted(parts) != "" ==> !IsSpace(Dotted(parts)[|Dotted(parts)| - 1])
    ensures parts[0] != "" ==> Dotted(parts) != "" && Dotted(parts)[0] == parts[0][0]
  {
    if |parts| > 1 {
      DottedIsGood(parts[1..]);
      assert GoodWord(parts[0]);
      var rest := Dotted(parts[1..]);
      var d := parts[0] + ['.'] + rest;
      assert d[|d| - 1] == if rest == "" then '.' else rest[|rest| - 1];
    }
  }

  /** A key of good parts passes the reader unchanged and splits back into its parts. */
  lemma DottedKey(parts: seq<string>)
    requires parts != [] && (forall w :: w in parts ==> GoodWord(w)) && GoodName(parts[|parts| - 1])
    requires parts[0] != "" && parts[0][0] != '#' && !IsSpace(parts[0][0])
    ensures GoodKey(Dotted(parts))
    ensures Split(Dotted(parts), '.') == parts
  {
    DottedIsGood(parts);
    LowerFixed(Dotted(parts));
    SplitJoin(parts, '.');
  }

  lemma EventNameBack(e: KeyEvent)
    requires !Internal(e)
    ensures EventNamed(EventName(e)) == e
  {
  }

  /** The internal events, and no others, have no name in the file. */
  lemma NamedEvents(e: KeyEvent)
    ensures EventName(e) == "" <==> e in [Left, Right, Up, Down]
    ensures Internal(e) <==> EventName(e) == ""
  {
  }

  /** Lower-case letters, digits and dashes only, as in every fixed word of the settings file. */
  predicate FixedWord(s: string) {
    forall c :: c in s ==> 'a' <= c <= 'z' || '0' <= c <= '9' || c == '-'
  }

  lemma FixedIsGood(s: string)
    requires FixedWord(s)
    ensures GoodWord(s)
    ensures s != "" ==> !IsSpace(s[|s| - 1])
  {
    if s != "" {
      assert s[|s| - 1] in s;
    }
  }

  lemma EventWord(e: KeyEvent)
    requires !Internal(e)
    ensures GoodName(EventName(e))
  {
    assert FixedWord(EventName(e));
    FixedIsGood(EventName(e));
  }

  lemma HeadWords()
    ensures GoodName(PROVIDERS) && GoodName(KEYS) && GoodName(ENABLED)
  {
    FixedIsGood(PROVIDERS);
    FixedIsGood(KEYS);
    FixedIsGood(ENABLED);
  }

  // ---- providers come back --------------------------------------------------------------------

  function HandleItems(cv: Conversion, st: Store, es: seq<Item>): (r: Store)
    requires forall e: KeyEvent :: e in st.bindings
    ensures |r.providers| == |st.providers| && r.bindings.Keys == st.bindings.Keys
    decreases |es|
  {
    if es == [] then st else HandleItems(cv, HandleEntry(cv, st, es[0].key, es[0].values), es[1..])
  }

  lemma {:induction false} HandleAppend(cv: Conversion, st: Store, a: seq<Item>, b: seq<Item>)
    requires Total(st.bindings)
    ensures Total(HandleItems(cv, st, a).bindings)
    ensures HandleItems(cv, st, a + b) == HandleItems(cv, HandleItems(cv, st, a), b)
    decreases |a|
  {
    if a == [] {
      assert a + b == b;
    } else {
      assert (a + b)[0] == a[0] && (a + b)[1..] == a[1..] + b;
      HandleAppend(cv, HandleEntry(cv, st, a[0].key, a[0].values), a[1..], b);
    }
  }

  lemma {:induction false} EventsAreItems(cv: Conversion, st: Store, es: seq<Item>)
    requires Total(st.bindings)
    ensures HandleEvents(cv, st, AllReported(es)) == HandleItems(cv, st, es)
    decreases |es|
  {
    if es != [] {
      var init, last := es[..|es| - 1], es[|es| - 1];
      assert es == init + [last];
      ReportedLast(init, last);
      EventsAreItems(cv, st, init);
      HandleAppend(cv, st, init, [last]);
      var evs := AllReported(es);
      assert evs[..|evs| - 1] == AllReported(init);
    }
  }

  lemma {:induction false} ReportedLast(init: seq<Item>, last: Item)
    ensures AllReported(init + [last]) == AllReported(init) + [Reported(last)]
  {
    if init == [] {
      assert init + [last] == [last];
    } else {
      assert (init + [last])[1..] == init[1..] + [last];
      ReportedLast(init[1..], last);
    }
  }

  lemma {:induction false} FindUnique(ps: seq<Provider>, i: nat)
    requires i < |ps| && DistinctCodes(ps)
    ensures FindProvider(ps, ps[i].codename) == i
  {
    var j := FindProvider(ps, ps[i].codename);
  }

  /** Reading an item under provider i sets that option of provider i and nothing else. */
  lemma HandleProviderItem(cv: Conversion, st: Store, i: nat, name: string, vals: seq<string>)
    requires Total(st.bindings) && i < |st.providers| && DistinctCodes(st.providers)
    requires !st.providers[i].internal && GoodWord(st.providers[i].codename) && GoodName(name)
    ensures HandleEntry(cv, st, ProviderKey(st.providers[i], name), vals)
            == st.(providers := st.providers[i := SetProvider(st.providers[i], name, vals)])
  {
    var parts := [PROVIDERS, st.providers[i].codename, name];
    HeadWords();
    DottedKey(parts);
    FindUnique(st.providers, i);
    assert parts[1..] == [st.providers[i].codename, name];
  }

  /** The options after setting those of saved named in order, one by one. */
  function SetOptions(m: map<string, seq<string>>, saved: map<string, seq<string>>, order: seq<string>)
    : map<string, seq<string>>
    requires forall n :: n in order ==> n in saved
    decreases |order|
  {
    if order == [] then m else SetOptions(m[order[0] := saved[order[0]]], saved, order[1..])
  }

  lemma {:induction false} SetOptionsAt(m: map<string, seq<string>>, saved: map<string, seq<string>>,
                                        order: seq<string>, n: string)
    requires forall n :: n in order ==> n in saved
    ensures n in SetOptions(m, saved, order) <==> n in m || n in order
    ensures n in order ==> SetOptions(m, saved, order)[n] == saved[n]
    ensures n in m && n !in order ==> SetOptions(m, saved, order)[n] == m[n]
    decreases |order|
  {
    if order != [] {
      SetOptionsAt(m[order[0] := saved[order[0]]], saved, order[1..], n);
    }
  }

  /** The hash order of the options does not matter. */
  lemma SetOptionsAll(m: map<string, seq<string>>, saved: map<string, seq<string>>, order: seq<string>)
    requires IsOrder(order, saved.Keys)
    ensures SetOptions(m, saved, order) == m + saved
  {
    var r := SetOptions(m, saved, order);
    forall n ensures n in r <==> n in m + saved { SetOptionsAt(m, saved, order, n); }
    forall n | n in r ensures r[n] == (m + saved)[n] { SetOptionsAt(m, saved, order, n); }
  }

  lemma {:induction false} HandleOptions(cv: Conversion, st: Store, i: nat, p: Provider, order: seq<string>)
    requires Total(st.bindings) && i < |st.providers| && DistinctCodes(st.providers)
    requires st.providers[i].codename == p.codename && !st.providers[i].internal && !p.internal && GoodProvider(p)
    requires forall n :: n in order ==> n in p.options
    ensures HandleItems(cv, st, OptionItems(p, order)) == st.(providers :=
              st.providers[i := st.providers[i].(options := SetOptions(st.providers[i].options, p.options, order))])
    decreases |order|
  {
    if order == [] {
      assert st.providers[i := st.providers[i]] == st.providers;
    } else {
      var n := order[0];
      HandleProviderItem(cv, st, i, n, p.options[n]);
      var q := SetProvider(st.providers[i], n, p.options[n]);
      var st' := st.(providers := st.providers[i := q]);
      HandleOptions(cv, st', i, p, order[1..]);
      assert st'.providers[i := q.(options := SetOptions(q.options, p.options, order[1..]))]
          == st.providers[i := q.(options := SetOptions(q.options, p.options, order[1..]))];
      assert OptionItems(p, order)[1..] == OptionItems(p, order[1..]);
    }
  }

  /** What loading makes of a provider q for which p was saved. */
  function Restored(q: Provider, p: Provider): Provider {
    if q.internal then q else q.(enabled := p.enabled, options := q.options + p.options)
  }

  lemma EnabledRoundTrip(q: Provider, p: Provider)
    ensures SetProvider(q, ENABLED, EnabledItem(p).values) == q.(enabled := p.enabled)
    ensures GoodValues(EnabledItem(p).values)
  {
    var v := EnabledItem(p).values[0];
    assert v == "true" || v == "false";
    assert FixedWord(v);
    FixedIsGood(v);
    MergeOne(v);
    LowerFixed(v);
  }

  lemma HandleOne(cv: Conversion, st: Store, i: nat, p: Provider, order: seq<string>)
    requires Total(st.bindings) && i < |st.providers| && DistinctCodes(st.providers)
    requires st.providers[i].codename == p.codename && st.providers[i].internal == p.internal
    requires GoodProvider(p) && IsOrder(order, p.options.Keys)
    ensures HandleItems(cv, st, ProviderItems(p, order))
            == st.(providers := st.providers[i := Restored(st.providers[i], p)])
  {
    var q := st.providers[i];
    if p.internal {
      assert st.providers[i := q] == st.providers;
    } else {
      var q' := q.(enabled := p.enabled);
      var st' := st.(providers := st.providers[i := q']);
      HandleEnabled(cv, st, i, p);
      HandleOptions(cv, st', i, p, order);
      SetOptionsAll(q.options, p.options, order);
      Overwrite(st.providers, i, q', Restored(q, p));
      assert ProviderItems(p, order)[1..] == OptionItems(p, order);
    }
  }

  lemma HandleEnabled(cv: Conversion, st: Store, i: nat, p: Provider)
    requires Total(st.bindings) && i < |st.providers| && DistinctCodes(st.providers)
    requires st.providers[i].codename == p.codename && !st.providers[i].internal && !p.internal && GoodProvider(p)
    ensures HandleEntry(cv, st, EnabledItem(p).key, EnabledItem(p).values)
            == st.(providers := st.providers[i := st.providers[i].(enabled := p.enabled)])
  {
    HeadWords();
    HandleProviderItem(cv, st, i, ENABLED, EnabledItem(p).values);
    EnabledRoundTrip(st.providers[i], p);
  }

  lemma Overwrite<T>(v: seq<T>, i: nat, x: T, y: T)
    requires i < |v|
    ensures v[i := x][i := y] == v[i := y]
  {
  }

  /** The running program knows the same providers as the one that saved. */
  ghost predicate SameProviders(qs: seq<Provider>, ps: seq<Provider>) {
    && |qs| == |ps|
    && forall i :: 0 <= i < |ps| ==> qs[i].codename == ps[i].codename && qs[i].internal == ps[i].internal
  }

  function RestoredAll(qs: seq<Provider>, ps: seq<Provider>): (r: seq<Provider>)
    requires |ps| <= |qs|
    ensures |r| == |qs|
    ensures forall i :: 0 <= i < |qs| ==> r[i] == if i < |ps| then Restored(qs[i], ps[i]) else qs[i]
  {
    seq(|qs|, i requires 0 <= i < |qs| => if i < |ps| then Restored(qs[i], ps[i]) else qs[i])
  }

  lemma RestoredLast(qs: seq<Provider>, ps: seq<Provider>)
    requires 0 < |ps| <= |qs|
    ensures var r := RestoredAll(qs, ps[..|ps| - 1]);
            r[|ps| - 1 := Restored(r[|ps| - 1], ps[|ps| - 1])] == RestoredAll(qs, ps)
  {
  }

  lemma {:induction false} HandleProviders(cv: Conversion, st: Store, ps: seq<Provider>, orders: seq<seq<string>>)
    requires Total(st.bindings) && DistinctCodes(st.providers) && |ps| <= |st.providers|
    requires SameProviders(st.providers[..|ps|], ps) && AreOrders(ps, orders)
    requires forall p :: p in ps ==> GoodProvider(p)
    ensures HandleItems(cv, st, AllProviderItems(ps, orders))
            == st.(providers := RestoredAll(st.providers, ps))
  {
    if ps == [] {
      assert RestoredAll(st.providers, ps) == st.providers;
    } else {
      var n := |ps| - 1;
      assert AreOrders(ps[..n], orders[..n]);
      assert SameProviders(st.providers[..n], ps[..n]);
      HandleProviders(cv, st, ps[..n], orders[..n]);
      var st' := st.(providers := RestoredAll(st.providers, ps[..n]));
      assert GoodProvider(ps[n]);
      HandleOne(cv, st', n, ps[n], orders[n]);
      HandleAppend(cv, st, AllProviderItems(ps[..n], orders[..n]), ProviderItems(ps[n], orders[n]));
      RestoredLast(st.providers, ps);
    }
  }

  // ---- exactly which options come back --------------------------------------------------------

  /** The event sets this option of the provider with this codename. */
  predicate SetsOption(ev: Event, codename: string, n: string, vals: seq<string>) {
    ev.Attribute? && ev.values == vals && n != ENABLED &&
    var parts := Split(ev.key, '.');
    |parts| >= 3 && parts[0] == PROVIDERS && parts[1] == codename && parts[2] == n
  }

  lemma EntryOption(cv: Conversion, st: Store, key: string, vals: seq<string>, i: nat, n: string)
    requires Total(st.bindings) && i < |st.providers|
    ensures var p, q := st.providers[i], HandleEntry(cv, st, key, vals).providers[i];
      && q.codename == p.codename && q.internal == p.internal
      && (n in q.options ==>
            || (n in p.options && q.options[n] == p.options[n])
            || SetsOption(Attribute(key, vals), p.codename, n, q.options[n]))
  {
  }

  /** An option was there before, or some event set it. */
  lemma {:induction false} OptionFrom(cv: Conversion, st: Store, evs: seq<Event>, i: nat, n: string)
    requires Total(st.bindings) && i < |st.providers|
    ensures var p, q := st.providers[i], HandleEvents(cv, st, evs).providers[i];
      && q.codename == p.codename && q.internal == p.internal
      && (n in q.options ==>
            || (n in p.options && q.options[n] == p.options[n])
            || exists ev :: ev in evs && SetsOption(ev, p.codename, n, q.options[n]))
    decreases |evs|
  {
    if evs != [] {
      var init, last := evs[..|evs| - 1], evs[|evs| - 1];
      assert last in evs && forall ev :: ev in init ==> ev in evs;
      OptionFrom(cv, st, init, i, n);
      if last.Attribute? {
        EntryOption(cv, HandleEvents(cv, st, init), last.key, last.values, i, n);
      }
    }
  }

  lemma {:induction false} SplitChars(s: string, c: char, t: string)
    requires t in Split(s, c)
    ensures forall x :: x in t ==> x in s
    decreases |s|
  {
    var i := Find(s, c);
    if i < |s| && t != s[..i] {
      assert Split(s, c)[1..] == Split(s[i + 1..], c);
      SplitChars(s[i + 1..], c, t);
    }
  }

  lemma PartIsGood(key: string, t: string)
    requires PlainKey(key) && t in Split(key, '.')
    ensures GoodWord(t)
  {
    SplitChars(key, '.', t);
    LowerChars(key);
  }

  /** An option that a loaded file set: the key syntax allows its name, but for an end that will
      be lost, and it has values, each trimmed text on one line or a paragraph break. */
  lemma LoadedOption(cv: Conversion, st: Store, text: string, i: nat, n: string)
    requires Total(st.bindings) && i < |st.providers|
    requires n in LoadText(cv, st, text).providers[i].options && n !in st.providers[i].options
    ensures var vals := LoadText(cv, st, text).providers[i].options[n];
      && GoodWord(n) && n != ENABLED && vals != [] && (forall v :: v in vals ==> MaybeClean(v))
      && (GoodOption(n, vals) <==>
            && (n != "" ==> !IsSpace(n[|n| - 1]))
            && "" !in vals && (|vals| > 1 ==> EMPTY_LINE_MARK !in vals))
  {
    var vals := LoadText(cv, st, text).providers[i].options[n];
    OptionFrom(cv, st, ReadFile(text), i, n);
    var ev :| ev in ReadFile(text) && SetsOption(ev, st.providers[i].codename, n, vals);
    ReportedIsGood(text, ev);
    PartIsGood(ev.key, n);
    ReadOption(n, vals);
  }

  lemma ReadOption(n: string, vals: seq<string>)
    requires GoodWord(n) && n != ENABLED && vals != [] && forall v :: v in vals ==> MaybeClean(v)
    ensures GoodOption(n, vals) <==>
      && (n != "" ==> !IsSpace(n[|n| - 1]))
      && "" !in vals && (|vals| > 1 ==> EMPTY_LINE_MARK !in vals)
  {
    assert "" !in vals ==> forall v :: v in vals ==> Clean(v);
  }

  lemma ProviderKeyOpens(p: Provider, n: string)
    requires GoodWord(p.codename) && GoodWord(n)
    ensures OpeningKey(ProviderKey(p, n))
    ensures |ProviderKey(p, n)| == |PROVIDERS| + 1 + |p.codename| + 1 + |n|
    ensures n != "" ==> ProviderKey(p, n)[|ProviderKey(p, n)| - 1] == n[|n| - 1]
  {
    HeadWords();
    var k := PROVIDERS + "." + p.codename + "." + n;
    assert ProviderKey(p, n) == k by {
      var parts := [PROVIDERS, p.codename, n];
      assert parts[1..] == [p.codename, n] && parts[1..][1..] == [n];
      assert Dotted([n]) == n;
      assert Dotted([p.codename, n]) == p.codename + ['.'] + n;
    }
    assert IsLower(k);
    LowerFixed(k);
  }

  lemma SplitAt(s: string, c: char)
    requires Find(s, c) < |s|
    ensures Split(s, c) == [s[..Find(s, c)]] + Split(s[Find(s, c) + 1..], c)
  {
  }

  lemma SplitNone(s: string, c: char)
    requires Find(s, c) == |s|
    ensures |Split(s, c)| == 1
  {
  }

  lemma SplitRest(s: string, c: char)
    requires |Split(s, c)| > 1
    ensures Find(s, c) < |s| && |s| == |Split(s, c)[0]| + 1 + |s[Find(s, c) + 1..]|
    ensures Split(s, c)[1..] == Split(s[Find(s, c) + 1..], c)
  {
    if Find(s, c) == |s| {
      SplitNone(s, c);
    } else {
      SplitAt(s, c);
    }
  }

  lemma ThreeParts(s: string, c: char)
    requires |Split(s, c)| >= 3
    ensures |s| >= |Split(s, c)[0]| + 1 + |Split(s, c)[1]| + 1 + |Split(s, c)[2]|
  {
    SplitRest(s, c);
    var t := s[Find(s, c) + 1..];
    SplitRest(t, c);
    var u := t[Find(t, c) + 1..];
    if |Split(u, c)| > 1 {
      SplitRest(u, c);
    }
  }

  /** If the key as it is read still names n, nothing was lost at its end. */
  lemma NothingLost(p: Provider, n: string)
    requires GoodWord(p.codename) && GoodWord(n)
    requires var parts := Split(Trimmed(ProviderKey(p, n)), '.');
      |parts| >= 3 && parts[0] == PROVIDERS && parts[1] == p.codename && parts[2] == n
    ensures GoodName(n)
  {
    var k := ProviderKey(p, n);
    ProviderKeyOpens(p, n);
    OpeningTrimmed(k);
    ThreeParts(Trimmed(k), '.');
    assert Trimmed(k) == k;
  }

  function OptionText(p: Provider, n: string, vals: seq<string>): string {
    Unlines(ItemLines(Item(ProviderKey(p, n), vals)))
  }

  lemma GoodOptionRead(cv: Conversion, st: Store, i: nat, n: string, vals: seq<string>)
    requires Total(st.bindings) && i < |st.providers| && DistinctCodes(st.providers)
    requires !st.providers[i].internal && GoodWord(st.providers[i].codename) && GoodOption(n, vals)
    ensures var p := st.providers[i];
      LoadText(cv, st, OptionText(p, n, vals))
      == st.(providers := st.providers[i := p.(options := p.options[n := vals])])
  {
    var e := Item(ProviderKey(st.providers[i], n), vals);
    HeadWords();
    DottedKey([PROVIDERS, st.providers[i].codename, n]);
    assert AllLines([e]) == ItemLines(e) by { assert ItemLines(e) + [] == ItemLines(e); }
    ItemsRoundTrip([e]);
    EventsAreItems(cv, st, [e]);
    HandleProviderItem(cv, st, i, n, vals);
  }

  lemma OptionReadIsGood(cv: Conversion, st: Store, i: nat, n: string, vals: seq<string>)
    requires Total(st.bindings) && i < |st.providers|
    requires GoodWord(st.providers[i].codename) && n !in st.providers[i].options
    requires var q := LoadText(cv, st, OptionText(st.providers[i], n, vals)).providers[i];
      n in q.options && q.options[n] == vals
    ensures GoodOption(n, vals)
  {
    var p := st.providers[i];
    var e, text := Item(ProviderKey(p, n), vals), OptionText(p, n, vals);
    LoadedOption(cv, st, text, i, n);
    OptionFrom(cv, st, ReadFile(text), i, n);
    var ev :| ev in ReadFile(text) && SetsOption(ev, p.codename, n, vals);
    ProviderKeyOpens(p, n);
    ItemIsLines(e);
    ReadPrinted(ItemLines(e));
    PrintedReports(e, ev);
    NothingLost(p, n);
  }

  /** An option of any name and any values comes back, as print_providers writes it and the loader
      reads it, exactly when it is good; it is then all that changes. */
  lemma OptionRoundTripExactly(cv: Conversion, st: Store, i: nat, n: string, vals: seq<string>)
    requires Total(st.bindings) && i < |st.providers| && DistinctCodes(st.providers)
    requires !st.providers[i].internal && GoodWord(st.providers[i].codename)
    requires n !in st.providers[i].options
    ensures var p := st.providers[i];
      var r := LoadText(cv, st, OptionText(p, n, vals));
      && (n in r.providers[i].options && r.providers[i].options[n] == vals <==> GoodOption(n, vals))
      && (GoodOption(n, vals) ==> r == st.(providers := st.providers[i := p.(options := p.options[n := vals])]))
  {
    var r := LoadText(cv, st, OptionText(st.providers[i], n, vals));
    if GoodOption(n, vals) {
      GoodOptionRead(cv, st, i, n, vals);
    } else if n in r.providers[i].options && r.providers[i].options[n] == vals {
      OptionReadIsGood(cv, st, i, n, vals);
    }
  }

  // ---- what loading leaves alone ------------------------------------------------------------------

  lemma NoSuchEvent(s: string)
    requires forall e: KeyEvent :: !Internal(e) ==> EventName(e) != s
    ensures Internal(EventNamed(s))
  {
    assert EventName(Accept) != s && EventName(Cancel) != s && EventName(Details) != s;
    assert EventName(KeyEvent.Filters) != s && EventName(NextPage) != s && EventName(PrevPage) != s;
    assert EventName(PageUp) != s && EventName(PageDown) != s && EventName(MainMenu) != s;
    assert EventName(Netplay) != s && EventName(Guide) != s;
  }

  /** What an entry can name that the program does not know. */
  ghost predicate Unknown(st: Store, parts: seq<string>) {
    || |parts| < 2
    || (parts[0] != "providers" && parts[0] != "keys")
    || (parts[0] == "providers" &&
          (|parts| < 3 || forall p :: p in st.providers ==> p.internal || p.codename != parts[1]))
    || (parts[0] == "keys" && forall e: KeyEvent :: !Internal(e) ==> EventName(e) != parts[1])
  }

  /** Such an entry changes nothing. */
  lemma UnknownIgnored(cv: Conversion, st: Store, key: string, vals: seq<string>)
    requires Total(st.bindings) && Unknown(st, Split(key, '.'))
    ensures HandleEntry(cv, st, key, vals) == st
  {
    var parts := Split(key, '.');
    if |parts| >= 2 && parts[0] == KEYS {
      NoSuchEvent(parts[1]);
    }
  }

  /** Further parts of a key are ignored. */
  lemma FurtherPartsIgnored(cv: Conversion, st: Store, key: string, longer: string, vals: seq<string>)
    requires Total(st.bindings)
    requires var parts, more := Split(key, '.'), Split(longer, '.');
      |parts| == (if parts[0] == PROVIDERS then 3 else 2) && parts <= more
    ensures HandleEntry(cv, st, longer, vals) == HandleEntry(cv, st, key, vals)
  {
    var parts, more := Split(key, '.'), Split(longer, '.');
    assert forall i :: 0 <= i < |parts| ==> more[i] == parts[i];
  }

  /** Whatever the file says, an internal provider is what it was, and so are the names. */
  lemma {:induction false} InternalSpared(cv: Conversion, st: Store, evs: seq<Event>, i: nat)
    requires Total(st.bindings) && i < |st.providers|
    ensures var p, q := st.providers[i], HandleEvents(cv, st, evs).providers[i];
      q.codename == p.codename && q.internal == p.internal && (p.internal ==> q == p)
    decreases |evs|
  {
    if evs != [] {
      InternalSpared(cv, st, evs[..|evs| - 1], i);
    }
  }

  /** The words for yes and no; any other leaves the flag as it was. */
  lemma BoolWords(s: string)
    ensures s in ["yes", "on", "true"] ==> ToBool(s, true) && ToBool(s, false)
    ensures s in ["no", "off", "false"] ==> !ToBool(s, true) && !ToBool(s, false)
    ensures s !in ["yes", "on", "true", "no", "off", "false"] ==> ToBool(s, true) && !ToBool(s, false)
  {
  }

  lemma KeyAsWritten(name: string)
    ensures Dotted([KEYS, name]) == "keys." + name
  {
    assert [KEYS, name][1..] == [name] && Dotted([name]) == name;
    assert KEYS + ['.'] == "keys.";
  }

  lemma OptionAsWritten(code: string, name: string)
    ensures Dotted([PROVIDERS, code, name]) == "providers." + code + "." + name
  {
    var parts := [PROVIDERS, code, name];
    assert parts[1..] == [code, name] && parts[1..][1..] == [name];
    assert Dotted([name]) == name;
    assert Dotted([code, name]) == code + ['.'] + name;
    assert PROVIDERS + ['.'] == "providers.";
  }

  /** The lines of the settings file, as they look. */
  lemma LinesAsWritten(cv: Conversion, p: Provider, m: Bindings, e: KeyEvent, n: string, v: string, w: string)
    requires Total(m)
    ensures ItemLines(EnabledItem(p)) ==
      ["providers." + p.codename + ".enabled: " + if p.enabled then "true" else "false"]
    ensures ItemLines(Item(ProviderKey(p, n), [v])) == ["providers." + p.codename + "." + n + ": " + v]
    ensures ItemLines(Item(ProviderKey(p, n), [v, w])) ==
      ["providers." + p.codename + "." + n + ":", "  " + v, "  " + w]
    ensures ItemLines(KeyItem(cv, m, e)) == ["keys." + EventName(e) + ": " + KeyValue(cv, m[e])]
  {
    KeyAsWritten(EventName(e));
    OptionAsWritten(p.codename, n);
    EnabledAsWritten(p);
    assert Indented([w]) == ["  " + w];
    assert [v, w][1..] == [w];
    assert Indented([v, w]) == ["  " + v, "  " + w];
  }

  lemma EnabledAsWritten(p: Provider)
    ensures ItemLines(EnabledItem(p)) ==
      ["providers." + p.codename + ".enabled: " + if p.enabled then "true" else "false"]
  {
    OptionAsWritten(p.codename, ENABLED);
    var head := "providers." + p.codename;
    assert head + "." + ENABLED + ": " == head + ".enabled: ";
  }

  // ---- key bindings come back -----------------------------------------------------------------

  /** No named event has an empty key sequence: there is none to press. */
  ghost predicate NoEmptyKeys(m: Bindings) {
    forall e :: e in m && !Internal(e) ==> [] !in m[e]
  }

  /** The conversion brings every key sequence back that is bound to a named event. */
  ghost predicate FaithfulToNamed(cv: Conversion, m: Bindings) {
    forall e :: e in m && !Internal(e) ==> Faithful(cv, m[e])
  }

  lemma HandleKeyItem(cv: Conversion, st: Store, m: Bindings, e: KeyEvent)
    requires Total(st.bindings) && Total(m) && NoEmptyKeys(m) && Faithful(cv, m[e]) && !Internal(e)
    ensures HandleEntry(cv, st, KeyItem(cv, m, e).key, KeyItem(cv, m, e).values)
            == st.(bindings := LoadRow(st.bindings, e, m[e]))
  {
    HeadWords();
    EventWord(e);
    EventNameBack(e);
    DottedKey([KEYS, EventName(e)]);
    KeysRoundTrip(cv, m[e]);
    MergeOne(KeyValue(cv, m[e]));
  }

  lemma {:induction false} HandleKeys(cv: Conversion, st: Store, m: Bindings, order: seq<KeyEvent>)
    requires Total(st.bindings) && Total(m) && NoEmptyKeys(m) && FaithfulToNamed(cv, m)
    requires forall e :: e in order ==> !Internal(e)
    ensures HandleItems(cv, st, KeyItems(cv, m, order)) == st.(bindings := LoadRows(st.bindings, m, order))
  {
    if order != [] {
      var init, e := order[..|order| - 1], order[|order| - 1];
      assert e in order;
      HandleKeys(cv, st, m, init);
      var st' := st.(bindings := LoadRows(st.bindings, m, init));
      HandleKeyItem(cv, st', m, e);
      HandleAppend(cv, st, KeyItems(cv, m, init), [KeyItem(cv, m, e)]);
      assert HandleItems(cv, st', [KeyItem(cv, m, e)])
          == HandleEntry(cv, st', KeyItem(cv, m, e).key, KeyItem(cv, m, e).values);
    }
  }

  // ---- the whole file -------------------------------------------------------------------------

  /** An item of another section, as print_general writes them. */
  ghost predicate ForeignItem(e: Item) {
    GoodItem(e) && Split(e.key, '.')[0] != PROVIDERS && Split(e.key, '.')[0] != KEYS
  }

  lemma {:induction false} HandleForeign(cv: Conversion, st: Store, es: seq<Item>)
    requires Total(st.bindings) && forall e :: e in es ==> ForeignItem(e)
    ensures HandleItems(cv, st, es) == st
    decreases |es|
  {
    if es != [] {
      assert ForeignItem(es[0]);
      HandleForeign(cv, st, es[1..]);
    }
  }

  ghost function SavedItems(cv: Conversion, general: seq<Item>, sv: Store,
                            orders: seq<seq<string>>, order: seq<KeyEvent>): seq<Item>
    requires AreOrders(sv.providers, orders) && forall e :: e in order ==> e in sv.bindings
  {
    general + AllProviderItems(sv.providers, orders) + KeyItems(cv, sv.bindings, order)
  }

  ghost predicate GoodStore(sv: Store) {
    && (forall p :: p in sv.providers ==> GoodProvider(p))
    && DistinctCodes(sv.providers)
    && Total(sv.bindings) && NoEmptyKeys(sv.bindings)
  }

  // create_providers, in its order; the ones for other programs may be compiled in or not
  const CODES := [
    "pegasus_metafiles", "pegasus_media", "steam", "gog", "es2", "androidapps", "launchbox", "logiqx",
    "lutris", "skraper", "retroAchievements", "pegasus_favorites", "pegasus_playtime"]

  predicate InternalCode(code: string) {
    || code == "pegasus_metafiles" || code == "pegasus_media" || code == "retroAchievements"
    || code == "pegasus_favorites" || code == "pegasus_playtime"
  }

  function Included(compiled: set<string>): string -> bool {
    code => InternalCode(code) || code in compiled
  }

  function CreateProviders(compiled: set<string>): seq<Provider> {
    var codes := Filter(CODES, Included(compiled));
    seq(|codes|, i requires 0 <= i < |codes| => Provider(codes[i], InternalCode(codes[i]), true, map[]))
  }

  /** Where a codename stands in the list. */
  function CodeIndex(code: string): nat {
    if code == "pegasus_metafiles" then 0 else if code == "pegasus_media" then 1
    else if code == "steam" then 2 else if code == "gog" then 3
    else if code == "es2" then 4 else if code == "androidapps" then 5
    else if code == "launchbox" then 6 else if code == "logiqx" then 7
    else if code == "lutris" then 8 else if code == "skraper" then 9
    else if code == "retroAchievements" then 10 else if code == "pegasus_favorites" then 11
    else 12
  }

  lemma CodesDiffer()
    ensures NoDup(CODES)
  {
    assert forall i :: 0 <= i < |CODES| ==> CodeIndex(CODES[i]) == i;
  }

  lemma FirstCodesFixed(code: string)
    requires code == "steam" || code == "gog" || code == "es2" || code == "androidapps"
    ensures FixedWord(code)
  {
  }

  lemma LastCodesFixed(code: string)
    requires code == "launchbox" || code == "logiqx" || code == "lutris" || code == "skraper"
    ensures FixedWord(code)
  {
  }

  lemma CodesAreGood(code: string)
    requires code in CODES && !InternalCode(code)
    ensures GoodWord(code)
  {
    if code == "steam" || code == "gog" || code == "es2" || code == "androidapps" {
      FirstCodesFixed(code);
    } else {
      LastCodesFixed(code);
    }
    FixedIsGood(code);
  }

  /** Whatever is compiled in, the program's providers meet what is asked of them as long as their
      options do, and so they do with the settings the program starts with. */
  lemma ProgramStoreIsGood(compiled: set<string>, sv: Store)
    requires SameProviders(sv.providers, CreateProviders(compiled))
    requires forall p, n :: p in sv.providers && !p.internal && n in p.options ==> GoodOption(n, p.options[n])
    requires Total(sv.bindings) && NoEmptyKeys(sv.bindings)
    ensures GoodStore(sv)
  {
    var codes := Filter(CODES, Included(compiled));
    CodesDiffer();
    FilterNoDup(CODES, Included(compiled));
    forall i | 0 <= i < |sv.providers| ensures GoodProvider(sv.providers[i]) {
      assert codes[i] in codes;
      if !sv.providers[i].internal {
        CodesAreGood(codes[i]);
      }
    }
  }

  lemma NewStoreIsGood(compiled: set<string>)
    ensures GoodStore(Store(CreateProviders(compiled), DefaultKeymap())) && Exclusive(DefaultKeymap())
  {
    DefaultExclusive();
    forall e: KeyEvent ensures [] !in Default(e) {
      DefaultRow(e);
    }
    ProgramStoreIsGood(compiled, Store(CreateProviders(compiled), DefaultKeymap()));
  }

  lemma OptionItemsGood(p: Provider, order: seq<string>)
    requires GoodProvider(p) && !p.internal && forall n :: n in order ==> n in p.options
    ensures forall e :: e in OptionItems(p, order) ==> GoodItem(e)
  {
    if order != [] {
      var n := order[0];
      assert n in order;
      HeadWords();
      DottedKey([PROVIDERS, p.codename, n]);
      OptionItemsGood(p, order[1..]);
    }
  }

  lemma ProviderItemsGood(p: Provider, order: seq<string>)
    requires GoodProvider(p) && forall n :: n in order ==> n in p.options
    ensures forall e :: e in ProviderItems(p, order) ==> GoodItem(e)
  {
    if !p.internal {
      HeadWords();
      DottedKey([PROVIDERS, p.codename, ENABLED]);
      EnabledRoundTrip(p, p);
      OptionItemsGood(p, order);
    }
  }

  lemma {:induction false} AllProviderItemsGood(ps: seq<Provider>, orders: seq<seq<string>>)
    requires AreOrders(ps, orders) && forall p :: p in ps ==> GoodProvider(p)
    ensures forall e :: e in AllProviderItems(ps, orders) ==> GoodItem(e)
  {
    if ps != [] {
      var n := |ps| - 1;
      assert AreOrders(ps[..n], orders[..n]);
      AllProviderItemsGood(ps[..n], orders[..n]);
      assert GoodProvider(ps[n]);
      ProviderItemsGood(ps[n], orders[n]);
    }
  }

  lemma KeyItemGood(cv: Conversion, m: Bindings, e: KeyEvent)
    requires Total(m) && NoEmptyKeys(m) && Faithful(cv, m[e]) && !Internal(e)
    ensures GoodItem(KeyItem(cv, m, e))
  {
    HeadWords();
    EventWord(e);
    DottedKey([KEYS, EventName(e)]);
    KeysRoundTrip(cv, m[e]);
  }

  lemma {:induction false} KeyItemsGood(cv: Conversion, m: Bindings, order: seq<KeyEvent>)
    requires Total(m) && NoEmptyKeys(m) && FaithfulToNamed(cv, m)
    requires forall e :: e in order ==> !Internal(e)
    ensures forall e :: e in KeyItems(cv, m, order) ==> GoodItem(e)
  {
    if order != [] {
      var init, e := order[..|order| - 1], order[|order| - 1];
      assert e in order;
      KeyItemsGood(cv, m, init);
      KeyItemGood(cv, m, e);
    }
  }

  /** What the loader gets out of a saved file, whatever order the hash maps were walked in. */
  lemma LoadSaved(cv: Conversion, general: seq<Item>, sv: Store, st: Store,
                  orders: seq<seq<string>>, order: seq<KeyEvent>)
    requires FaithfulToNamed(cv, sv.bindings) && GoodStore(sv)
    requires Total(st.bindings) && SameProviders(st.providers, sv.providers)
    requires AreOrders(sv.providers, orders) && forall e :: e in order ==> !Internal(e)
    requires forall e :: e in general ==> ForeignItem(e)
    ensures LoadText(cv, st, Unlines(AllLines(SavedItems(cv, general, sv, orders, order))))
            == Store(RestoredAll(st.providers, sv.providers), LoadRows(st.bindings, sv.bindings, order))
  {
    var ps, ks := AllProviderItems(sv.providers, orders), KeyItems(cv, sv.bindings, order);
    AllProviderItemsGood(sv.providers, orders);
    KeyItemsGood(cv, sv.bindings, order);
    var es := SavedItems(cv, general, sv, orders, order);
    ItemsRoundTrip(es);
    EventsAreItems(cv, st, es);
    HandleAppend(cv, st, general + ps, ks);
    HandleAppend(cv, st, general, ps);
    HandleForeign(cv, st, general);
    assert st.providers[..|sv.providers|] == st.providers;
    HandleProviders(cv, st, sv.providers, orders);
    HandleKeys(cv, st.(providers := RestoredAll(st.providers, sv.providers)), sv.bindings, order);
  }

  /** Saving and loading restores every provider's enabled flag and options, value lists in
      order, and every named event's bindings, over whatever was set before. */
  lemma SettingsRoundTrip(cv: Conversion, general: seq<Item>, sv: Store, st: Store,
                          orders: seq<seq<string>>, order: seq<KeyEvent>)
    requires FaithfulToNamed(cv, sv.bindings) && GoodStore(sv) && Exclusive(sv.bindings)
    requires Total(st.bindings) && SameProviders(st.providers, sv.providers)
    requires AreOrders(sv.providers, orders) && NoDup(order) && forall e :: e in order <==> !Internal(e)
    requires forall e :: e in general ==> ForeignItem(e)
    ensures var r := LoadText(cv, st, Unlines(AllLines(SavedItems(cv, general, sv, orders, order))));
            && |r.providers| == |sv.providers|
            && (forall i :: 0 <= i < |sv.providers| && !sv.providers[i].internal ==>
                  && r.providers[i].enabled == sv.providers[i].enabled
                  && r.providers[i].options == st.providers[i].options + sv.providers[i].options)
            && (forall i :: 0 <= i < |sv.providers| && sv.providers[i].internal ==>
                  r.providers[i] == st.providers[i])
            && (forall e :: !Internal(e) ==> r.bindings[e] == sv.bindings[e])
  {
    LoadSaved(cv, general, sv, st, orders, order);
    forall e | !Internal(e) ensures LoadRows(st.bindings, sv.bindings, order)[e] == sv.bindings[e] {
      LoadRowsRestores(st.bindings, sv.bindings, order, e);
    }
  }

  lemma RestoredSelf(ps: seq<Provider>)
    ensures RestoredAll(ps, ps) == ps
  {
    forall i | 0 <= i < |ps| ensures RestoredAll(ps, ps)[i] == ps[i] {
      assert ps[i].options + ps[i].options == ps[i].options;
    }
  }

  /** Loading one's own saved settings changes nothing at all. */
  lemma ReloadIsIdentity(cv: Conversion, general: seq<Item>, sv: Store,
                         orders: seq<seq<string>>, order: seq<KeyEvent>)
    requires FaithfulToNamed(cv, sv.bindings) && GoodStore(sv) && Exclusive(sv.bindings)
    requires AreOrders(sv.providers, orders) && NoDup(order) && forall e :: e in order <==> !Internal(e)
    requires forall e :: e in general ==> ForeignItem(e)
    ensures LoadText(cv, sv, Unlines(AllLines(SavedItems(cv, general, sv, orders, order)))) == sv
  {
    LoadSaved(cv, general, sv, sv, orders, order);
    LoadRowsRestoresAll(sv.bindings, sv.bindings, order);
    RestoredSelf(sv.providers);
  }
}
