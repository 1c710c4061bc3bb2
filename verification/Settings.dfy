/** SaveContext and LoadContext at work on the program's settings. */
module Settings {
  import opened StdHelpers
  import opened Text
  import opened MetaFile
  import opened EntryText
  import opened KeyMap
  import opened KeyText
  import opened SettingsFile

  class AppSettings {
    const cv: Conversion
    const keys: Keys
    var providers: seq<Provider>

    ghost predicate Valid()
      reads this, keys
    {
      keys.Valid()
    }

    ghost function Contents(): Store
      reads this, keys
    {
      Store(providers, keys.bindings)
    }

    constructor (cv: Conversion, providers: seq<Provider>)
      ensures Valid() && fresh(keys)
      ensures Contents() == Store(providers, DefaultKeymap())
    {
      this.cv := cv;
      this.providers := providers;
      keys := new Keys();
    }

    // ---- saving ----

    static method PrintItem(e: Item) returns (text: string)
      ensures text == Unlines(ItemLines(e))
    {
      text := e.key + ":";
      if |e.values| == 1 {
        text := text + " " + e.values[0] + "\n";
        assert ItemLines(e)[1..] == [];
        assert e.key + ":" + " " + e.values[0] == e.key + ": " + e.values[0];
        return;
      }
      text := text + "\n";
      var i := 0;
      while i < |e.values|
        invariant 0 <= i <= |e.values|
        invariant text == e.key + ":" + "\n" + Unlines(Indented(e.values[..i]))
      {
        assert e.values[..i + 1] == e.values[..i] + [e.values[i]];
        IndentedLast(e.values[..i], e.values[i]);
        text := text + ("  " + e.values[i] + "\n");
        i := i + 1;
      }
      assert e.values[..i] == e.values;
    }

    static lemma {:induction false} IndentedLast(vs: seq<string>, v: string)
      ensures Unlines(Indented(vs + [v])) == Unlines(Indented(vs)) + ("  " + v + "\n")
    {
      if vs == [] {
        assert vs + [v] == [v];
        assert "" + ("  " + v + "\n") == "  " + v + "\n" + "";
      } else {
        assert (vs + [v])[0] == vs[0] && (vs + [v])[1..] == vs[1..] + [v];
        IndentedLast(vs[1..], v);
      }
    }

    /** print_providers; order tells in which order the options were walked. */
    method PrintProviders() returns (text: string, ghost orders: seq<seq<string>>)
      ensures AreOrders(providers, orders)
      ensures text == Unlines(AllLines(AllProviderItems(providers, orders)))
    {
      text, orders := "", [];
      var i := 0;
      while i < |providers|
        invariant 0 <= i <= |providers|
        invariant AreOrders(providers[..i], orders)
        invariant text == Unlines(AllLines(AllProviderItems(providers[..i], orders)))
      {
        var t, order := PrintProvider(providers[i]);
        OneMoreProvider(providers, i, orders, order);
        text, orders := text + t, orders + [order];
        i := i + 1;
      }
      assert providers[..i] == providers;
    }

    static lemma OneMoreOrder(ps: seq<Provider>, i: nat, orders: seq<seq<string>>, order: seq<string>)
      requires i < |ps| && AreOrders(ps[..i], orders) && IsOrder(order, ps[i].options.Keys)
      ensures AreOrders(ps[..i + 1], orders + [order])
    {
    }

    static lemma OneMoreItems(ps: seq<Provider>, i: nat, orders: seq<seq<string>>, order: seq<string>)
      requires i < |ps| && AreOrders(ps[..i], orders) && IsOrder(order, ps[i].options.Keys)
      requires AreOrders(ps[..i + 1], orders + [order])
      ensures AllProviderItems(ps[..i + 1], orders + [order])
              == AllProviderItems(ps[..i], orders) + ProviderItems(ps[i], order)
    {
      assert ps[..i + 1][..i] == ps[..i] && (orders + [order])[..i] == orders;
    }

    static lemma OneMoreProvider(ps: seq<Provider>, i: nat, orders: seq<seq<string>>, order: seq<string>)
      requires i < |ps| && AreOrders(ps[..i], orders) && IsOrder(order, ps[i].options.Keys)
      ensures AreOrders(ps[..i + 1], orders + [order])
      ensures Unlines(AllLines(AllProviderItems(ps[..i + 1], orders + [order])))
              == Unlines(AllLines(AllProviderItems(ps[..i], orders))) + Unlines(AllLines(ProviderItems(ps[i], order)))
    {
      OneMoreOrder(ps, i, orders, order);
      OneMoreItems(ps, i, orders, order);
      AllLinesAppend(AllProviderItems(ps[..i], orders), ProviderItems(ps[i], order));
    }

    static method PrintProvider(p: Provider) returns (text: string, ghost order: seq<string>)
      ensures IsOrder(order, p.options.Keys)
      ensures text == Unlines(AllLines(ProviderItems(p, order)))
    {
      text, order := "", [];
      var todo := p.options.Keys;
      if !p.internal {
        text := PrintItem(EnabledItem(p));
        AllLinesOne(EnabledItem(p));
      }
      while todo != {}
        invariant todo <= p.options.Keys
        invariant IsOrder(order, p.options.Keys - todo)
        invariant text == Unlines(AllLines(ProviderItems(p, order)))
      {
        var n :| n in todo;
        if !p.internal {
          var t := PrintItem(Item(ProviderKey(p, n), p.options[n]));
          OptionItemsLast(p, order, n);
          AllLinesAppend(ProviderItems(p, order), [Item(ProviderKey(p, n), p.options[n])]);
          AllLinesOne(Item(ProviderKey(p, n), p.options[n]));
          text := text + t;
        }
        order, todo := order + [n], todo - {n};
      }
    }

    static lemma {:induction false} OptionItemsLast(p: Provider, order: seq<string>, n: string)
      requires n in p.options && forall m :: m in order ==> m in p.options
      ensures OptionItems(p, order + [n]) == OptionItems(p, order) + [Item(ProviderKey(p, n), p.options[n])]
      ensures !p.internal ==>
                ProviderItems(p, order + [n]) == ProviderItems(p, order) + [Item(ProviderKey(p, n), p.options[n])]
    {
      if order == [] {
        assert order + [n] == [n];
      } else {
        assert (order + [n])[0] == order[0] && (order + [n])[1..] == order[1..] + [n];
        OptionItemsLast(p, order[1..], n);
      }
    }

    static lemma AllLinesOne(e: Item)
      ensures AllLines([e]) == ItemLines(e)
    {
      assert ItemLines(e) + [] == ItemLines(e);
    }

    static lemma {:induction false} AllLinesConcat(a: seq<Item>, b: seq<Item>)
      ensures AllLines(a + b) == AllLines(a) + AllLines(b)
    {
      if a == [] {
        assert a + b == b;
      } else {
        assert (a + b)[0] == a[0] && (a + b)[1..] == a[1..] + b;
        AllLinesConcat(a[1..], b);
      }
    }

    static lemma AllLinesAppend(a: seq<Item>, b: seq<Item>)
      ensures Unlines(AllLines(a + b)) == Unlines(AllLines(a)) + Unlines(AllLines(b))
    {
      AllLinesConcat(a, b);
      UnlinesAppend(AllLines(a), AllLines(b));
    }

    static lemma KeyItemsLast(cv: Conversion, m: Bindings, order: seq<KeyEvent>, e: KeyEvent)
      requires e in m && forall f :: f in order ==> f in m
      ensures Unlines(AllLines(KeyItems(cv, m, order + [e])))
              == Unlines(AllLines(KeyItems(cv, m, order))) + Unlines(ItemLines(KeyItem(cv, m, e)))
    {
      assert (order + [e])[..|order|] == order;
      AllLinesAppend(KeyItems(cv, m, order), [KeyItem(cv, m, e)]);
      AllLinesOne(KeyItem(cv, m, e));
    }

    static function NamedEvents(): set<KeyEvent> {
      set e: KeyEvent | !Internal(e)
    }

    /** print_keys; order tells in which order the event names were walked. */
    method PrintKeys() returns (text: string, ghost order: seq<KeyEvent>)
      requires Valid()
      ensures IsOrder(order, NamedEvents())
      ensures text == Unlines(AllLines(KeyItems(cv, keys.bindings, order)))
    {
      text, order := "", [];
      var todo := NamedEvents();
      while todo != {}
        invariant todo <= NamedEvents()
        invariant IsOrder(order, NamedEvents() - todo)
        invariant text == Unlines(AllLines(KeyItems(cv, keys.bindings, order)))
      {
        var e :| e in todo;
        var value := PrintValue(keys.bindings[e]);
        var t := PrintItem(Item(Dotted([KEYS, EventName(e)]), [value]));
        KeyItemsLast(cv, keys.bindings, order, e);
        text := text + t;
        order, todo := order + [e], todo - {e};
      }
    }

    method PrintValue(ks: seq<KeySeq>) returns (value: string)
      ensures value == KeyValue(cv, ks)
    {
      var labels := [];
      var i := 0;
      while i < |ks|
        invariant 0 <= i <= |ks|
        invariant labels == Labels(cv, ks[..i])
      {
        assert ks[..i + 1] == ks[..i] + [ks[i]];
        LabelsLast(cv, ks[..i], ks[i]);
        labels := labels + [Label(cv, ks[i])];
        i := i + 1;
      }
      assert ks[..i] == ks;
      if labels == [] {
        labels := [NO_KEYS];
      }
      value := Join(labels, ',');
    }

    static lemma {:induction false} LabelsLast(cv: Conversion, ks: seq<KeySeq>, k: KeySeq)
      ensures Labels(cv, ks + [k]) == Labels(cv, ks) + [Label(cv, k)]
    {
      if ks == [] {
        assert ks + [k] == [k];
      } else {
        assert (ks + [k])[0] == ks[0] && (ks + [k])[1..] == ks[1..] + [k];
        LabelsLast(cv, ks[1..], k);
      }
    }

    // ---- loading ----

    /** handle_provider_attrib. */
    method HandleProviderAttrib(vals: seq<string>, sections: seq<string>)
      modifies this
      ensures providers == HandleProvider(old(providers), vals, sections)
    {
      if |sections| < 2 {
        return;
      }
      var i := 0;
      while i < |providers| && providers[i].codename != sections[0]
        invariant 0 <= i <= |providers|
        invariant forall j :: 0 <= j < i ==> providers[j].codename != sections[0]
      {
        i := i + 1;
      }
      assert i == FindProvider(providers, sections[0]);
      if i == |providers| || providers[i].internal {
        return;
      }
      var p := providers[i];
      if sections[1] == ENABLED {
        p := p.(enabled := ToBool(ToLower(MergeLines(vals)), p.enabled));
      } else {
        p := p.(options := p.options[sections[1] := vals]);
      }
      providers := providers[i := p];
    }

    /** handle_key_attrib. */
    method HandleKeyAttrib(val: string, sections: seq<string>)
      requires Valid() && sections != []
      modifies keys
      ensures Valid() && keys.bindings == HandleKey(cv, old(keys.bindings), val, sections)
    {
      var e := EventNamed(sections[0]);
      if Internal(e) {
        return;
      }
      keys.Clear(e);
      if ToLower(val) == NO_KEYS {
        return;
      }
      var keyseqs := ParseKeys(val);
      AddKeys(e, keyseqs);
    }

    method ParseKeys(val: string) returns (keyseqs: seq<KeySeq>)
      ensures keyseqs == ReadParts(cv, Split(val, ','))
    {
      var parts := Split(val, ',');
      keyseqs := [];
      var i := 0;
      while i < |parts|
        invariant 0 <= i <= |parts|
        invariant keyseqs == ReadParts(cv, parts[..i])
      {
        assert parts[..i + 1] == parts[..i] + [parts[i]];
        ReadPartsLast(cv, parts[..i], parts[i]);
        if parts[i] != "" {
          var k := ReadLabel(cv, parts[i]);
          if k != [] {
            keyseqs := keyseqs + [k];
          }
        }
        i := i + 1;
      }
      assert parts[..i] == parts;
    }

    static lemma {:induction false} ReadPartsLast(cv: Conversion, parts: seq<string>, part: string)
      ensures ReadParts(cv, parts + [part]) == ReadParts(cv, parts)
              + if part == "" || ReadLabel(cv, part) == [] then [] else [ReadLabel(cv, part)]
    {
      if parts == [] {
        assert parts + [part] == [part];
      } else {
        assert (parts + [part])[0] == parts[0] && (parts + [part])[1..] == parts[1..] + [part];
        ReadPartsLast(cv, parts[1..], part);
      }
    }

    method AddKeys(e: KeyEvent, keyseqs: seq<KeySeq>)
      requires Valid()
      modifies keys
      ensures Valid() && keys.bindings == AddAll(old(keys.bindings), e, keyseqs)
    {
      ghost var start := keys.bindings;
      var i := 0;
      while i < |keyseqs|
        invariant 0 <= i <= |keyseqs|
        invariant Valid()
        invariant keys.bindings == AddAll(start, e, keyseqs[..i])
      {
        AddAllLast(start, e, keyseqs, i);
        keys.AddKey(e, keyseqs[i]);
        i := i + 1;
      }
      assert keyseqs[..i] == keyseqs;
    }

    static lemma AddAllLast(m: Bindings, e: KeyEvent, ks: seq<KeySeq>, i: nat)
      requires e in m && i < |ks|
      ensures AddAll(m, e, ks[..i + 1]) == KeyMap.AddKey(AddAll(m, e, ks[..i]), e, ks[i])
    {
      assert ks[..i + 1][..i] == ks[..i];
    }

    /** handle_entry, for the provider and key sections. */
    method HandleAttribute(key: string, vals: seq<string>)
      requires Valid()
      modifies this, keys
      ensures Valid() && Contents() == HandleEntry(cv, old(Contents()), key, vals)
    {
      var sections := Split(key, '.');
      if |sections| < 2 {
        return;
      }
      if sections[0] == PROVIDERS {
        HandleProviderAttrib(vals, sections[1..]);
      } else if sections[0] == KEYS {
        HandleKeyAttrib(MergeLines(vals), sections[1..]);
      }
    }

    /** LoadContext::load. */
    method Load(text: string)
      requires Valid()
      modifies this, keys
      ensures Valid() && Contents() == LoadText(cv, old(Contents()), text)
    {
      var events := ReadWholeFile(text);
      var i := 0;
      while i < |events|
        invariant 0 <= i <= |events|
        invariant Valid() && Contents() == HandleEvents(cv, old(Contents()), events[..i])
      {
        assert events[..i + 1][..i] == events[..i];
        if events[i].Attribute? {
          HandleAttribute(events[i].key, events[i].values);
        }
        i := i + 1;
      }
      assert events[..i] == events;
    }

    /** SaveContext::save, after print_general has written the items of its own section. */
    method Save(general: seq<Item>) returns (text: string, ghost orders: seq<seq<string>>, ghost order: seq<KeyEvent>)
      requires Valid()
      ensures AreOrders(providers, orders) && IsOrder(order, NamedEvents())
      ensures text == Unlines(AllLines(SavedItems(cv, general, Contents(), orders, order)))
    {
      text := "";
      var i := 0;
      while i < |general|
        invariant 0 <= i <= |general|
        invariant text == Unlines(AllLines(general[..i]))
      {
        assert general[..i + 1] == general[..i] + [general[i]];
        var t := PrintItem(general[i]);
        AllLinesAppend(general[..i], [general[i]]);
        AllLinesOne(general[i]);
        text := text + t;
        i := i + 1;
      }
      assert general[..i] == general;
      var t1, t2;
      t1, orders := PrintProviders();
      t2, order := PrintKeys();
      AllLinesAppend(general, AllProviderItems(providers, orders));
      AllLinesAppend(general + AllProviderItems(providers, orders), KeyItems(cv, keys.bindings, order));
      text := text + t1 + t2;
    }
  }

  /** One program saves, another with the same providers loads: it then has the saved flag and
      options of every provider, options of its own kept, and the saved keys of every named event. */
  method SaveThenLoad(from: AppSettings, to: AppSettings, general: seq<Item>)
    requires from.Valid() && to.Valid() && to.cv == from.cv && FaithfulToNamed(from.cv, from.keys.bindings)
    requires GoodStore(from.Contents()) && SameProviders(to.providers, from.providers)
    requires forall e :: e in general ==> ForeignItem(e)
    modifies to, to.keys
    ensures to.Valid() && |to.providers| == |old(from.providers)|
    ensures forall i :: 0 <= i < |to.providers| && !old(from.providers)[i].internal ==>
      && to.providers[i].enabled == old(from.providers)[i].enabled
      && to.providers[i].options == old(to.providers)[i].options + old(from.providers)[i].options
    ensures forall i :: 0 <= i < |to.providers| && old(from.providers)[i].internal ==>
      to.providers[i] == old(to.providers)[i]
    ensures forall e :: !Internal(e) ==> to.keys.bindings[e] == old(from.keys.bindings)[e]
  {
    var text, orders, order := from.Save(general);
    SettingsRoundTrip(from.cv, general, from.Contents(), to.Contents(), orders, order);
    to.Load(text);
  }
}
