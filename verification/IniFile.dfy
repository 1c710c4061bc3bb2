/** The ini store: pending writes over the loaded configuration, and the file they come from. */
module IniFile {
  import opened Text
  import opened StringOps
  import opened IniText
  import opened IniRoundTrip
  import opened Numbers
  import opened Wrappers

  // ---- reading a key ----------------------------------------------------------------------------

  /** A pending value hides the loaded one; no value at all reads as the empty string. */
  function Overlaid(config: Config, pending: Config, k: string): string {
    if k in pending then pending[k] else if k in config then config[k] else ""
  }

  /** What a text gives a key, as it reads. */
  function TextValue(text: string, k: string): string {
    match FileValue(text, k)
    case None => ""
    case Some(v) => v
  }

  lemma LoadedValues(text: string)
    ensures forall k :: Overlaid(LoadLines(map[], TextLines(text)), map[], k) == TextValue(text, k)
  {
    forall k ensures Overlaid(LoadLines(map[], TextLines(text)), map[], k) == TextValue(text, k) {
      LoadedValue(map[], TextLines(text), k);
    }
  }

  /** The pending writes after these calls of SetString. */
  function AfterWrites(writes: seq<(string, string)>): Config {
    if writes == [] then map[]
    else
      var n := |writes| - 1;
      AfterWrites(writes[..n])[writes[n].0 := writes[n].1]
  }

  /** After any calls on a loaded store a key reads as it was last written, or else as the last
      line of the file that assigns it says, or else as nothing. */
  lemma {:induction false} ReadAfterWrites(text: string, writes: seq<(string, string)>, k: string)
    ensures var read := Overlaid(LoadLines(map[], TextLines(text)), AfterWrites(writes), k);
      && (forall i :: 0 <= i < |writes| && writes[i].0 == k && (forall j :: i < j < |writes| ==> writes[j].0 != k) ==>
            read == writes[i].1)
      && ((forall i :: 0 <= i < |writes| ==> writes[i].0 != k) ==> read == TextValue(text, k))
  {
    if writes == [] {
      LoadedValues(text);
    } else {
      var n := |writes| - 1;
      var init := writes[..n];
      assert writes == init + [writes[n]];
      ReadAfterWrites(text, init, k);
      if writes[n].0 != k {
        forall i | 0 <= i < n && writes[i].0 == k && (forall j :: i < j < |writes| ==> writes[j].0 != k)
          ensures Overlaid(LoadLines(map[], TextLines(text)), AfterWrites(writes), k) == writes[i].1
        {
          assert init[i].0 == k && forall j :: i < j < |init| ==> init[j].0 != k;
        }
        if forall i :: 0 <= i < |writes| ==> writes[i].0 != k {
          assert forall i :: 0 <= i < |init| ==> init[i].0 != k;
        }
      }
    }
  }

  // ---- the object ---------------------------------------------------------------------------------

  class IniFile {
    // the file system's part
    var primary: Option<string>       // content of mFilePath, if it exists
    var fallback: Option<string>      // content of mFallbackFilePath, if it exists

    var configuration: Config
    var pendingWrites: Config

    /** The text Load reads, if there is a file. */
    function Source(): Option<string>
      reads this
    {
      if primary.Some? then primary else fallback
    }

    constructor (primary: Option<string>, fallback: Option<string>)
      ensures this.primary == primary && this.fallback == fallback
      ensures pendingWrites == map[]
      ensures configuration == if Source().Some? then LoadLines(map[], TextLines(Source().value)) else map[]
      ensures primary.Some? ==> forall k :: ExtractValue(k) == TextValue(primary.value, k)
      ensures primary.None? && fallback.Some? ==> forall k :: ExtractValue(k) == TextValue(fallback.value, k)
      ensures primary.None? && fallback.None? ==> forall k :: ExtractValue(k) == ""
    {
      this.primary, this.fallback := primary, fallback;
      configuration, pendingWrites := map[], map[];
      new;
      var ok := Load();
      if Source().Some? {
        LoadedValues(Source().value);
      }
    }

    static method LinesOf(content: string) returns (lines: seq<string>)
      ensures lines == TextLines(content)
    {
      var text := EraseAll(content, '\r');
      lines := SplitAll(text, '\n');
    }

    /** IsValidKeyValue on the trimmed line. */
    static method ParseLine(line: string) returns (r: Option<(string, string)>)
      ensures r == Assigned(line)
    {
      var trimmed := TrimBlanks(line);
      if trimmed == "" || trimmed[0] == ';' || trimmed[0] == '#' {
        return None;
      }
      var sep := FindFrom(trimmed, '=', 0);
      assert trimmed[0..] == trimmed;
      if sep == |trimmed| {
        return None;
      }
      var validated := 0;
      while validated < |trimmed| && IsAllowed(trimmed[validated])
        invariant 0 <= validated <= |trimmed|
        invariant forall i :: 0 <= i < validated ==> IsAllowed(trimmed[i])
      {
        validated := validated + 1;
      }
      FindFirst(trimmed, '=');
      if validated == |trimmed| || validated >= sep {
        return Some((trimmed[..sep], trimmed[sep + 1..]));
      }
      assert trimmed[..sep][validated] in trimmed[..sep];
      return None;
    }

    method Load() returns (ok: bool)
      modifies this`configuration
      ensures configuration == if Source().Some? then LoadLines(old(configuration), TextLines(Source().value))
                               else old(configuration)
      ensures ok <==> Source().Some? && configuration != map[]
    {
      if Source().None? {
        return false;
      }
      var lines := LinesOf(Source().value);
      var i := 0;
      while i < |lines|
        invariant 0 <= i <= |lines|
        invariant LoadLines(configuration, lines[i..]) == LoadLines(old(configuration), lines)
      {
        assert lines[i..][1..] == lines[i + 1..];
        var kv := ParseLine(lines[i]);
        if kv.Some? {
          configuration := configuration[kv.value.0 := kv.value.1];
        }
        i := i + 1;
      }
      ok := configuration != map[];
    }

    method Reload() returns (ok: bool)
      modifies this`configuration, this`pendingWrites
      ensures pendingWrites == map[]
      ensures configuration == if Source().Some? then LoadLines(map[], TextLines(Source().value)) else map[]
    {
      configuration, pendingWrites := map[], map[];
      ok := Load();
    }

    /** ReloadValue: as Load, for one key; a value found in the file replaces a pending one. */
    method ReloadValue(k: string) returns (ok: bool)
      modifies this`configuration, this`pendingWrites
      ensures Source().None? || FileValue(Source().value, k).None? ==>
                configuration == old(configuration) && pendingWrites == old(pendingWrites)
      ensures Source().Some? && FileValue(Source().value, k).Some? ==>
                && configuration == old(configuration)[k := FileValue(Source().value, k).value]
                && pendingWrites == old(pendingWrites) - {k}
      ensures Source().Some? && FileValue(Source().value, k).Some? ==>
                ExtractValue(k) == FileValue(Source().value, k).value
      ensures forall q :: q != k || Source().None? || FileValue(Source().value, k).None? ==>
                ExtractValue(q) == old(ExtractValue(q))
    {
      if Source().None? {
        return false;
      }
      var lines := LinesOf(Source().value);
      var i := 0;
      while i < |lines|
        invariant 0 <= i <= |lines|
        invariant Took(LastValue(lines[..i], k), k, old(configuration), old(pendingWrites))
      {
        LastValueTo(lines, i, k);
        var kv := ParseLine(lines[i]);
        if kv.Some? && kv.value.0 == k {
          Take(k, kv.value.1, LastValue(lines[..i], k), old(configuration), old(pendingWrites));
        }
        i := i + 1;
      }
      assert lines[..i] == lines;
      ok := configuration != map[];
    }

    static lemma LastValueTo(lines: seq<string>, i: nat, k: string)
      requires i < |lines|
      ensures LastValue(lines[..i + 1], k) ==
        if Assigns(lines[i], k) then Some(Assigned(lines[i]).value.1) else LastValue(lines[..i], k)
    {
      assert lines[..i + 1] == lines[..i] + [lines[i]];
      LastValueAppend(lines[..i], lines[i], k);
    }

    /** The maps after the value v, if any, was taken for the key. */
    ghost predicate Took(v: Option<string>, k: string, config: Config, pending: Config)
      reads this
    {
      match v
      case None => configuration == config && pendingWrites == pending
      case Some(x) => configuration == config[k := x] && pendingWrites == pending - {k}
    }

    method Take(k: string, v: string, ghost last: Option<string>, ghost config: Config, ghost pending: Config)
      requires Took(last, k, config, pending)
      modifies this`configuration, this`pendingWrites
      ensures Took(Some(v), k, config, pending)
    {
      configuration := configuration[k := v];
      pendingWrites := pendingWrites - {k};
    }

    method SetString(k: string, v: string)
      modifies this`pendingWrites
      ensures pendingWrites == old(pendingWrites)[k := v]
      ensures ExtractValue(k) == v
      ensures forall q :: q != k ==> ExtractValue(q) == old(ExtractValue(q))
      ensures forall default :: AsString(k, default) == if v == "" then default else v
    {
      pendingWrites := pendingWrites[k := v];
    }

    function ExtractValue(k: string): string
      reads this
    {
      Overlaid(configuration, pendingWrites, k)
    }

    /** AsString with a default. */
    function AsString(k: string, default: string): string
      reads this
    {
      if ExtractValue(k) != "" then ExtractValue(k) else default
    }

    function AsBool(k: string, default: bool): (b: bool)
      reads this
      ensures b <==> ExtractValue(k) == "1" || (ExtractValue(k) == "" && default)
    {
      var item := ExtractValue(k);
      if item != "" then |item| == 1 && item[0] == '1' else default
    }

    /** AsInt; what cannot be read as a number gives the default. */
    function AsInt(k: string, default: int): int
      reads this
    {
      var item := ExtractValue(k);
      if item != "" && ReadSigned(item, 0, '\0').Some? then ReadSigned(item, 0, '\0').value else default
    }

    method SetBool(k: string, b: bool)
      modifies this`pendingWrites
      ensures pendingWrites == old(pendingWrites)[k := if b then "1" else "0"]
      ensures forall default :: AsBool(k, default) == b
    {
      SetString(k, if b then "1" else "0");
    }

    /** SetInt, whose parameter is unsigned. */
    method SetInt(k: string, n: nat)
      modifies this`pendingWrites
      ensures pendingWrites == old(pendingWrites)[k := Decimal(n)]
      ensures forall default :: AsInt(k, default) == n
    {
      SetString(k, Decimal(n));
      SignedRoundTrip("", n, "", '\0');
      assert "" + Decimal(n) + "" == Decimal(n);
    }

    /** The inner loop of Save for one key; key is the variable the loop appends to. */
    static method WriteKey(lines: seq<string>, k: string, v: string) returns (out: seq<string>, key: string)
      ensures out == Write(lines, k, v)
      ensures k + "=" <= key
    {
      key := k;
      out := lines;
      var found := false;
      var i := 0;
      while i < |out|
        invariant 0 <= i <= |out| == |lines|
        invariant Written(lines, out, i, k, key, v, found)
      {
        WrittenStep(lines, out, i, k, key, v, found);
        if Matches(out[i], key) {
          key := Setting(key, v);
          out := out[i := key];
          found := true;
        }
        i := i + 1;
      }
      WrittenAll(lines, out, k, key, v, found);
      if !found {
        key := Setting(key, v);
        out := out + [key];
      }
    }

    /** The first i lines are through the loop. */
    static ghost predicate Written(lines: seq<string>, out: seq<string>, i: nat,
                                   k: string, key: string, v: string, found: bool) {
      && i <= |out| == |lines|
      && out[i..] == lines[i..]
      && out[..i] + Rewrite(out[i..], key, v) == Rewrite(lines, k, v)
      && (found <==> Found(lines[..i], k))
      && if found then k + "=" <= key else key == k && out == lines
    }

    static lemma WrittenStep(lines: seq<string>, out: seq<string>, i: nat,
                             k: string, key: string, v: string, found: bool)
      requires i < |out| && Written(lines, out, i, k, key, v, found)
      ensures var matches := Matches(out[i], key);
        Written(lines, if matches then out[i := Setting(key, v)] else out, i + 1,
                k, if matches then Setting(key, v) else key, v, found || matches)
    {
      RewriteStep(out, i, key, v);
      FoundTo(lines, i, k);
      assert out[i] == out[i..][0] == lines[i..][0] == lines[i];
      assert out[i + 1..] == out[i..][1..] == lines[i + 1..];
    }

    static lemma WrittenAll(lines: seq<string>, out: seq<string>, k: string, key: string, v: string, found: bool)
      requires Written(lines, out, |out|, k, key, v, found)
      ensures found <==> Found(lines, k)
      ensures out == if found then Rewrite(lines, k, v) else lines
      ensures if found then k + "=" <= key else key == k
    {
      assert lines[..|out|] == lines;
      assert out[..|out|] + [] == out;
    }

    static lemma FoundTo(lines: seq<string>, i: nat, k: string)
      requires i < |lines|
      ensures Found(lines[..i + 1], k) <==> Found(lines[..i], k) || Matches(lines[i], k)
    {
      assert forall j :: 0 <= j < i ==> lines[..i + 1][j] == lines[..i][j];
      assert lines[..i + 1][i] == lines[i];
    }

    static lemma RewriteStep(out: seq<string>, i: nat, g: string, v: string)
      requires i < |out|
      ensures var matches := Matches(out[i], g);
        var out', g' := if matches then out[i := Setting(g, v)] else out, if matches then Setting(g, v) else g;
        && out'[i + 1..] == out[i + 1..]
        && out'[..i + 1] + Rewrite(out'[i + 1..], g', v) == out[..i] + Rewrite(out[i..], g, v)
    {
      var line := if Matches(out[i], g) then Setting(g, v) else out[i];
      assert out[i..][1..] == out[i + 1..];
      Placed(out, i, line, Rewrite(out[i + 1..], if Matches(out[i], g) then line else g, v));
      assert out[i := out[i]] == out;
    }

    static lemma Placed(out: seq<string>, i: nat, line: string, rest: seq<string>)
      requires i < |out|
      ensures var out' := out[i := line];
        out'[i + 1..] == out[i + 1..] && out'[..i + 1] + rest == out[..i] + ([line] + rest)
    {
      var out' := out[i := line];
      assert out'[..i + 1] == out[..i] + [line];
    }

    /** The two maps agree on every key over the alphabet. */
    static ghost predicate SameOnAllowed(a: Config, b: Config) {
      forall k :: AllowedKey(k) ==> (k in a <==> k in b) && (k in a ==> a[k] == b[k])
    }

    static lemma LongKeyIsOther(a: Config, b: Config, key: string, v: string)
      requires SameOnAllowed(a, b) && !AllowedKey(key)
      ensures SameOnAllowed(a[key := v], b)
    {
    }

    /** Save. It erases, and stores in the configuration, under the lengthened key: with keys
        over the alphabet nothing pending is forgotten. */
    method Save() returns (ghost order: seq<string>)
      modifies this`primary, this`configuration, this`pendingWrites
      ensures old(pendingWrites) == map[] ==> primary == old(primary) && configuration == old(configuration)
      ensures AllowedKeys(old(pendingWrites)) && old(pendingWrites) != map[] ==>
                && Unique(order) && (forall k :: k in order <==> k in old(pendingWrites))
                && primary == Some(SavedText(if old(primary).Some? then old(primary).value else "",
                                             old(pendingWrites), order))
      ensures AllowedKeys(old(pendingWrites)) ==>
                pendingWrites == old(pendingWrites) && SameOnAllowed(configuration, old(configuration))
      ensures AllowedKeys(old(pendingWrites)) ==>
                forall k :: AllowedKey(k) ==> ExtractValue(k) == old(ExtractValue(k))
    {
      order := [];
      if pendingWrites == map[] {
        return;
      }
      ghost var pending := pendingWrites;
      var content := if primary.Some? then primary.value else "";
      var lines := LinesOf(content);
      var todo := pendingWrites.Keys;
      while todo != {}
        invariant todo <= pendingWrites.Keys
        invariant AllowedKeys(pending) ==>
                    && pendingWrites == pending
                    && Unique(order) && (forall k :: k in order <==> k in pending && k !in todo)
                    && lines == WriteAll(TextLines(content), pending, order)
        invariant AllowedKeys(pending) ==> SameOnAllowed(configuration, old(configuration))
        decreases todo
      {
        var k :| k in todo;
        var key;
        var value := pendingWrites[k];
        lines, key := WriteKey(lines, k, value);
        LongKey(key, k);
        if AllowedKeys(pending) {
          LongKeyIsOther(configuration, old(configuration), key, value);
        }
        configuration := configuration[key := value];
        pendingWrites := pendingWrites - {key};
        assert (order + [k])[..|order|] == order;
        order, todo := order + [k], todo - {k} - {key};
      }
      var text := JoinAll(lines, '\n');
      primary := Some(text);
    }

    static lemma LongKey(key: string, k: string)
      requires k + "=" <= key
      ensures !AllowedKey(key)
    {
      assert key[|k|] == '=' && key[|k|] in key;
    }
  }

  /** Save, then Reload, on an existing file with at most one line for each pending key: every
      pending key has its value, every other key the value the file gave it. */
  method SaveThenReload(ini: IniFile)
    requires ini.primary.Some? && ini.pendingWrites != map[] && Savable(ini.pendingWrites)
    requires forall k :: k in ini.pendingWrites ==> |FileLines(ini.primary.value, k)| <= 1
    modifies ini
    ensures ini.pendingWrites == map[]
    ensures forall k :: k in old(ini.pendingWrites) ==> ini.ExtractValue(k) == old(ini.pendingWrites[k])
    ensures forall k :: AllowedKey(k) && k !in old(ini.pendingWrites) ==>
              ini.ExtractValue(k) == match FileValue(old(ini.primary.value), k) {
                                       case None => ""
                                       case Some(v) => v
                                     }
  {
    ghost var text, pending := ini.primary.value, ini.pendingWrites;
    ghost var order := ini.Save();
    ghost var saved := SavedText(text, pending, order);
    var ok := ini.Reload();
    forall k | AllowedKey(k)
      ensures FileValue(saved, k) == if k in pending then Some(pending[k]) else FileValue(text, k)
      ensures ini.ExtractValue(k) == match FileValue(saved, k) { case None => "" case Some(v) => v }
    {
      SaveLoad(text, pending, order, k);
      LoadedValue(map[], TextLines(saved), k);
    }
  }

  /** ReloadValue agrees with Reload at its key exactly when the file has the key, or nothing
      was known for it. */
  lemma ReloadValueAgrees(text: string, config: Config, pending: Config, k: string)
    ensures var before := Overlaid(config, pending, k);
            var one := match FileValue(text, k) { case None => before case Some(v) => v };
            var all := TextValue(text, k);
            one == all <==> FileValue(text, k).Some? || before == ""
  {
    LoadedValue(map[], TextLines(text), k);
  }
}
