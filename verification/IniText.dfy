/** The lines of an ini file: what each assigns, and how saving rewrites them. */
module IniText {
  import opened Text
  import opened StringOps
  import opened Wrappers

  type Config = map<string, string>

  predicate IsAllowed(c: char) {
    'a' <= c <= 'z' || 'A' <= c <= 'Z' || '0' <= c <= '9' || c == '_' || c == '.' || c == '-'
  }

  predicate AllowedKey(k: string) {
    forall c :: c in k ==> IsAllowed(c)
  }

  /** IsValidKeyValue, on a line already trimmed: a key over the allowed alphabet, then '='. */
  function KeyValue(line: string): Option<(string, string)> {
    if line == "" || line[0] == ';' || line[0] == '#' then None
    else
      var sep := Find(line, '=');
      if sep == |line| || !AllowedKey(line[..sep]) then None
      else Some((line[..sep], line[sep + 1..]))
  }

  /** What a line of the file assigns. */
  function Assigned(line: string): Option<(string, string)> {
    KeyValue(Trim(line, IsBlank))
  }

  predicate Assigns(line: string, k: string) {
    Assigned(line).Some? && Assigned(line).value.0 == k
  }

  /** The loop of Load: later lines win. */
  function LoadLines(m: Config, lines: seq<string>): Config
    decreases |lines|
  {
    if lines == [] then m
    else
      match Assigned(lines[0])
      case None => LoadLines(m, lines[1..])
      case Some((k, v)) => LoadLines(m[k := v], lines[1..])
  }

  /** The value the last line assigning k gives it. */
  function LastValue(lines: seq<string>, k: string): Option<string> {
    if lines == [] then None
    else if LastValue(lines[1..], k).Some? then LastValue(lines[1..], k)
    else if Assigns(lines[0], k) then Some(Assigned(lines[0]).value.1) else None
  }

  lemma {:induction false} LoadedValue(m: Config, lines: seq<string>, k: string)
    ensures LastValue(lines, k).Some? ==>
              k in LoadLines(m, lines) && LoadLines(m, lines)[k] == LastValue(lines, k).value
    ensures LastValue(lines, k).None? ==> (k in LoadLines(m, lines) <==> k in m)
    ensures LastValue(lines, k).None? && k in m ==> LoadLines(m, lines)[k] == m[k]
    decreases |lines|
  {
    if lines != [] {
      match Assigned(lines[0])
      case None => LoadedValue(m, lines[1..], k);
      case Some((k', v)) => LoadedValue(m[k' := v], lines[1..], k);
    }
  }

  // ---- saving one key -------------------------------------------------------------------------

  /** The line sets g, or is the commented-out setting of g. */
  predicate Matches(line: string, g: string) {
    g + "=" <= line || ";" + g + "=" <= line
  }

  function Setting(k: string, v: string): string {
    k + "=" + v
  }

  /** The inner loop of Save. The source appends to the key itself at every line it rewrites,
      so that only lines setting the longer "key" are rewritten after the first. */
  function Rewrite(lines: seq<string>, g: string, v: string): seq<string>
    decreases |lines|
  {
    if lines == [] then []
    else if Matches(lines[0], g) then [Setting(g, v)] + Rewrite(lines[1..], Setting(g, v), v)
    else [lines[0]] + Rewrite(lines[1..], g, v)
  }

  /** The key variable at the end of that loop. */
  function GrownKey(lines: seq<string>, g: string, v: string): string
    decreases |lines|
  {
    if lines == [] then g
    else if Matches(lines[0], g) then GrownKey(lines[1..], Setting(g, v), v)
    else GrownKey(lines[1..], g, v)
  }

  predicate Found(lines: seq<string>, k: string) {
    exists i :: 0 <= i < |lines| && Matches(lines[i], k)
  }

  /** The lines after saving v under k. */
  function Write(lines: seq<string>, k: string, v: string): seq<string> {
    if Found(lines, k) then Rewrite(lines, k, v) else lines + [Setting(k, v)]
  }

  /** Saving the pending keys one after the other. */
  function WriteAll(lines: seq<string>, pending: Config, order: seq<string>): seq<string>
    requires forall k :: k in order ==> k in pending
  {
    if order == [] then lines
    else
      var n := |order| - 1;
      Write(WriteAll(lines, pending, order[..n]), order[n], pending[order[n]])
  }

  // ---- lines of different keys do not meet ------------------------------------------------------

  /** A value that survives on its line: no line end inside, no blank at its end. */
  predicate GoodValue(v: string) {
    '\n' !in v && '\r' !in v && (v != "" ==> !IsBlank(v[|v| - 1]))
  }

  lemma TrimKeepsHead(line: string, head: string)
    requires head <= line && head != "" && !IsBlank(head[0]) && !IsBlank(head[|head| - 1])
    ensures head <= Trim(line, IsBlank)
  {
    assert line[0] == head[0] && TrimLeft(line, IsBlank) == line;
    var pad := TrimRightPrefix(line, IsBlank);
    var t := Trim(line, IsBlank);
    var n := |head| - 1;
    assert line[n] == head[n] && line[n] !in pad;
    assert line == t + pad;
    assert forall i :: |t| <= i < |line| ==> line[i] in pad;
  }

  lemma KeyHead(k: string)
    requires AllowedKey(k)
    ensures var c := (k + "=")[0]; !IsBlank(c) && c != ';' && c != '#'
    ensures '=' !in k
  {
    if k != "" { assert k[0] in k; }
  }

  lemma KeyOf(t: string, k: string)
    requires AllowedKey(k) && k + "=" <= t
    ensures KeyValue(t) == Some((k, t[|k| + 1..]))
  {
    KeyHead(k);
    assert t[0] == (k + "=")[0];
    assert t == k + ['='] + t[|k| + 1..];
    FindAt(k, '=', t[|k| + 1..]);
    assert t[..|k|] == k;
  }

  /** A line that starts like a setting of k assigns k, whatever follows. */
  lemma SettingAssigns(line: string, k: string)
    requires AllowedKey(k) && k + "=" <= line
    ensures Assigns(line, k)
  {
    KeyHead(k);
    TrimKeepsHead(line, k + "=");
    KeyOf(Trim(line, IsBlank), k);
  }

  lemma SettingValue(k: string, v: string)
    requires AllowedKey(k) && GoodValue(v)
    ensures Assigned(Setting(k, v)) == Some((k, v))
  {
    var line := Setting(k, v);
    KeyHead(k);
    assert line[0] == (k + "=")[0] && line[|line| - 1] == if v == "" then '=' else v[|v| - 1];
    TrimFixed(line, IsBlank);
    assert k + "=" <= line && line[|k| + 1..] == v;
    KeyOf(line, k);
  }

  lemma CommentAssignsNothing(line: string)
    requires ";" <= line
    ensures Assigned(line) == None
  {
    TrimKeepsHead(line, ";");
    assert Trim(line, IsBlank)[0] == ';';
  }

  // ---- what saving one key does to any key ------------------------------------------------------

  /** g is k, or k with "=v" appended some number of times. */
  predicate Grown(g: string, k: string) {
    g == k || k + "=" <= g
  }

  /** A line that plays a part for key k. */
  predicate Relevant(line: string, k: string) {
    Assigns(line, k) || Matches(line, k)
  }

  lemma GrownMatches(line: string, g: string, k: string)
    requires Grown(g, k) && Matches(line, g)
    ensures Matches(line, k)
  {
    if g + "=" <= line {
      assert k + "=" <= g + "=";
    } else {
      assert ";" + k + "=" <= ";" + g + "=";
    }
  }

  /** A line has one key: what sets k is of no interest to any other key. */
  lemma OneKey(line: string, k: string, k': string)
    requires AllowedKey(k) && AllowedKey(k') && k != k' && Matches(line, k)
    ensures !Relevant(line, k')
  {
    if k + "=" <= line {
      SettingAssigns(line, k);
      if k' + "=" <= line { SettingAssigns(line, k'); }
      KeyHead(k);
      assert line[0] == (k + "=")[0];
    } else {
      CommentAssignsNothing(line);
      var rest := line[1..];
      assert k + "=" <= rest;
      SettingAssigns(rest, k);
      if ";" + k' + "=" <= line {
        assert k' + "=" <= rest;
        SettingAssigns(rest, k');
      }
      KeyHead(k');
      assert line[0] == ';';
    }
  }

  function RelevantLines(lines: seq<string>, k: string): seq<string> {
    if lines == [] then []
    else if Relevant(lines[0], k) then [lines[0]] + RelevantLines(lines[1..], k)
    else RelevantLines(lines[1..], k)
  }

  lemma {:induction false} RelevantDecide(lines: seq<string>, k: string)
    ensures LastValue(RelevantLines(lines, k), k) == LastValue(lines, k)
  {
    if lines != [] {
      RelevantDecide(lines[1..], k);
      if Relevant(lines[0], k) {
        assert RelevantLines(lines, k)[1..] == RelevantLines(lines[1..], k);
      }
    }
  }

  lemma {:induction false} RelevantAppend(a: seq<string>, b: seq<string>, k: string)
    ensures RelevantLines(a + b, k) == RelevantLines(a, k) + RelevantLines(b, k)
  {
    if a == [] {
      assert a + b == b;
    } else {
      assert (a + b)[0] == a[0] && (a + b)[1..] == a[1..] + b;
      RelevantAppend(a[1..], b, k);
    }
  }

  lemma SettingMatches(g: string, v: string, k: string)
    requires Grown(g, k)
    ensures Matches(Setting(g, v), k) && Grown(Setting(g, v), k)
  {
    assert g + "=" <= Setting(g, v);
    GrownMatches(Setting(g, v), g, k);
    if g != k { assert k + "=" <= g; }
  }

  lemma {:induction false} RewriteElsewhere(lines: seq<string>, g: string, v: string, k: string, other: string)
    requires AllowedKey(k) && AllowedKey(other) && k != other && Grown(g, k)
    ensures RelevantLines(Rewrite(lines, g, v), other) == RelevantLines(lines, other)
    decreases |lines|
  {
    if lines != [] {
      if Matches(lines[0], g) {
        GrownMatches(lines[0], g, k);
        OneKey(lines[0], k, other);
        SettingMatches(g, v, k);
        OneKey(Setting(g, v), k, other);
        RewriteElsewhere(lines[1..], Setting(g, v), v, k, other);
      } else {
        RewriteElsewhere(lines[1..], g, v, k, other);
      }
    }
  }

  /** Saving one key leaves the lines of every other key as they were. */
  lemma WriteElsewhere(lines: seq<string>, k: string, v: string, other: string)
    requires AllowedKey(k) && AllowedKey(other) && k != other
    ensures RelevantLines(Write(lines, k, v), other) == RelevantLines(lines, other)
  {
    if Found(lines, k) {
      RewriteElsewhere(lines, k, v, k, other);
    } else {
      SettingMatches(k, v, k);
      OneKey(Setting(k, v), k, other);
      RelevantAppend(lines, [Setting(k, v)], other);
      assert RelevantLines([Setting(k, v)], other) == [];
    }
  }

  lemma {:induction false} RewriteRelevant(lines: seq<string>, g: string, v: string, k: string)
    requires Grown(g, k)
    ensures RelevantLines(Rewrite(lines, g, v), k) == Rewrite(RelevantLines(lines, k), g, v)
    decreases |lines|
  {
    if lines != [] {
      var x, rest := lines[0], lines[1..];
      if Relevant(x, k) {
        assert RelevantLines(lines, k)[1..] == RelevantLines(rest, k);
      }
      if Matches(x, g) {
        GrownMatches(x, g, k);
        SettingMatches(g, v, k);
        RewriteRelevant(rest, Setting(g, v), v, k);
      } else {
        RewriteRelevant(rest, g, v, k);
        assert Rewrite(lines, g, v) == [x] + Rewrite(rest, g, v);
      }
    }
  }

  lemma {:induction false} FoundRelevant(lines: seq<string>, k: string)
    ensures Found(lines, k) <==> Found(RelevantLines(lines, k), k)
  {
    if lines != [] {
      FoundRelevant(lines[1..], k);
      FoundCons(lines, k);
      if Relevant(lines[0], k) {
        assert RelevantLines(lines, k)[1..] == RelevantLines(lines[1..], k);
        FoundCons(RelevantLines(lines, k), k);
      }
    }
  }

  lemma FoundCons(lines: seq<string>, k: string)
    requires lines != []
    ensures Found(lines, k) <==> Matches(lines[0], k) || Found(lines[1..], k)
  {
    if Found(lines[1..], k) {
      var i :| 0 <= i < |lines[1..]| && Matches(lines[1..][i], k);
      assert Matches(lines[i + 1], k);
    }
    if Found(lines, k) {
      var i :| 0 <= i < |lines| && Matches(lines[i], k);
      assert i > 0 ==> Matches(lines[1..][i - 1], k);
    }
  }

  /** Saving a key acts on the lines of that key as if there were no others. */
  lemma WriteRelevant(lines: seq<string>, k: string, v: string)
    ensures RelevantLines(Write(lines, k, v), k) == Write(RelevantLines(lines, k), k, v)
  {
    FoundRelevant(lines, k);
    if Found(lines, k) {
      RewriteRelevant(lines, k, v, k);
    } else {
      SettingMatches(k, v, k);
      RelevantAppend(lines, [Setting(k, v)], k);
      assert RelevantLines([Setting(k, v)], k) == [Setting(k, v)];
    }
  }

  ghost predicate AllowedKeys(pending: Config) {
    forall k :: k in pending ==> AllowedKey(k)
  }

  ghost predicate Unique(order: seq<string>) {
    forall i, j :: 0 <= i < j < |order| ==> order[i] != order[j]
  }

  /** However the pending keys are ordered, each one is saved as if it were alone. */
  lemma {:induction false} WriteAllRelevant(lines: seq<string>, pending: Config, order: seq<string>, k: string)
    requires AllowedKeys(pending) && AllowedKey(k) && Unique(order)
    requires forall q :: q in order ==> q in pending
    ensures RelevantLines(WriteAll(lines, pending, order), k)
            == if k in order then Write(RelevantLines(lines, k), k, pending[k]) else RelevantLines(lines, k)
  {
    if order != [] {
      var n := |order| - 1;
      var init, last := order[..n], order[n];
      assert order == init + [last];
      WriteAllRelevant(lines, pending, init, k);
      var before := WriteAll(lines, pending, init);
      if last == k {
        WriteRelevant(before, k, pending[k]);
      } else {
        WriteElsewhere(before, last, pending[last], k);
      }
    }
  }
}
