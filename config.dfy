/** `Config`: nested settings read and written by dotted key paths, merged with a parsed
    user file, with one shared instance. JSON values are the `Json` datatype; a Python dict is
    `JObject` over a map. */
module Config {
  import opened Text
  import opened Wrappers
  import Assoc

  datatype Json =
    | JNull
    | JBool(b: bool)
    | JInt(i: int)
    | JFloat(f: real)
    | JString(s: string)
    | JList(items: seq<Json>)
    | JObject(fields: map<string, Json>)

  type Dict = map<string, Json>

  /** `Config.DEFAULTS` */
  const Defaults: Dict := map[
    "fle_settings" := JObject(map[
      "filename" := JString("FleFuseSettings.json"),
      "description" := JString("FLE (Fuse Lockout Enable) fuse settings configuration")]),
    "processing" := JObject(map[
      "chunk_size" := JInt(10000),
      "progress_updates" := JInt(1000),
      "memory_optimization" := JBool(true)]),
    "output" := JObject(map[
      "csv_delimiter" := JString(","),
      "date_format" := JString("%Y-%m-%d %H:%M:%S"),
      "decimal_places" := JInt(1)]),
    "html_report" := JObject(map[
      "max_table_rows" := JInt(100),
      "enable_excel_export" := JBool(true),
      "theme" := JString("default")]),
    "logging" := JObject(map[
      "level" := JString("INFO"),
      "format" := JString("%(asctime)s - %(name)s - %(levelname)s - %(message)s"),
      "date_format" := JString("%Y-%m-%d %H:%M:%S")])]

  /** The value at the end of `keys` below `value`, or `default` as soon as a key is missing
      or the value reached is not a dict. */
  function GetPath(value: Json, keys: seq<string>, default: Json): Json
  {
    if keys == [] then value
    else if value.JObject? && keys[0] in value.fields then GetPath(value.fields[keys[0]], keys[1..], default)
    else default
  }

  /** `d` with `v` stored at the end of `keys`, missing dicts on the way created empty; `None`
      for the `TypeError` raised when the way passes through a value that is not a dict. */
  function SetPath(d: Dict, keys: seq<string>, v: Json): Option<Dict>
    requires keys != []
    decreases |keys|
  {
    if |keys| == 1 then Some(d[keys[0] := v])
    else
      var child := if keys[0] in d then d[keys[0]] else JObject(map[]);
      if !child.JObject? then None
      else match SetPath(child.fields, keys[1..], v)
        case None => None
        case Some(c) => Some(d[keys[0] := JObject(c)])
  }

  /** A read along `keys` after a successful write along `keys` gives the written value. */
  lemma {:induction false} GetAfterSet(d: Dict, keys: seq<string>, v: Json, default: Json)
    requires keys != [] && SetPath(d, keys, v).Some?
    ensures GetPath(JObject(SetPath(d, keys, v).value), keys, default) == v
    decreases |keys|
  {
    if |keys| > 1 {
      var child := if keys[0] in d then d[keys[0]] else JObject(map[]);
      GetAfterSet(child.fields, keys[1..], v, default);
    }
  }

  /** A write changes nothing along any path that leaves the written path: a read along a
      path that first differs from `keys` at some key gives what it gave before. */
  lemma {:induction false} SetFrame(d: Dict, keys: seq<string>, v: Json, p: seq<string>, i: nat, default: Json)
    requires keys != [] && SetPath(d, keys, v).Some?
    requires i < |p| && i < |keys| && p[..i] == keys[..i] && p[i] != keys[i]
    ensures GetPath(JObject(SetPath(d, keys, v).value), p, default) == GetPath(JObject(d), p, default)
    decreases |keys|
  {
    var d' := SetPath(d, keys, v).value;
    if i == 0 {
      assert p[0] != keys[0];
      assert (p[0] in d' <==> p[0] in d) && (p[0] in d ==> d'[p[0]] == d[p[0]]);
    } else {
      assert p[0] == p[..i][0] == keys[..i][0] == keys[0];
      var child := if keys[0] in d then d[keys[0]] else JObject(map[]);
      assert |keys| > 1;
      var c' := SetPath(child.fields, keys[1..], v).value;
      assert d' == d[keys[0] := JObject(c')];
      assert p[1..][..i - 1] == keys[1..][..i - 1] by {
        assert p[1..][..i - 1] == p[..i][1..];
        assert keys[1..][..i - 1] == keys[..i][1..];
      }
      SetFrame(child.fields, keys[1..], v, p[1..], i - 1, default);
      assert GetPath(JObject(d'), p, default) == GetPath(JObject(c'), p[1..], default);
      if keys[0] !in d {
        EmptyReadsDefault(keys[1..], v, p[1..], i - 1, default);
      } else {
        assert GetPath(JObject(d), p, default) == GetPath(child, p[1..], default);
      }
    }
  }

  /** Below a dict the write created, a path leaving the written path finds nothing. */
  lemma {:induction false} EmptyReadsDefault(keys: seq<string>, v: Json, p: seq<string>, i: nat, default: Json)
    requires keys != [] && SetPath(map[], keys, v).Some?
    requires i < |p| && i < |keys| && p[..i] == keys[..i] && p[i] != keys[i]
    ensures GetPath(JObject(SetPath(map[], keys, v).value), p, default) == default
    decreases |keys|
  {
    if i > 0 {
      assert p[0] == p[..i][0] == keys[..i][0] == keys[0];
      assert p[1..][..i - 1] == keys[1..][..i - 1] by {
        assert p[1..][..i - 1] == p[..i][1..];
        assert keys[1..][..i - 1] == keys[..i][1..];
      }
      EmptyReadsDefault(keys[1..], v, p[1..], i - 1, default);
    }
  }

  /** A write fails exactly when a proper prefix of `keys` already holds something that is
      not a dict. */
  lemma {:induction false} SetFailsOnScalar(d: Dict, keys: seq<string>, v: Json)
    requires keys != []
    ensures SetPath(d, keys, v).None? <==>
      exists i :: 0 < i < |keys| && !GetPath(JObject(d), keys[..i], JObject(map[])).JObject?
    decreases |keys|
  {
    if |keys| > 1 {
      var child := if keys[0] in d then d[keys[0]] else JObject(map[]);
      assert GetPath(JObject(d), keys[..1], JObject(map[])) == child;
      if child.JObject? {
        SetFailsOnScalar(child.fields, keys[1..], v);
        forall i | 1 < i < |keys|
          ensures GetPath(JObject(d), keys[..i], JObject(map[])) == GetPath(child, keys[1..][..i - 1], JObject(map[]))
        {
          assert keys[..i][1..] == keys[1..][..i - 1];
        }
        if SetPath(d, keys, v).None? {
          var j :| 0 < j < |keys[1..]| && !GetPath(child, keys[1..][..j], JObject(map[])).JObject?;
          assert !GetPath(JObject(d), keys[..j + 1], JObject(map[])).JObject?;
        }
      }
    }
  }

  /** A value as it is written in a JSON file: like `Json`, but an object keeps its entries
      in the order of the file, a repeated key included. `Collapse` is what `json.load` makes
      of it. */
  datatype Parsed =
    | PNull
    | PBool(b: bool)
    | PInt(i: int)
    | PFloat(f: real)
    | PString(s: string)
    | PList(items: seq<Parsed>)
    | PObject(entries: seq<(string, Parsed)>)

  /** The stored form of a parsed value: an object becomes a map in which a later entry for a
      key replaces an earlier one. */
  function ToJson(p: Parsed): (r: Json)
    decreases p, if p.PObject? then |p.entries| + 1 else 0
    ensures p.PObject? <==> r.JObject?
    ensures p.PObject? ==> r.fields.Keys == EntryKeys(p, |p.entries|)
  {
    match p
    case PNull => JNull
    case PBool(b) => JBool(b)
    case PInt(i) => JInt(i)
    case PFloat(f) => JFloat(f)
    case PString(s) => JString(s)
    case PList(items) => JList(seq(|items|, i requires 0 <= i < |items| => ToJson(items[i])))
    case PObject(entries) => JObject(Fields(p, |entries|))
  }

  /** The first `n` entries of the object `p` as a map. */
  function Fields(p: Parsed, n: nat): (r: Dict)
    requires p.PObject? && n <= |p.entries|
    decreases p, n
    ensures r.Keys == EntryKeys(p, n)
  {
    if n == 0 then map[]
    else Fields(p, n - 1)[p.entries[n - 1].0 := ToJson(p.entries[n - 1].1)]
  }

  /** The keys of the first `n` entries of the object `p`. */
  function EntryKeys(p: Parsed, n: nat): set<string>
    requires p.PObject? && n <= |p.entries|
  {
    set j | 0 <= j < n :: p.entries[j].0
  }

  /** The keys of the entries `m` to `n` of the object `p`. */
  function KeysBetween(p: Parsed, m: nat, n: nat): set<string>
    requires p.PObject? && m <= n <= |p.entries|
  {
    set j | m <= j < n :: p.entries[j].0
  }

  /** What `json.load` makes of a value of the file: every object becomes a dict, in which a
      key written twice keeps the place of its first occurrence and takes its last value. */
  function Collapse(p: Parsed): (r: Parsed)
    decreases p, if p.PObject? then |p.entries| + 1 else 0
    ensures p.PObject? <==> r.PObject?
    ensures p.PList? <==> r.PList?
    ensures !p.PObject? && !p.PList? ==> r == p
  {
    match p
    case PList(items) => PList(seq(|items|, i requires 0 <= i < |items| => Collapse(items[i])))
    case PObject(entries) => PObject(CollapsedEntries(p, |entries|))
    case _ => p
  }

  /** The dict `json.load` builds from the first `n` entries of the object `p`. */
  function CollapsedEntries(p: Parsed, n: nat): seq<(string, Parsed)>
    requires p.PObject? && n <= |p.entries|
    decreases p, n
  {
    if n == 0 then []
    else Assoc.Put(CollapsedEntries(p, n - 1), p.entries[n - 1].0, Collapse(p.entries[n - 1].1))
  }

  /** In the dict `json.load` builds, a key reads what it made of the key's last value. */
  lemma {:induction false} CollapsedGet(p: Parsed, n: nat, i: nat)
    requires p.PObject? && i < n <= |p.entries|
    requires forall j :: i < j < n ==> p.entries[j].0 != p.entries[i].0
    ensures Assoc.Get(CollapsedEntries(p, n), p.entries[i].0) == Some(Collapse(p.entries[i].1))
    decreases n
  {
    Assoc.PutGet(CollapsedEntries(p, n - 1), p.entries[n - 1].0, Collapse(p.entries[n - 1].1), p.entries[i].0);
    if i < n - 1 {
      CollapsedGet(p, n - 1, i);
    }
  }

  /** That dict holds each key of the entries once, and every entry of it is a key of the
      file with what `json.load` made of one of the key's values. */
  lemma {:induction false} CollapsedShape(p: Parsed, n: nat)
    requires p.PObject? && n <= |p.entries|
    ensures Assoc.DistinctKeys(CollapsedEntries(p, n))
    ensures Assoc.Keys(CollapsedEntries(p, n)) == EntryKeys(p, n)
    ensures forall e :: e in CollapsedEntries(p, n) ==> CollapsedFrom(p, n, e)
    decreases n
  {
    if n > 0 {
      CollapsedShape(p, n - 1);
      var d, k, v := CollapsedEntries(p, n - 1), p.entries[n - 1].0, Collapse(p.entries[n - 1].1);
      Assoc.PutShape(d, k, v);
      Assoc.PutEntries(d, k, v);
      assert EntryKeys(p, n) == EntryKeys(p, n - 1) + {k};
      forall e | e in CollapsedEntries(p, n) ensures CollapsedFrom(p, n, e) {
        if e in d {
          assert CollapsedFrom(p, n - 1, e);
          var i :| 0 <= i < n - 1 && e == (p.entries[i].0, Collapse(p.entries[i].1));
        } else {
          assert e == (p.entries[n - 1].0, Collapse(p.entries[n - 1].1));
        }
      }
    }
  }

  /** `e` is one of the first `n` entries of `p`, its value as `json.load` makes it. */
  predicate CollapsedFrom(p: Parsed, n: nat, e: (string, Parsed))
    requires p.PObject? && n <= |p.entries|
  {
    exists i :: 0 <= i < n && e == (p.entries[i].0, Collapse(p.entries[i].1))
  }

  /** A dict at every level: no object repeats a key. */
  predicate NoRepeatedKeys(p: Parsed)
    decreases p
  {
    match p
    case PList(items) => forall i :: 0 <= i < |items| ==> NoRepeatedKeys(items[i])
    case PObject(entries) =>
      Assoc.DistinctKeys(entries) && forall i :: 0 <= i < |entries| ==> NoRepeatedKeys(entries[i].1)
    case _ => true
  }

  /** What `json.load` returns repeats no key at any level. */
  lemma {:induction false} CollapseNoRepeats(p: Parsed)
    ensures NoRepeatedKeys(Collapse(p))
    decreases p
  {
    match p
    case PList(items) =>
      forall i | 0 <= i < |items| ensures NoRepeatedKeys(Collapse(items[i])) {
        CollapseNoRepeats(items[i]);
      }
    case PObject(entries) =>
      CollapsedShape(p, |entries|);
      var c := CollapsedEntries(p, |entries|);
      forall j | 0 <= j < |c| ensures NoRepeatedKeys(c[j].1) {
        assert c[j] in c && CollapsedFrom(p, |entries|, c[j]);
        var i :| 0 <= i < |entries| && c[j] == (entries[i].0, Collapse(entries[i].1));
        CollapseNoRepeats(entries[i].1);
      }
    case _ =>
  }

  /** `_deep_update(base, update)` over the first `n` entries of `update`, which mutates `base`
      in place: the dict it leaves behind, and false when an entry raised `TypeError`. The
      walk stops at that entry, so everything merged before it stays. */
  function DeepUpdate(base: Dict, update: Parsed, n: nat): (Dict, bool)
    requires update.PObject? && n <= |update.entries|
    decreases update, n
  {
    if n == 0 then (base, true)
    else
      var before := DeepUpdate(base, update, n - 1);
      if !before.1 then before
      else UpdateKey(before.0, update.entries[n - 1].0, update.entries[n - 1].1)
  }

  /** One entry of `_deep_update`: a dict merged into a present dict is merged key by key; a
      dict merged into a present value that is not a dict raises `TypeError` at its first
      entry (indexing, item assignment or `in` on a non-dict), so only an empty one passes;
      anything else is stored as it is. */
  function UpdateKey(base: Dict, key: string, value: Parsed): (r: (Dict, bool))
    decreases value, if value.PObject? then |value.entries| + 1 else 0
    ensures key in r.0 && r.0 == base[key := r.0[key]]
    ensures !(value.PObject? && key in base) ==> r == (base[key := ToJson(value)], true)
  {
    if value.PObject? && key in base then
      if base[key].JObject? then
        var sub := DeepUpdate(base[key].fields, value, |value.entries|);
        (base[key := JObject(sub.0)], sub.1)
      else (base, value.entries == [])
    else (base[key := ToJson(value)], true)
  }

  /** Once an entry raised, later entries change nothing. */
  lemma {:induction false} FailureStops(base: Dict, update: Parsed, m: nat, n: nat)
    requires update.PObject? && m <= n <= |update.entries|
    requires !DeepUpdate(base, update, m).1
    ensures DeepUpdate(base, update, n) == DeepUpdate(base, update, m)
    decreases n
  {
    if n > m {
      FailureStops(base, update, m, n - 1);
    }
  }

  /** Between the state after `m` entries and the state after `n`, a key no entry in between
      names keeps its value, raise or not. */
  lemma {:induction false} DeepUpdateFrame(base: Dict, update: Parsed, m: nat, n: nat)
    requires update.PObject? && m <= n <= |update.entries|
    ensures var before, after := DeepUpdate(base, update, m).0, DeepUpdate(base, update, n).0;
      forall k :: k in before && k !in KeysBetween(update, m, n) ==> k in after && after[k] == before[k]
    decreases n
  {
    if n > m {
      DeepUpdateFrame(base, update, m, n - 1);
      assert KeysBetween(update, m, n - 1) <= KeysBetween(update, m, n);
      assert update.entries[n - 1].0 in KeysBetween(update, m, n);
    }
  }

  /** The keys after `n` entries: those of `base`, plus at most the keys the entries name, and
      exactly those when nothing raised. */
  lemma {:induction false} DeepUpdateKeys(base: Dict, update: Parsed, n: nat)
    requires update.PObject? && n <= |update.entries|
    ensures var r := DeepUpdate(base, update, n);
      base.Keys <= r.0.Keys <= base.Keys + EntryKeys(update, n) &&
      (r.1 ==> r.0.Keys == base.Keys + EntryKeys(update, n))
    decreases n
  {
    if n > 0 {
      DeepUpdateKeys(base, update, n - 1);
      assert EntryKeys(update, n) == EntryKeys(update, n - 1) + {update.entries[n - 1].0};
    }
  }

  /** A merge that raised stopped at one entry `j`: the entries before it were all merged, the
      result is the state after entry `j`, and that state differs from the one before entry `j`
      at most at the key entry `j` names. */
  lemma {:induction false} FirstFailure(base: Dict, update: Parsed, n: nat) returns (j: nat)
    requires update.PObject? && n <= |update.entries|
    requires !DeepUpdate(base, update, n).1
    ensures j < n && DeepUpdate(base, update, j).1 && !DeepUpdate(base, update, j + 1).1
    ensures DeepUpdate(base, update, n) == DeepUpdate(base, update, j + 1)
    ensures var before, r := DeepUpdate(base, update, j).0, DeepUpdate(base, update, n).0;
      r == before[update.entries[j].0 := r[update.entries[j].0]]
    decreases n
  {
    if DeepUpdate(base, update, n - 1).1 {
      j := n - 1;
    } else {
      j := FirstFailure(base, update, n - 1);
    }
  }

  /** In the walk, a value that is not a dict, at the last entry naming its key, is found at
      that key once the walk has reached it, whatever the later entries do. */
  lemma {:induction false} WalkLastValueWins(base: Dict, update: Parsed, j: nat, n: nat)
    requires update.PObject? && j < n <= |update.entries|
    requires DeepUpdate(base, update, j).1 && !update.entries[j].1.PObject?
    requires forall i :: j < i < n ==> update.entries[i].0 != update.entries[j].0
    ensures var r, key := DeepUpdate(base, update, n).0, update.entries[j].0;
      key in r && r[key] == ToJson(update.entries[j].1)
  {
    var key := update.entries[j].0;
    var after := DeepUpdate(base, update, j + 1);
    assert after == UpdateKey(DeepUpdate(base, update, j).0, key, update.entries[j].1);
    assert key in after.0 && after.0[key] == ToJson(update.entries[j].1);
    assert key !in KeysBetween(update, j + 1, n);
    DeepUpdateFrame(base, update, j + 1, n);
  }

  /** A file of two dicts, of which the second merges a dict into a value that is not a
      dict, raises, yet keeps what the first one merged. */
  lemma {:induction false} RaiseKeepsEarlierEntry(base: Dict, k1: string, key: string, v: Parsed,
                                                 k2: string, k3: string, x: string, w: Parsed)
    requires k1 != k2 && k1 in base && base[k1].JObject? && !v.PObject?
    requires k2 in base && base[k2].JObject? && k3 in base[k2].fields && !base[k2].fields[k3].JObject?
    ensures var file := PObject([(k1, PObject([(key, v)])), (k2, PObject([(k3, PObject([(x, w)]))]))]);
      DeepUpdate(base, file, 2) == (base[k1 := JObject(base[k1].fields[key := ToJson(v)])], false)
  {
    var first, second := PObject([(key, v)]), PObject([(k3, PObject([(x, w)]))]);
    var file := PObject([(k1, first), (k2, second)]);
    assert DeepUpdate(base[k1].fields, first, 1) == (base[k1].fields[key := ToJson(v)], true) by {
      assert DeepUpdate(base[k1].fields, first, 0) == (base[k1].fields, true);
    }
    var d := base[k1 := JObject(base[k1].fields[key := ToJson(v)])];
    assert DeepUpdate(base, file, 1) == (d, true) by {
      assert DeepUpdate(base, file, 0) == (base, true);
    }
    assert DeepUpdate(d[k2].fields, second, 1) == (d[k2].fields, false) by {
      assert DeepUpdate(d[k2].fields, second, 0) == (d[k2].fields, true);
    }
    assert d[k2 := JObject(d[k2].fields)] == d;
  }

  /** The file `{"output": {"csv_delimiter": ";"}, "processing": {"chunk_size": {"x": 1}}}`. */
  function DelimiterThenBadChunk(): Parsed
  {
    PObject([
      ("output", PObject([("csv_delimiter", PString(";"))])),
      ("processing", PObject([("chunk_size", PObject([("x", PInt(1))]))]))])
  }

  /** The file `{"processing": {"progress_updates": 5}, "extra": 5,
      "processing": {"chunk_size": {"y": 1}}}`. */
  function RepeatedBadSection(): Parsed
  {
    PObject([
      ("processing", PObject([("progress_updates", PInt(5))])),
      ("extra", PInt(5)),
      ("processing", PObject([("chunk_size", PObject([("y", PInt(1))]))]))])
  }

  /** `json.load` puts the second `processing` section first, in the place of the first one,
      so over settings whose chunk size is a number the load raises before it reaches `extra`
      and changes nothing. */
  lemma {:induction false} RepeatedSectionRaisesFirst(base: Dict)
    requires "processing" in base && base["processing"].JObject?
    requires "chunk_size" in base["processing"].fields && base["processing"].fields["chunk_size"].JInt?
    ensures !LoadSucceeds(base, RepeatedBadSection())
    ensures Loaded(base, RepeatedBadSection()) == base
  {
    var f := RepeatedBadSection();
    var first, second := PObject([("progress_updates", PInt(5))]), PObject([("chunk_size", PObject([("y", PInt(1))]))]);
    var inner := PObject([("y", PInt(1))]);
    assert CollapsedEntries(inner, 1) == Assoc.Put([], "y", Collapse(PInt(1)));
    assert Collapse(inner) == inner;
    assert CollapsedEntries(second, 1) == Assoc.Put([], "chunk_size", Collapse(inner));
    assert Collapse(second) == second;
    assert CollapsedEntries(f, 1) == [("processing", Collapse(first))];
    assert CollapsedEntries(f, 2) == [("processing", Collapse(first)), ("extra", PInt(5))];
    assert CollapsedEntries(f, 3) == [("processing", second), ("extra", PInt(5))];
    var c := Collapse(f);
    assert c.entries == [("processing", second), ("extra", PInt(5))];
    var fields := base["processing"].fields;
    assert DeepUpdate(fields, second, 1) == (fields, false) by {
      assert DeepUpdate(fields, second, 0) == (fields, true);
    }
    assert base["processing" := JObject(fields)] == base;
    assert DeepUpdate(base, c, 1) == (base, false) by {
      assert DeepUpdate(base, c, 0) == (base, true);
    }
    FailureStops(base, c, 1, 2);
  }

  /** That file repeats no key, so `json.load` returns it as written. */
  lemma DelimiterThenBadChunkCollapses()
    ensures Collapse(DelimiterThenBadChunk()) == DelimiterThenBadChunk()
  {
    var d1, d2 := PObject([("csv_delimiter", PString(";"))]), PObject([("chunk_size", PObject([("x", PInt(1))]))]);
    var inner := PObject([("x", PInt(1))]);
    assert CollapsedEntries(inner, 1) == Assoc.Put([], "x", Collapse(PInt(1)));
    assert Collapse(inner) == inner;
    assert CollapsedEntries(d2, 1) == Assoc.Put([], "chunk_size", Collapse(inner));
    assert Collapse(d2) == d2;
    assert CollapsedEntries(d1, 1) == Assoc.Put([], "csv_delimiter", Collapse(PString(";")));
    assert Collapse(d1) == d1;
    var f := DelimiterThenBadChunk();
    assert CollapsedEntries(f, 1) == [("output", d1)];
    assert CollapsedEntries(f, 2) == Assoc.Put([("output", d1)], "processing", d2);
  }

  /** Loading that file into settings whose `processing.chunk_size` is a number raises at the
      second entry, yet keeps the new delimiter and leaves the chunk size alone. */
  lemma {:induction false} PartialLoad(base: Dict, default: Json)
    requires "output" in base && base["output"].JObject?
    requires "processing" in base && base["processing"].JObject?
    requires "chunk_size" in base["processing"].fields && base["processing"].fields["chunk_size"].JInt?
    ensures !DeepUpdate(base, DelimiterThenBadChunk(), 2).1
    ensures GetPath(JObject(Loaded(base, DelimiterThenBadChunk())), ["output", "csv_delimiter"], default) == JString(";")
    ensures GetPath(JObject(Loaded(base, DelimiterThenBadChunk())), ["processing", "chunk_size"], default) ==
      base["processing"].fields["chunk_size"]
  {
    RaiseKeepsEarlierEntry(base, "output", "csv_delimiter", PString(";"), "processing", "chunk_size", "x", PInt(1));
    DelimiterThenBadChunkCollapses();
    assert ToJson(PString(";")) == JString(";");
    var r := Loaded(base, DelimiterThenBadChunk());
    assert r == base["output" := JObject(base["output"].fields["csv_delimiter" := JString(";")])];
    var p1: seq<string>, p2: seq<string> := ["output", "csv_delimiter"], ["processing", "chunk_size"];
    assert p1[1..] == ["csv_delimiter"] && p1[1..][1..] == [];
    assert p2[1..] == ["chunk_size"] && p2[1..][1..] == [];
    assert r["output"].fields["csv_delimiter"] == JString(";");
    assert GetPath(JObject(r), p1, default) == GetPath(r["output"], p1[1..], default) == JString(";");
    assert r["processing"] == base["processing"];
    assert GetPath(JObject(r), p2, default) == GetPath(r["processing"], p2[1..], default) ==
      base["processing"].fields["chunk_size"];
  }

  /** Loading that file over the defaults raises, yet the loaded settings keep the delimiter
      ";", and the chunk size is still 10000. */
  lemma PartialLoadKeepsEarlierEntries(default: Json)
    ensures !DeepUpdate(Defaults, DelimiterThenBadChunk(), 2).1
    ensures GetPath(JObject(Loaded(Defaults, DelimiterThenBadChunk())), ["output", "csv_delimiter"], default) == JString(";")
    ensures GetPath(JObject(Loaded(Defaults, DelimiterThenBadChunk())), ["processing", "chunk_size"], default) == JInt(10000)
  {
    assert Defaults["processing"].fields["chunk_size"] == JInt(10000);
    PartialLoad(Defaults, default);
  }

  /** `_deep_update` as a loop over the entries of the dict, recursing into nested dicts;
      `ok` is false when it raised. `Load` hands it what `json.load` returned, which repeats
      no key at any level (`CollapseNoRepeats`). */
  method MergeInto(base: Dict, update: Parsed) returns (r: Dict, ok: bool)
    requires update.PObject?
    ensures (r, ok) == DeepUpdate(base, update, |update.entries|)
    decreases update
  {
    r, ok := base, true;
    var i := 0;
    while i < |update.entries|
      invariant i <= |update.entries|
      invariant (r, ok) == DeepUpdate(base, update, i) && ok
    {
      var key, value := update.entries[i].0, update.entries[i].1;
      if value.PObject? && key in r {
        if r[key].JObject? {
          var sub, subOk := MergeInto(r[key].fields, value);
          r, ok := r[key := JObject(sub)], subOk;
        } else {
          ok := value.entries == [];
        }
      } else {
        r := r[key := ToJson(value)];
      }
      i := i + 1;
      if !ok {
        FailureStops(base, update, i, |update.entries|);
        return;
      }
    }
  }

  /** The settings object. */
  class Config {
    var data: Dict

    /** `Config(config_file)`: the defaults, merged with the parsed file if there is one;
        `userConfig` is `None` when the file is absent. */
    constructor (userConfig: Option<Parsed>)
      ensures userConfig.None? ==> data == Defaults
      ensures userConfig.Some? ==> data == Loaded(Defaults, userConfig.value)
    {
      data := Defaults;
      new;
      if userConfig.Some? {
        Load(userConfig.value);
      }
    }

    /** `get(key_path, default)` */
    method Get(keyPath: string, default: Json) returns (r: Json)
      ensures r == GetPath(JObject(data), Split(keyPath, '.'), default)
    {
      var keys := Split(keyPath, '.');
      var value := JObject(data);
      var i := 0;
      while i < |keys|
        invariant i <= |keys|
        invariant GetPath(value, keys[i..], default) == GetPath(JObject(data), keys, default)
      {
        assert keys[i..][1..] == keys[i + 1..];
        if value.JObject? && keys[i] in value.fields {
          value := value.fields[keys[i]];
        } else {
          return default;
        }
        i := i + 1;
      }
      r := value;
    }

    /** `set(key_path, value)`; `ok` is false for the `TypeError`, which changes nothing. */
    method Set(keyPath: string, value: Json) returns (ok: bool)
      modifies this
      ensures var keys := Split(keyPath, '.');
        keys != [] &&
        (ok <==> SetPath(old(data), keys, value).Some?) &&
        data == (if ok then SetPath(old(data), keys, value).value else old(data))
    {
      var keys := Split(keyPath, '.');
      var r := SetPath(data, keys, value);
      ok := r.Some?;
      if ok {
        data := r.value;
      }
    }

    /** `load`: merge what `json.load` makes of the file into the settings. A file that is not a dict raises at
        once and changes nothing; a merge that raises keeps what it merged before the raise. */
    method Load(userConfig: Parsed)
      modifies this
      ensures data == Loaded(old(data), userConfig)
    {
      if userConfig.PObject? {
        var r, ok := MergeInto(data, Collapse(userConfig));
        data := r;
      }
    }
  }

  /** The settings after `load` of `userConfig` into `base`: the walk over the dict that
      `json.load` returns. */
  function Loaded(base: Dict, userConfig: Parsed): (r: Dict)
    ensures !userConfig.PObject? ==> r == base
    ensures userConfig.PObject? ==> base.Keys <= r.Keys <= base.Keys + EntryKeys(userConfig, |userConfig.entries|)
  {
    if userConfig.PObject? then
      var c := Collapse(userConfig);
      DeepUpdateKeys(base, c, |c.entries|);
      CollapsedShape(userConfig, |userConfig.entries|);
      assert EntryKeys(c, |c.entries|) == Assoc.Keys(c.entries);
      DeepUpdate(base, c, |c.entries|).0
    else base
  }

  /** `load` of `userConfig` into `base` raises nothing. */
  predicate LoadSucceeds(base: Dict, userConfig: Parsed)
  {
    userConfig.PObject? && DeepUpdate(base, Collapse(userConfig), |Collapse(userConfig).entries|).1
  }

  /** After a load that raised nothing, a key whose last value in the file is not a dict holds
      what `json.load` made of that value, whatever the earlier entries for the key said. */
  lemma LastValueWins(base: Dict, file: Parsed, i: nat)
    requires file.PObject? && i < |file.entries| && !file.entries[i].1.PObject?
    requires forall j :: i < j < |file.entries| ==> file.entries[j].0 != file.entries[i].0
    requires LoadSucceeds(base, file)
    ensures var k := file.entries[i].0;
      k in Loaded(base, file) && Loaded(base, file)[k] == ToJson(Collapse(file.entries[i].1))
  {
    var c, k := Collapse(file), file.entries[i].0;
    CollapsedGet(file, |file.entries|, i);
    CollapsedShape(file, |file.entries|);
    Assoc.GetSpec(c.entries, k);
    var j :| 0 <= j < |c.entries| && c.entries[j] == (k, Collapse(file.entries[i].1));
    assert !c.entries[j].1.PObject?;
    assert forall l :: j < l < |c.entries| ==> c.entries[l].0 != k;
    if !DeepUpdate(base, c, j).1 {
      FailureStops(base, c, j, |c.entries|);
    }
    WalkLastValueWins(base, c, j, |c.entries|);
  }

  /** The file `{"output": {"csv_delimiter": ";"}, "output": {"decimal_places": 2}}`. */
  function RepeatedOutput(): Parsed
  {
    PObject([
      ("output", PObject([("csv_delimiter", PString(";"))])),
      ("output", PObject([("decimal_places", PInt(2))]))])
  }

  /** `json.load` keeps only the second `output` section of that file, so loading it changes
      the decimal places and leaves the delimiter alone. */
  lemma {:induction false} RepeatedSectionLastWins(base: Dict)
    requires "output" in base && base["output"].JObject?
    ensures Loaded(base, RepeatedOutput()) == base["output" := JObject(base["output"].fields["decimal_places" := JInt(2)])]
  {
    var first, second := PObject([("csv_delimiter", PString(";"))]), PObject([("decimal_places", PInt(2))]);
    var f := RepeatedOutput();
    assert Collapse(second) == second by {
      assert CollapsedEntries(second, 1) == Assoc.Put([], "decimal_places", Collapse(PInt(2)));
    }
    assert CollapsedEntries(f, 1) == [("output", Collapse(first))];
    assert CollapsedEntries(f, 2) == [("output", second)];
    var c := PObject([("output", second)]);
    assert Collapse(f) == c;
    var fields := base["output"].fields;
    assert DeepUpdate(fields, second, 1) == (fields["decimal_places" := JInt(2)], true) by {
      assert DeepUpdate(fields, second, 0) == (fields, true);
    }
    assert DeepUpdate(base, c, 1) == (base["output" := JObject(fields["decimal_places" := JInt(2)])], true) by {
      assert DeepUpdate(base, c, 0) == (base, true);
    }
  }

  /** Over the defaults, that file keeps the delimiter `,` and sets the decimal places to 2. */
  lemma RepeatedSectionOverDefaults(default: Json)
    ensures GetPath(JObject(Loaded(Defaults, RepeatedOutput())), ["output", "csv_delimiter"], default) == JString(",")
    ensures GetPath(JObject(Loaded(Defaults, RepeatedOutput())), ["output", "decimal_places"], default) == JInt(2)
  {
    RepeatedSectionLastWins(Defaults);
    var r := Loaded(Defaults, RepeatedOutput());
    var out := Defaults["output"].fields["decimal_places" := JInt(2)];
    assert r["output"] == JObject(out);
    assert out["csv_delimiter"] == JString(",");
    var p1: seq<string>, p2: seq<string> := ["output", "csv_delimiter"], ["output", "decimal_places"];
    assert p1[1..] == ["csv_delimiter"] && p1[1..][1..] == [];
    assert p2[1..] == ["decimal_places"] && p2[1..][1..] == [];
    assert GetPath(JObject(r), p1, default) == GetPath(JObject(out), p1[1..], default) == JString(",");
    assert GetPath(JObject(r), p2, default) == GetPath(JObject(out), p2[1..], default) == JInt(2);
  }

  /** A path of two keys splits into those keys. */
  lemma SplitPair(a: string, b: string, c: char)
    requires c !in a && c !in b
    ensures Split(a + [c] + b, c) == [a, b]
  {
    var s := a + [c] + b;
    var i := FindChar(s, c);
    assert s[|a|] == c;
    assert forall j :: 0 <= j < |a| ==> s[j] == a[j];
    assert i == |a|;
    assert s[..i] == a && s[i + 1..] == b;
    assert FindChar(b, c) == |b|;
  }

  /** A fresh configuration holds `processing.chunk_size` = 10000 and
      `processing.memory_optimization` = True, and has no `nonexistent.key` (each dotted
      path splits into its two keys, by `SplitPair`). */
  lemma DefaultValues(default: Json)
    ensures GetPath(JObject(Defaults), ["processing", "chunk_size"], default) == JInt(10000)
    ensures GetPath(JObject(Defaults), ["processing", "memory_optimization"], default) == JBool(true)
    ensures GetPath(JObject(Defaults), ["nonexistent", "key"], default) == default
  {
    var processing := Defaults["processing"];
    assert processing.fields["chunk_size"] == JInt(10000);
    assert processing.fields["memory_optimization"] == JBool(true);
    var p1: seq<string>, p2: seq<string> := ["processing", "chunk_size"], ["processing", "memory_optimization"];
    assert p1[1..] == ["chunk_size"] && p1[1..][1..] == [];
    assert p2[1..] == ["memory_optimization"] && p2[1..][1..] == [];
    assert GetPath(JObject(Defaults), p1, default) == GetPath(processing, p1[1..], default);
    assert GetPath(JObject(Defaults), p2, default) == GetPath(processing, p2[1..], default);
    assert processing.JObject? && "chunk_size" in processing.fields && "memory_optimization" in processing.fields;
    assert GetPath(processing, p1[1..], default) == GetPath(JInt(10000), p1[1..][1..], default);
    assert GetPath(processing, p2[1..], default) == GetPath(JBool(true), p2[1..][1..], default);
    assert "nonexistent" !in Defaults;
  }

  /** The shared instance behind `get_config`. */
  class Registry {
    var instance: Config?

    constructor ()
      ensures instance == null
    {
      instance := null;
    }

    /** `get_config(config_file)`: the first call builds the instance, every later call
        returns that same instance and ignores its argument. */
    method GetConfig(userConfig: Option<Parsed>) returns (c: Config)
      modifies this
      ensures old(instance) != null ==> c == old(instance)
      ensures old(instance) == null ==> (fresh(c) &&
        c.data == (if userConfig.None? then Defaults else Loaded(Defaults, userConfig.value)))
      ensures instance == c
    {
      if instance == null {
        instance := new Config(userConfig);
      }
      c := instance;
    }
  }
}
