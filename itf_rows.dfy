/** From parsed ITF units to report rows: one row per visual id and mapped test name, then the
    fuse strings reassembled from their `_fd<n>` fragments; and the parser's visual-id filter. */
module ItfRows {
  import opened Text
  import opened Wrappers
  import opened Assoc
  import opened ItfLines
  import opened ItfExtract
  import opened Ordering

  /** A TNAME-VALUE row. The header fields and the first unit's attributes are kept apart from
      the eight fixed columns; none of their keys is one of those columns except `visualid`,
      which the attributes give the same value. */
  datatype Row = Row(filename: string, visualid: string, ssid: string, ult: string, tname: string,
                     value: string, domain: string, register: string,
                     header: map<string, string>, attrs: map<string, string>)

  /** What every row of one ITF file shares: its name, its header and the parser's lookup of
      a test name's (domain, register, SSID). */
  datatype RowContext = RowContext(filename: string, header: map<string, string>, find: string -> Option<(string, string, string)>)

  /** `find_ssid_for_tname` over the parser's mapping table. */
  function MappingLookup(table: seq<Mapping>, search: Search): string -> Option<(string, string, string)>
  {
    t => FindSsidForTname(t, table, search)
  }

  /** `unit.get('visualid')` when it is truthy. */
  function VisualidOf(u: Unit): Option<string>
  {
    if "visualid" in u.attrs && u.attrs["visualid"] != "" then Some(u.attrs["visualid"]) else None
  }

  // ---------------------------------------------------------------------------------------
  // Grouping the units by visual id

  /** `units_by_visualid`: the units that have a visual id, grouped by it in the order the ids
      first appear. */
  function GroupBy(units: seq<Unit>): Dict<string, seq<Unit>>
  {
    if units == [] then []
    else
      var d := GroupBy(units[..|units| - 1]);
      var u := units[|units| - 1];
      if VisualidOf(u).Some? then Append(d, VisualidOf(u).value, u) else d
  }

  /** The units with visual id `v`, in input order; the first is the first such unit. */
  function WithVisualid(units: seq<Unit>, v: string): seq<Unit>
  {
    if units == [] then []
    else
      var u := units[|units| - 1];
      WithVisualid(units[..|units| - 1], v) + (if VisualidOf(u) == Some(v) then [u] else [])
  }

  /** `WithVisualid` keeps only units with visual id `v`. */
  lemma {:induction false} WithVisualidIn(units: seq<Unit>, v: string, u: Unit)
    requires u in WithVisualid(units, v)
    ensures u in units && VisualidOf(u) == Some(v)
  {
    var n := |units| - 1;
    if u in WithVisualid(units[..n], v) {
      WithVisualidIn(units[..n], v, u);
    }
  }

  /** `WithVisualid` keeps every unit with visual id `v`. */
  lemma {:induction false} WithVisualidHas(units: seq<Unit>, v: string, i: nat)
    requires i < |units| && VisualidOf(units[i]) == Some(v)
    ensures units[i] in WithVisualid(units, v)
  {
    if i < |units| - 1 {
      WithVisualidHas(units[..|units| - 1], v, i);
    }
  }

  /** `WithVisualid` is empty only when no unit has visual id `v`. */
  lemma WithVisualidEmpty(units: seq<Unit>, v: string)
    ensures WithVisualid(units, v) == [] <==> forall i :: 0 <= i < |units| ==> VisualidOf(units[i]) != Some(v)
  {
    var w := WithVisualid(units, v);
    if exists i :: 0 <= i < |units| && VisualidOf(units[i]) == Some(v) {
      var i :| 0 <= i < |units| && VisualidOf(units[i]) == Some(v);
      WithVisualidHas(units, v, i);
    }
    if w != [] {
      WithVisualidIn(units, v, w[0]);
    }
  }

  /** A non-empty `WithVisualid` starts with the first unit that has visual id `v`. */
  lemma {:induction false} WithVisualidFirst(units: seq<Unit>, v: string)
    requires WithVisualid(units, v) != []
    ensures exists i :: (0 <= i < |units| && units[i] == WithVisualid(units, v)[0] &&
      forall j :: 0 <= j < i ==> VisualidOf(units[j]) != Some(v))
  {
    var w := WithVisualid(units, v);
    var n := |units| - 1;
    var init := units[..n];
    var w0 := WithVisualid(init, v);
    assert w == w0 + (if VisualidOf(units[n]) == Some(v) then [units[n]] else []);
    if w0 != [] {
      WithVisualidFirst(init, v);
      var i :| 0 <= i < n && init[i] == w0[0] && forall j :: 0 <= j < i ==> VisualidOf(init[j]) != Some(v);
      assert w[0] == w0[0];
      assert units[i] == init[i];
      assert forall j :: 0 <= j < i ==> init[j] == units[j];
    } else {
      WithVisualidEmpty(init, v);
      assert w[0] == units[n];
      assert forall j :: 0 <= j < n ==> init[j] == units[j];
    }
  }

  /** The group of `v` holds exactly the units with visual id `v`, in input order. */
  lemma {:induction false} GroupByGet(units: seq<Unit>, v: string)
    ensures Get(GroupBy(units), v) == if WithVisualid(units, v) == [] then None else Some(WithVisualid(units, v))
  {
    if units != [] {
      var init := units[..|units| - 1];
      var u := units[|units| - 1];
      GroupByGet(init, v);
      if VisualidOf(u) == Some(v) {
        AppendGet(GroupBy(init), v, u, v);
        assert WithVisualid(units, v) == WithVisualid(init, v) + [u];
        assert [] + [u] == [u];
      } else {
        if VisualidOf(u).Some? {
          AppendGet(GroupBy(init), VisualidOf(u).value, u, v);
        }
        assert WithVisualid(units, v) == WithVisualid(init, v) + [];
        assert WithVisualid(init, v) + [] == WithVisualid(init, v);
      }
    }
  }

  /** Each visual id is one group, and no group is empty. */
  lemma {:induction false} GroupByShape(units: seq<Unit>)
    ensures DistinctKeys(GroupBy(units))
    ensures forall i :: 0 <= i < |GroupBy(units)| ==> GroupBy(units)[i].1 == WithVisualid(units, GroupBy(units)[i].0) != []
  {
    if units != [] {
      var init := units[..|units| - 1];
      var u := units[|units| - 1];
      GroupByShape(init);
      if VisualidOf(u).Some? {
        var d := GroupBy(init);
        var v := VisualidOf(u).value;
        PutShape(d, v, (if Get(d, v).Some? then Get(d, v).value else []) + [u]);
      }
    }
    var g := GroupBy(units);
    forall i | 0 <= i < |g| ensures g[i].1 == WithVisualid(units, g[i].0) != [] {
      GroupByGet(units, g[i].0);
      GetSpec(g, g[i].0);
    }
  }

  // ---------------------------------------------------------------------------------------
  // Combining the units of one visual id

  /** `combined_tname_values.update(unit['tname_values'])` for each unit in turn. */
  function CombinedTnames(us: seq<Unit>): (r: Dict<string, string>)
    ensures DistinctKeys(r)
  {
    if us == [] then []
    else
      var d := CombinedTnames(us[..|us| - 1]);
      UpdateShape(d, us[|us| - 1].tnameValues);
      Update(d, us[|us| - 1].tnameValues)
  }

  /** The value the last unit of `us` that has test name `t` gives it. */
  function LastTnameValue(us: seq<Unit>, t: string): Option<string>
  {
    if us == [] then None
    else if Get(us[|us| - 1].tnameValues, t).Some? then Get(us[|us| - 1].tnameValues, t)
    else LastTnameValue(us[..|us| - 1], t)
  }

  /** A test name repeated across the units of one visual id keeps the last unit's value. */
  lemma {:induction false} CombinedTnamesLast(us: seq<Unit>, t: string)
    requires forall i :: 0 <= i < |us| ==> DistinctKeys(us[i].tnameValues)
    ensures Get(CombinedTnames(us), t) == LastTnameValue(us, t)
  {
    if us != [] {
      var init := us[..|us| - 1];
      var e := us[|us| - 1].tnameValues;
      CombinedTnamesLast(init, t);
      UpdateGet(CombinedTnames(init), e, t);
      DistinctReversedGet(e, t);
      GetSpec(e, t);
    }
  }

  /** The SSIDs with ULT data in any of `us`. */
  function UltSsids(us: seq<Unit>): set<string>
  {
    if us == [] then {} else UltSsids(us[..|us| - 1]) + Keys(us[|us| - 1].ultData)
  }

  /** `combined_ult_data`: the first ULT string seen for each SSID; it holds every SSID. */
  function CombinedUlt(us: seq<Unit>): (r: Dict<string, string>)
    ensures Keys(r) == UltSsids(us)
  {
    if us == [] then []
    else
      var d := CombinedUlt(us[..|us| - 1]);
      AddAbsentGet(d, us[|us| - 1].ultData, "");
      AddAbsent(d, us[|us| - 1].ultData)
  }

  /** The ULT string the first unit of `us` that has SSID `s` gives it. */
  function FirstUlt(us: seq<Unit>, s: string): Option<string>
  {
    if us == [] then None
    else
      var f := FirstUlt(us[..|us| - 1], s);
      if f.Some? then f else Get(us[|us| - 1].ultData, s)
  }

  /** An SSID repeated across the units of one visual id keeps the first unit's ULT string. */
  lemma {:induction false} CombinedUltFirst(us: seq<Unit>, s: string)
    ensures Get(CombinedUlt(us), s) == FirstUlt(us, s)
  {
    if us != [] {
      CombinedUltFirst(us[..|us| - 1], s);
      AddAbsentGet(CombinedUlt(us[..|us| - 1]), us[|us| - 1].ultData, s);
    }
  }

  // ---------------------------------------------------------------------------------------
  // The rows

  /** `combined_ult_data.get(ssid, '')` */
  function UltFor(ult: Dict<string, string>, ssid: string): string
  {
    if Get(ult, ssid).Some? then Get(ult, ssid).value else ""
  }

  /** The rows of one visual id: one per test name the mapping table knows, in the order of
      `entries`, with the mapped SSID, domain and register and that SSID's ULT string. */
  function TnameRows(entries: Dict<string, string>, v: string, attrs: map<string, string>,
                     ult: Dict<string, string>, ctx: RowContext): seq<Row>
  {
    if entries == [] then []
    else
      var rest := TnameRows(entries[..|entries| - 1], v, attrs, ult, ctx);
      var (t, value) := entries[|entries| - 1];
      var m := ctx.find(t);
      if m.None? then rest
      else
        var (domain, register, ssid) := m.value;
        rest + [Row(ctx.filename, v, ssid, UltFor(ult, ssid), t, value, domain, register, ctx.header, attrs)]
  }

  /** Each row carries the visual id, attributes, header and file name it was made with, one
      of the entries, the SSID, domain and register the lookup gives that entry's test name, and
      that SSID's ULT string. */
  lemma {:induction false} TnameRowsSound(entries: Dict<string, string>, v: string, attrs: map<string, string>,
                                          ult: Dict<string, string>, ctx: RowContext, x: Row)
    requires x in TnameRows(entries, v, attrs, ult, ctx)
    ensures x.visualid == v && x.attrs == attrs && x.header == ctx.header && x.filename == ctx.filename
    ensures (x.tname, x.value) in entries && x.ult == UltFor(ult, x.ssid)
    ensures ctx.find(x.tname) == Some((x.domain, x.register, x.ssid))
  {
    var n := |entries| - 1;
    var (t, value) := entries[n];
    if x in TnameRows(entries[..n], v, attrs, ult, ctx) {
      TnameRowsSound(entries[..n], v, attrs, ult, ctx, x);
      var k :| 0 <= k < n && entries[..n][k] == (x.tname, x.value);
      assert entries[k] == entries[..n][k];
    } else {
      var m := ctx.find(t);
      assert m.Some?;
      var (domain, register, ssid) := m.value;
      assert x == Row(ctx.filename, v, ssid, UltFor(ult, ssid), t, value, domain, register, ctx.header, attrs);
      assert entries[n] == (x.tname, x.value);
    }
  }

  /** Every entry whose test name the mapping table knows has its row. */
  lemma {:induction false} TnameRowsComplete(entries: Dict<string, string>, v: string, attrs: map<string, string>,
                                             ult: Dict<string, string>, ctx: RowContext, i: nat)
    requires i < |entries| && ctx.find(entries[i].0).Some?
    ensures exists x :: x in TnameRows(entries, v, attrs, ult, ctx) && x.tname == entries[i].0 && x.value == entries[i].1
  {
    var n := |entries| - 1;
    var rest := TnameRows(entries[..n], v, attrs, ult, ctx);
    if i < n {
      TnameRowsComplete(entries[..n], v, attrs, ult, ctx, i);
      var x :| x in rest && x.tname == entries[i].0 && x.value == entries[i].1;
      assert x in TnameRows(entries, v, attrs, ult, ctx);
    } else {
      var r := TnameRows(entries, v, attrs, ult, ctx);
      assert r[|r| - 1].tname == entries[i].0 && r[|r| - 1].value == entries[i].1;
    }
  }

  /** The rows of the visual id `v` whose units are `us`; the attributes are the first unit's
      (a group is never empty). */
  function GroupRows(v: string, us: seq<Unit>, ctx: RowContext): seq<Row>
  {
    if us == [] then [] else TnameRows(CombinedTnames(us), v, us[0].attrs, CombinedUlt(us), ctx)
  }

  /** The rows of one file's groups. */
  function RowMaker(ctx: RowContext): (string, seq<Unit>) -> seq<Row>
  {
    (v, us) => GroupRows(v, us, ctx)
  }

  /** The rows of each group in turn, `rowsOf` giving a group's rows. */
  function RowsWith(groups: Dict<string, seq<Unit>>, rowsOf: (string, seq<Unit>) -> seq<Row>): seq<Row>
  {
    if groups == [] then []
    else
      var n := |groups| - 1;
      RowsWith(groups[..n], rowsOf) + rowsOf(groups[n].0, groups[n].1)
  }

  /** The rows of the groups are the rows of each group. */
  lemma {:induction false} RowsWithHas(groups: Dict<string, seq<Unit>>, rowsOf: (string, seq<Unit>) -> seq<Row>, x: Row)
    ensures x in RowsWith(groups, rowsOf) <==> exists i :: 0 <= i < |groups| && x in rowsOf(groups[i].0, groups[i].1)
  {
    if groups != [] {
      var n := |groups| - 1;
      var init := groups[..n];
      RowsWithHas(init, rowsOf, x);
      if x in RowsWith(init, rowsOf) {
        var i :| 0 <= i < n && x in rowsOf(init[i].0, init[i].1);
        assert init[i] == groups[i];
      }
      if exists i :: 0 <= i < |groups| && x in rowsOf(groups[i].0, groups[i].1) {
        var i :| 0 <= i < |groups| && x in rowsOf(groups[i].0, groups[i].1);
        if i < n {
          assert init[i] == groups[i];
        }
      }
    }
  }

  /** The SSIDs of the combined ULT data of each group. */
  function AllSsids(groups: Dict<string, seq<Unit>>): set<string>
  {
    if groups == [] then {} else AllSsids(groups[..|groups| - 1]) + Keys(CombinedUlt(groups[|groups| - 1].1))
  }

  /** `create_visualid_ssid_ult_tname_rows`: the rows of the units and the SSIDs seen. */
  function VisualidRows(units: seq<Unit>, ctx: RowContext): seq<Row>
  {
    RowsWith(GroupBy(units), RowMaker(ctx))
  }

  /** What a row says about the units of its visual id. */
  ghost predicate RowOf(x: Row, us: seq<Unit>, ctx: RowContext)
  {
    us != [] && x.attrs == us[0].attrs && x.header == ctx.header && x.filename == ctx.filename
    && Get(CombinedTnames(us), x.tname) == Some(x.value)
    && x.ult == UltFor(CombinedUlt(us), x.ssid)
    && ctx.find(x.tname) == Some((x.domain, x.register, x.ssid))
  }

  /** Every row carries its test name's SSID, domain and register from the mapping table, the
      merged value of that test name and ULT string of that SSID over all units of its visual
      id, and the attributes of the first of those units. */
  lemma VisualidRowsSound(units: seq<Unit>, ctx: RowContext)
    ensures forall x :: x in VisualidRows(units, ctx) ==> RowOf(x, WithVisualid(units, x.visualid), ctx)
  {
    var g := GroupBy(units);
    GroupByShape(units);
    forall x | x in VisualidRows(units, ctx) ensures RowOf(x, WithVisualid(units, x.visualid), ctx) {
      RowsWithHas(g, RowMaker(ctx), x);
      var i :| 0 <= i < |g| && x in GroupRows(g[i].0, g[i].1, ctx);
      var entries := CombinedTnames(g[i].1);
      TnameRowsSound(entries, g[i].0, g[i].1[0].attrs, CombinedUlt(g[i].1), ctx, x);
      var j :| 0 <= j < |entries| && entries[j] == (x.tname, x.value);
      GetSpec(entries, x.tname);
    }
  }

  /** Every test name of a visual id's merged values that the mapping table knows has a row. */
  lemma VisualidRowsComplete(units: seq<Unit>, ctx: RowContext, v: string, t: string)
    requires WithVisualid(units, v) != []
    requires Get(CombinedTnames(WithVisualid(units, v)), t).Some?
    requires ctx.find(t).Some?
    ensures exists x :: (x in VisualidRows(units, ctx) && x.visualid == v && x.tname == t &&
      x.value == Get(CombinedTnames(WithVisualid(units, v)), t).value)
  {
    var g := GroupBy(units);
    GroupByShape(units);
    GroupByGet(units, v);
    GetSpec(g, v);
    var i :| 0 <= i < |g| && g[i] == (v, WithVisualid(units, v));
    var us := g[i].1;
    GroupRowsComplete(v, us, ctx, t);
    var x :| (x in GroupRows(v, us, ctx) && x.visualid == v && x.tname == t &&
      x.value == Get(CombinedTnames(us), t).value);
    assert x in RowMaker(ctx)(g[i].0, g[i].1);
    RowsWithHas(g, RowMaker(ctx), x);
  }

  /** Every known test name of one group's merged values has a row among the group's rows. */
  lemma GroupRowsComplete(v: string, us: seq<Unit>, ctx: RowContext, t: string)
    requires us != []
    requires Get(CombinedTnames(us), t).Some?
    requires ctx.find(t).Some?
    ensures exists x :: (x in GroupRows(v, us, ctx) && x.visualid == v && x.tname == t &&
      x.value == Get(CombinedTnames(us), t).value)
  {
    var entries := CombinedTnames(us);
    GetSpec(entries, t);
    var j :| 0 <= j < |entries| && entries[j] == (t, Get(entries, t).value);
    TnameRowsComplete(entries, v, us[0].attrs, CombinedUlt(us), ctx, j);
    var x :| x in TnameRows(entries, v, us[0].attrs, CombinedUlt(us), ctx) && x.tname == t && x.value == entries[j].1;
    TnameRowsSound(entries, v, us[0].attrs, CombinedUlt(us), ctx, x);
  }

  /** The SSIDs collected are those with ULT data in some unit that has a visual id. */
  lemma AllSsidsOfUnits(units: seq<Unit>, s: string)
    ensures s in AllSsids(GroupBy(units)) <==>
      exists i :: 0 <= i < |units| && VisualidOf(units[i]).Some? && s in Keys(units[i].ultData)
  {
    GroupByShape(units);
    var g := GroupBy(units);
    AllSsidsIn(g, s);
    if s in AllSsids(g) {
      var i :| 0 <= i < |g| && s in UltSsids(g[i].1);
      UltSsidsIn(g[i].1, s);
      var u :| u in g[i].1 && s in Keys(u.ultData);
      WithVisualidIn(units, g[i].0, u);
      var k :| 0 <= k < |units| && units[k] == u;
    }
    if exists i :: 0 <= i < |units| && VisualidOf(units[i]).Some? && s in Keys(units[i].ultData) {
      var i :| 0 <= i < |units| && VisualidOf(units[i]).Some? && s in Keys(units[i].ultData);
      var v := VisualidOf(units[i]).value;
      WithVisualidHas(units, v, i);
      GroupByGet(units, v);
      GetSpec(g, v);
      var j :| 0 <= j < |g| && g[j] == (v, WithVisualid(units, v));
      UltSsidsIn(g[j].1, s);
    }
  }

  lemma {:induction false} AllSsidsIn(groups: Dict<string, seq<Unit>>, s: string)
    ensures s in AllSsids(groups) <==> exists i :: 0 <= i < |groups| && s in UltSsids(groups[i].1)
  {
    if groups != [] {
      var n := |groups| - 1;
      AllSsidsIn(groups[..n], s);
      assert forall i :: 0 <= i < n ==> groups[..n][i] == groups[i];
    }
  }

  lemma {:induction false} UltSsidsIn(us: seq<Unit>, s: string)
    ensures s in UltSsids(us) <==> exists u :: u in us && s in Keys(u.ultData)
  {
    if us != [] {
      var n := |us| - 1;
      UltSsidsIn(us[..n], s);
      assert us == us[..n] + [us[n]];
    }
  }

  // ---------------------------------------------------------------------------------------
  // The loops of the parser

  method GroupUnits(units: seq<Unit>) returns (groups: Dict<string, seq<Unit>>)
    ensures groups == GroupBy(units)
  {
    groups := [];
    for i := 0 to |units|
      invariant groups == GroupBy(units[..i])
    {
      assert units[..i + 1][..i] == units[..i];
      var v := VisualidOf(units[i]);
      if v.Some? {
        groups := Append(groups, v.value, units[i]);
      }
    }
    assert units[..|units|] == units;
  }

  /** Merges the units of one visual id; `ssids` gains each SSID as it first enters the
      combined ULT data. */
  method CombineUnits(us: seq<Unit>, ssids0: set<string>) returns (ult: Dict<string, string>, tnames: Dict<string, string>, ssids: set<string>)
    ensures ult == CombinedUlt(us) && tnames == CombinedTnames(us)
    ensures ssids == ssids0 + UltSsids(us)
  {
    ult, tnames, ssids := [], [], ssids0;
    for i := 0 to |us|
      invariant ult == CombinedUlt(us[..i]) && tnames == CombinedTnames(us[..i])
      invariant ssids == ssids0 + Keys(ult)
    {
      assert us[..i + 1][..i] == us[..i];
      tnames := Update(tnames, us[i].tnameValues);
      var e := us[i].ultData;
      ghost var d0 := ult;
      for j := 0 to |e|
        invariant AddAbsent(ult, e[j..]) == AddAbsent(d0, e)
        invariant ssids == ssids0 + Keys(ult)
      {
        assert e[j..][1..] == e[j + 1..];
        var (ssid, s) := e[j];
        if Get(ult, ssid).None? {
          KeysAppend(ult, ssid, s);
          ult := ult + [(ssid, s)];
          ssids := ssids + {ssid};
        }
      }
    }
    assert us[..|us|] == us;
  }

  method MakeRows(entries: Dict<string, string>, v: string, attrs: map<string, string>,
                  ult: Dict<string, string>, ctx: RowContext) returns (rows: seq<Row>)
    ensures rows == TnameRows(entries, v, attrs, ult, ctx)
  {
    rows := [];
    for i := 0 to |entries|
      invariant rows == TnameRows(entries[..i], v, attrs, ult, ctx)
    {
      assert entries[..i + 1][..i] == entries[..i];
      var (tname, value) := entries[i];
      var result := ctx.find(tname);
      if result.Some? {
        var (domain, register, ssid) := result.value;
        var ultString := UltFor(ult, ssid);
        rows := rows + [Row(ctx.filename, v, ssid, ultString, tname, value, domain, register, ctx.header, attrs)];
      }
    }
    assert entries[..|entries|] == entries;
  }

  /** `create_visualid_ssid_ult_tname_rows` (the per-pair statistics aside). */
  method CreateVisualidRows(units: seq<Unit>, ctx: RowContext) returns (rows: seq<Row>, allSsids: set<string>)
    ensures rows == VisualidRows(units, ctx)
    ensures allSsids == AllSsids(GroupBy(units))
  {
    var groups := GroupUnits(units);
    GroupByShape(units);
    rows, allSsids := [], {};
    for g := 0 to |groups|
      invariant rows == RowsWith(groups[..g], RowMaker(ctx))
      invariant allSsids == AllSsids(groups[..g])
    {
      assert groups[..g + 1][..g] == groups[..g];
      var more;
      more, allSsids := VisualidGroup(groups[g].0, groups[g].1, ctx, allSsids);
      rows := rows + more;
    }
    assert groups[..|groups|] == groups;
  }

  /** The body of the group loop of `create_visualid_ssid_ult_tname_rows`: one visual id's
      rows, and the SSIDs seen so far with those of its units. */
  method VisualidGroup(v: string, us: seq<Unit>, ctx: RowContext, ssids0: set<string>)
    returns (more: seq<Row>, ssids: set<string>)
    requires us != []
    ensures more == GroupRows(v, us, ctx)
    ensures ssids == ssids0 + Keys(CombinedUlt(us))
  {
    var ult, tnames;
    ult, tnames, ssids := CombineUnits(us, ssids0);
    more := MakeRows(tnames, v, us[0].attrs, ult, ctx);
  }
  // ---------------------------------------------------------------------------------------
  // Reassembling fuse strings from their `_fd<n>` fragments

  /** A fuse-string row: the first fragment's row carrying the base test name and the joined
      value, with the number of fragments and their numbers. */
  datatype FullRow = FullRow(row: Row, fdCount: nat, fdNumbers: string)

  /** A row's group: its visual id, its SSID and its test name without the `_fd<n>` suffix. */
  function FragKey(x: Row): (string, string, string)
  {
    (x.visualid, x.ssid, ExtractBaseTname(x.tname))
  }

  /** One group: its fragment values by number and the row its output starts from. */
  datatype Frags = Frags(values: map<nat, string>, base: Row)

  /** `grouped_data`: groups in order of first appearance; a repeated fragment number takes the
      later value; the base row is the group's first row. */
  function GroupFrags(rows: seq<Row>): Dict<(string, string, string), Frags>
  {
    if rows == [] then []
    else
      var d := GroupFrags(rows[..|rows| - 1]);
      var x := rows[|rows| - 1];
      var k := FragKey(x);
      var fd := ExtractFdNumber(x.tname);
      var g := Get(d, k);
      if g.Some? then Put(d, k, g.value.(values := g.value.values[fd := x.value]))
      else Put(d, k, Frags(map[fd := x.value], x.(tname := k.2)))
  }

  /** The value of the last row of group `k` with fragment number `n`. */
  function LastFrag(rows: seq<Row>, k: (string, string, string), n: nat): Option<string>
  {
    if rows == [] then None
    else
      var x := rows[|rows| - 1];
      if FragKey(x) == k && ExtractFdNumber(x.tname) == n then Some(x.value) else LastFrag(rows[..|rows| - 1], k, n)
  }

  /** The first row of group `k`. */
  function FirstOfGroup(rows: seq<Row>, k: (string, string, string)): Option<Row>
  {
    if rows == [] then None
    else
      var f := FirstOfGroup(rows[..|rows| - 1], k);
      if f.Some? then f else if FragKey(rows[|rows| - 1]) == k then Some(rows[|rows| - 1]) else None
  }

  /** Fragment `n` of a group, if the group and the fragment exist. */
  function FragValue(g: Option<Frags>, n: nat): Option<string>
  {
    if g.Some? && n in g.value.values then Some(g.value.values[n]) else None
  }

  /** A group exists exactly for the keys of the rows, and it starts from its first row,
      renamed to the base test name. */
  lemma {:induction false} GroupFragsBase(rows: seq<Row>, k: (string, string, string))
    ensures Get(GroupFrags(rows), k).Some? <==> FirstOfGroup(rows, k).Some?
    ensures Get(GroupFrags(rows), k).Some? ==> Get(GroupFrags(rows), k).value.base == FirstOfGroup(rows, k).value.(tname := k.2)
  {
    if rows != [] {
      var init := rows[..|rows| - 1];
      var x := rows[|rows| - 1];
      GroupFragsBase(init, k);
      var d := GroupFrags(init);
      var kx := FragKey(x);
      var g := Get(d, kx);
      if g.Some? {
        PutGet(d, kx, g.value.(values := g.value.values[ExtractFdNumber(x.tname) := x.value]), k);
      } else {
        PutGet(d, kx, Frags(map[ExtractFdNumber(x.tname) := x.value], x.(tname := kx.2)), k);
      }
    }
  }

  /** Each fragment of a group holds the last value given for its number in that group. */
  lemma {:induction false} GroupFragsValue(rows: seq<Row>, k: (string, string, string), n: nat)
    ensures FragValue(Get(GroupFrags(rows), k), n) == LastFrag(rows, k, n)
  {
    if rows != [] {
      var init := rows[..|rows| - 1];
      var x := rows[|rows| - 1];
      GroupFragsValue(init, k, n);
      var d := GroupFrags(init);
      var kx := FragKey(x);
      var fd := ExtractFdNumber(x.tname);
      var g := Get(d, kx);
      var f := if g.Some? then g.value.(values := g.value.values[fd := x.value])
               else Frags(map[fd := x.value], x.(tname := kx.2));
      assert GroupFrags(rows) == Put(d, kx, f);
      PutGet(d, kx, f, k);
      if kx == k {
        assert FragValue(Some(f), n) == if n == fd then Some(x.value) else FragValue(g, n);
      } else {
        assert LastFrag(rows, k, n) == LastFrag(init, k, n);
      }
    }
  }

  /** Each group appears once. */
  lemma {:induction false} GroupFragsDistinct(rows: seq<Row>)
    ensures DistinctKeys(GroupFrags(rows))
  {
    if rows != [] {
      var init := rows[..|rows| - 1];
      var x := rows[|rows| - 1];
      GroupFragsDistinct(init);
      var d := GroupFrags(init);
      var g := Get(d, FragKey(x));
      if g.Some? {
        PutShape(d, FragKey(x), g.value.(values := g.value.values[ExtractFdNumber(x.tname) := x.value]));
      } else {
        PutShape(d, FragKey(x), Frags(map[ExtractFdNumber(x.tname) := x.value], x.(tname := FragKey(x).2)));
      }
    }
  }

  /** `''.join(values[n] for n in order)` */
  function JoinFrags(values: map<nat, string>, order: seq<nat>): string
    requires forall n :: n in order ==> n in values
  {
    if order == [] then "" else values[order[0]] + JoinFrags(values, order[1..])
  }

  /** Where fragment `i` of `order` starts in the joined value. */
  function Offset(values: map<nat, string>, order: seq<nat>, i: nat): nat
    requires forall n :: n in order ==> n in values
    requires i <= |order|
  {
    if i == 0 then 0 else |values[order[0]]| + Offset(values, order[1..], i - 1)
  }

  /** Fragment `i` of `order` sits in `v` at its offset. */
  ghost predicate FragmentAt(v: string, values: map<nat, string>, order: seq<nat>, i: nat)
    requires forall n :: n in order ==> n in values
    requires i < |order|
  {
    var o := Offset(values, order, i);
    o + |values[order[i]]| <= |v| && v[o..o + |values[order[i]]|] == values[order[i]]
  }

  /** The joined value holds each fragment, in turn, at its offset, and nothing else. */
  lemma {:induction false} JoinFragsAt(values: map<nat, string>, order: seq<nat>, i: nat)
    requires forall n :: n in order ==> n in values
    requires i < |order|
    ensures |JoinFrags(values, order)| == Offset(values, order, |order|)
    ensures FragmentAt(JoinFrags(values, order), values, order, i)
  {
    JoinFragsLength(values, order);
    var head := values[order[0]];
    var rest := JoinFrags(values, order[1..]);
    assert JoinFrags(values, order) == head + rest;
    if i == 0 {
      assert (head + rest)[0..|head|] == head;
    } else {
      JoinFragsAt(values, order[1..], i - 1);
      FragmentShift(values, order, i);
    }
  }

  /** A fragment of the rest sits, in the whole, behind the first fragment. */
  lemma FragmentShift(values: map<nat, string>, order: seq<nat>, i: nat)
    requires forall n :: n in order ==> n in values
    requires 0 < i < |order|
    requires FragmentAt(JoinFrags(values, order[1..]), values, order[1..], i - 1)
    ensures FragmentAt(values[order[0]] + JoinFrags(values, order[1..]), values, order, i)
  {
    var head := values[order[0]];
    var rest := JoinFrags(values, order[1..]);
    assert order[1..][i - 1] == order[i];
    var o := Offset(values, order[1..], i - 1);
    assert (head + rest)[|head| + o..|head| + o + |values[order[i]]|] == rest[o..o + |values[order[i]]|];
  }

  /** The joined value is as long as all the fragments together. */
  lemma {:induction false} JoinFragsLength(values: map<nat, string>, order: seq<nat>)
    requires forall n :: n in order ==> n in values
    ensures |JoinFrags(values, order)| == Offset(values, order, |order|)
  {
    if order != [] {
      JoinFragsLength(values, order[1..]);
    }
  }

  /** `','.join(map(str, order))` */
  function NumberList(order: seq<nat>): string
  {
    Join(seq(|order|, i requires 0 <= i < |order| => DecimalString(order[i])), ",")
  }

  /** The output row of one group. */
  function FullRowOf(f: Frags): FullRow
  {
    var order := SortedNats(f.values.Keys);
    FullRow(f.base.(value := JoinFrags(f.values, order)), |f.values|, NumberList(order))
  }

  /** `create_fullstring_rows` */
  function FullstringRows(rows: seq<Row>): seq<FullRow>
  {
    var g := GroupFrags(rows);
    seq(|g|, i requires 0 <= i < |g| => FullRowOf(g[i].1))
  }

  /** A group's row counts its distinct fragment numbers and its value is exactly as long as
      its fragments together. */
  lemma FullRowShape(f: Frags)
    ensures FullRowOf(f).fdCount == |SortedNats(f.values.Keys)|
    ensures |FullRowOf(f).row.value| == Offset(f.values, SortedNats(f.values.Keys), |f.values|)
  {
    var order := SortedNats(f.values.Keys);
    assert |f.values.Keys| == |f.values|;
    if order != [] {
      JoinFragsAt(f.values, order, 0);
    }
  }

  /** A group's row holds its fragments in increasing fragment number: fragment `i` of that
      order sits at the offset the fragments before it leave. */
  lemma FullRowFragment(f: Frags, i: nat)
    requires i < |f.values|
    ensures i < |SortedNats(f.values.Keys)|
    ensures forall j :: 0 <= j < i ==> SortedNats(f.values.Keys)[j] < SortedNats(f.values.Keys)[i]
    ensures FragmentAt(FullRowOf(f).row.value, f.values, SortedNats(f.values.Keys), i)
  {
    var order := SortedNats(f.values.Keys);
    assert |f.values.Keys| == |f.values|;
    JoinFragsAt(f.values, order, i);
    assert FullRowOf(f).row.value == JoinFrags(f.values, order);
  }

  /** A test name with no `_fd<n>` suffix is fragment 0 of the group named after it; alone in
      its group, its value comes out unchanged, as one fragment numbered "0". */
  lemma UnsuffixedRow(x: Row)
    requires forall i: nat :: !FdSuffixAt(x.tname, i)
    ensures FragKey(x) == (x.visualid, x.ssid, x.tname)
    ensures FullRowOf(Frags(map[ExtractFdNumber(x.tname) := x.value], x)) == FullRow(x, 1, "0")
  {
    NoFdSuffix(x.tname);
    var values := map[0 := x.value];
    assert values.Keys == {0};
    assert SortedNats({0}) == [0] by {
      assert MinNat({0}) == 0;
      assert {0} - {0} == {};
    }
    assert DecimalString(0) == "0";
    assert JoinFrags(values, [0]) == x.value + "";
    assert x.(value := x.value) == x;
  }

  method GroupFragments(rows: seq<Row>) returns (groups: Dict<(string, string, string), Frags>)
    ensures groups == GroupFrags(rows)
  {
    groups := [];
    for i := 0 to |rows|
      invariant groups == GroupFrags(rows[..i])
    {
      assert rows[..i + 1][..i] == rows[..i];
      var tname := rows[i].tname;
      var baseTname := ExtractBaseTname(tname);
      var fdNumber := ExtractFdNumber(tname);
      var key := (rows[i].visualid, rows[i].ssid, baseTname);
      var g := Get(groups, key);
      if g.Some? {
        groups := Put(groups, key, g.value.(values := g.value.values[fdNumber := rows[i].value]));
      } else {
        groups := Put(groups, key, Frags(map[fdNumber := rows[i].value], rows[i].(tname := baseTname)));
      }
    }
    assert rows[..|rows|] == rows;
  }

  method CreateFullstringRows(rows: seq<Row>) returns (out: seq<FullRow>)
    ensures out == FullstringRows(rows)
  {
    var groups := GroupFragments(rows);
    out := FullRowsFor(groups);
  }

  /** The loop over the groups: one output row per group, in order. */
  method FullRowsFor(groups: Dict<(string, string, string), Frags>) returns (out: seq<FullRow>)
    ensures |out| == |groups|
    ensures forall j :: 0 <= j < |groups| ==> out[j] == FullRowOf(groups[j].1)
  {
    out := [];
    for i := 0 to |groups|
      invariant |out| == i
      invariant forall j :: 0 <= j < i ==> out[j] == FullRowOf(groups[j].1)
    {
      var row := FullRowFor(groups[i].1);
      out := out + [row];
    }
  }

  /** The body of the loop for one group: its fragments joined in fragment-number order. */
  method FullRowFor(f: Frags) returns (row: FullRow)
    ensures row == FullRowOf(f)
  {
    var sortedFdNumbers := SortedNats(f.values.Keys);
    var combined := JoinFrags(f.values, sortedFdNumbers);
    row := FullRow(f.base.(value := combined), |f.values|, NumberList(sortedFdNumbers));
  }

  // ---------------------------------------------------------------------------------------
  // The visual-id filter

  /** `set_visualid_filter`: no argument, a blank one or `*` lifts the filter; otherwise the
      filter is the set of the non-blank comma-separated ids, stripped. */
  function FilterFromArgument(arg: Option<string>): Option<set<string>>
  {
    if arg.None? || Strip(arg.value) == "" || Strip(arg.value) == "*" then None
    else Some(set p | p in Split(arg.value, ',') && Strip(p) != "" :: Strip(p))
  }

  /** The filter set holds exactly the stripped non-blank pieces of the argument. */
  lemma FilterFromArgumentSpec(arg: string, v: string)
    requires Strip(arg) != "" && Strip(arg) != "*"
    ensures FilterFromArgument(Some(arg)).Some?
    ensures v in FilterFromArgument(Some(arg)).value <==>
      v != "" && exists p :: p in Split(arg, ',') && Strip(p) == v
  {
  }

  /** `process_itf_files`: the units with a visual id, kept only when that id is in the filter,
      if the filter is set and non-empty. */
  function SelectUnits(units: seq<Unit>, filter: Option<set<string>>): seq<Unit>
  {
    if units == [] then []
    else
      var u := units[|units| - 1];
      var keep := VisualidOf(u).Some? && (filter.None? || filter.value == {} || VisualidOf(u).value in filter.value);
      SelectUnits(units[..|units| - 1], filter) + (if keep then [u] else [])
  }

  /** The selection keeps the order of the units and keeps a unit exactly when it has a visual
      id that the filter, if set and non-empty, contains. */
  lemma {:induction false} SelectUnitsSpec(units: seq<Unit>, filter: Option<set<string>>, u: Unit)
    ensures u in SelectUnits(units, filter) <==> (u in units && VisualidOf(u).Some? &&
      (filter.None? || filter.value == {} || VisualidOf(u).value in filter.value))
    ensures |SelectUnits(units, filter)| <= |units|
  {
    if units != [] {
      var init := units[..|units| - 1];
      SelectUnitsSpec(init, filter, u);
      assert units == init + [units[|units| - 1]];
    }
  }

  /** The ITF parser's state this model keeps: its visual-id filter. */
  class ItfParser {
    var visualidFilter: Option<set<string>>

    /** `_load_visualid_filter`: the configured list, when filtering is enabled and the list
        is not empty. */
    constructor(enabled: bool, filterList: seq<string>)
      ensures visualidFilter == if enabled && filterList != [] then Some(set v | v in filterList) else None
    {
      if enabled && filterList != [] {
        visualidFilter := Some(set v | v in filterList);
      } else {
        visualidFilter := None;
      }
    }

    method SetVisualidFilter(arg: Option<string>)
      modifies this
      ensures visualidFilter == FilterFromArgument(arg)
    {
      if arg.Some? && Strip(arg.value) != "" {
        if Strip(arg.value) == "*" {
          visualidFilter := None;
        } else {
          visualidFilter := Some(set p | p in Split(arg.value, ',') && Strip(p) != "" :: Strip(p));
        }
      } else {
        visualidFilter := None;
      }
    }

    /** The units `process_itf_files` passes on under the current filter. */
    function ValidUnits(units: seq<Unit>): seq<Unit>
      reads this
    {
      SelectUnits(units, visualidFilter)
    }
  }
}
