/** The monolith's `create_matched_csv`: the same combined rows and mismatch statistics as the
    package's matcher, but each token row is matched by scanning the fuse-definition rows in
    order instead of through indexes, stopping at the first row that matches both the register
    and the fuse. */
module MonolithMatch {
  import opened Text
  import opened Wrappers
  import opened CsvMatch
  import JsonParser

  // ---------------------------------------------------------------------------------------
  // One fuse-definition row against a stripped register and fuse name

  /** The keys a row is compared by; the monolith compares stripped fields. */
  datatype FuseKeys = FuseKeys(reg: FuseDefRow -> string, group: FuseDefRow -> string, name: FuseDefRow -> string)

  const Stripped := FuseKeys(RegisterKey, GroupKey, NameKey)

  /** `reg_match`: both non-empty and equal. */
  predicate RegisterHit(keys: FuseKeys, register: string, r: FuseDefRow)
  {
    register != "" && register == keys.reg(r)
  }

  /** `group_match` */
  predicate GroupHit(keys: FuseKeys, name: string, r: FuseDefRow)
  {
    name != "" && name == keys.group(r)
  }

  /** `name_match` */
  predicate NameHit(keys: FuseKeys, name: string, r: FuseDefRow)
  {
    name != "" && name == keys.name(r)
  }

  /** A fuse hit: the fuse name is the row's group or its name. */
  predicate FuseHit(keys: FuseKeys, name: string, r: FuseDefRow)
  {
    GroupHit(keys, name, r) || NameHit(keys, name, r)
  }

  /** The row that ends the scan: register and fuse both match. */
  predicate Stops(keys: FuseKeys, register: string, name: string, r: FuseDefRow)
  {
    RegisterHit(keys, register, r) && FuseHit(keys, name, r)
  }

  /** The scan's state after one more row: the register row is kept once found, the match flags
      once set stay set, and every fuse hit replaces the fuse row. */
  function ScanStep(keys: FuseKeys, m: Matched, r: FuseDefRow): Matched
  {
    m.(registerRow := if RegisterHit(keys, m.register, r) && m.registerRow.None? then Some(r) else m.registerRow,
       groupMatch := m.groupMatch || GroupHit(keys, m.name, r),
       nameMatch := m.nameMatch || NameHit(keys, m.name, r),
       fuseRow := if FuseHit(keys, m.name, r) then Some(r) else m.fuseRow)
  }

  /** The scan of the rows in turn, without stopping. */
  function Scan(keys: FuseKeys, register: string, name: string, rows: seq<FuseDefRow>): Matched
  {
    if rows == [] then Matched(register, name, None, false, false, None)
    else ScanStep(keys, Scan(keys, register, name, rows[..|rows| - 1]), rows[|rows| - 1])
  }

  /** The index of the first row that stops the scan, or the number of rows. */
  function StopAt(keys: FuseKeys, register: string, name: string, rows: seq<FuseDefRow>): (s: nat)
    ensures s <= |rows|
    ensures s < |rows| ==> Stops(keys, register, name, rows[s])
    ensures forall j :: 0 <= j < s ==> !Stops(keys, register, name, rows[j])
  {
    if rows == [] then 0
    else if Stops(keys, register, name, rows[0]) then 0
    else
      var s := StopAt(keys, register, name, rows[1..]);
      assert forall j :: 1 <= j < s + 1 ==> rows[j] == rows[1..][j - 1];
      1 + s
  }

  /** The rows the scan reads: up to and including the one that stops it. */
  function Scanned(keys: FuseKeys, register: string, name: string, rows: seq<FuseDefRow>): seq<FuseDefRow>
  {
    var s := StopAt(keys, register, name, rows);
    if s < |rows| then rows[..s + 1] else rows
  }

  /** The outcome of the nested-loop match. */
  function NestedMatch(keys: FuseKeys, register: string, name: string, rows: seq<FuseDefRow>): Matched
  {
    Scan(keys, register, name, Scanned(keys, register, name, rows))
  }

  function NestedMatcher(rows: seq<FuseDefRow>): XmlRow -> Matched
  {
    (x: XmlRow) => NestedMatch(Stripped, Strip(x.fuseRegister), Strip(x.fuseName), rows)
  }

  /** What `create_matched_csv` computes: the package's report with the nested-loop matcher. */
  function NestedReport(xmlData: seq<XmlRow>, jsonData: seq<FuseDefRow>): MatchReport
  {
    Report(xmlData, NestedMatcher(jsonData))
  }

  // ---------------------------------------------------------------------------------------
  // What the scan finds

  lemma ScanNext(keys: FuseKeys, register: string, name: string, rows: seq<FuseDefRow>, j: nat)
    requires j < |rows|
    ensures Scan(keys, register, name, rows[..j + 1]) == ScanStep(keys, Scan(keys, register, name, rows[..j]), rows[j])
  {
    assert rows[..j + 1][..j] == rows[..j];
  }

  /** The scan keeps the register and fuse name, and its register row is the first row whose
      register matches; there is one iff some row's register matches. */
  lemma {:induction false} ScanRegister(keys: FuseKeys, register: string, name: string, rows: seq<FuseDefRow>)
    ensures Scan(keys, register, name, rows).register == register && Scan(keys, register, name, rows).name == name
    ensures Scan(keys, register, name, rows).registerRow.Some? <==> exists i :: 0 <= i < |rows| && RegisterHit(keys, register, rows[i])
    ensures Scan(keys, register, name, rows).registerRow.Some? ==>
      exists i :: 0 <= i < |rows| && RegisterHit(keys, register, rows[i]) &&
        Scan(keys, register, name, rows).registerRow.value == rows[i] &&
        forall j :: 0 <= j < i ==> !RegisterHit(keys, register, rows[j])
  {
    if rows != [] {
      var n := |rows| - 1;
      ScanRegister(keys, register, name, rows[..n]);
      assert forall i :: 0 <= i < n ==> rows[..n][i] == rows[i];
    }
  }

  /** The group and name flags are set iff some row is a group or a name hit; the fuse row is
      the last fuse hit, and there is one iff some row is a fuse hit. */
  lemma ScanFuse(keys: FuseKeys, register: string, name: string, rows: seq<FuseDefRow>)
    ensures Scan(keys, register, name, rows).groupMatch <==> exists i :: 0 <= i < |rows| && GroupHit(keys, name, rows[i])
    ensures Scan(keys, register, name, rows).nameMatch <==> exists i :: 0 <= i < |rows| && NameHit(keys, name, rows[i])
    ensures Scan(keys, register, name, rows).fuseRow.Some? <==> exists i :: 0 <= i < |rows| && FuseHit(keys, name, rows[i])
    ensures Scan(keys, register, name, rows).fuseRow.Some? ==>
      exists i :: 0 <= i < |rows| && FuseHit(keys, name, rows[i]) &&
        Scan(keys, register, name, rows).fuseRow.value == rows[i] &&
        forall j :: i < j < |rows| ==> !FuseHit(keys, name, rows[j])
  {
    ScanFlags(keys, register, name, rows);
    ScanFuseRow(keys, register, name, rows);
  }

  lemma {:induction false} ScanFlags(keys: FuseKeys, register: string, name: string, rows: seq<FuseDefRow>)
    ensures Scan(keys, register, name, rows).groupMatch <==> exists i :: 0 <= i < |rows| && GroupHit(keys, name, rows[i])
    ensures Scan(keys, register, name, rows).nameMatch <==> exists i :: 0 <= i < |rows| && NameHit(keys, name, rows[i])
  {
    if rows != [] {
      var n := |rows| - 1;
      ScanFlags(keys, register, name, rows[..n]);
      ScanRegister(keys, register, name, rows[..n]);
      assert forall i :: 0 <= i < n ==> rows[..n][i] == rows[i];
    }
  }

  lemma {:induction false} ScanFuseRow(keys: FuseKeys, register: string, name: string, rows: seq<FuseDefRow>)
    ensures Scan(keys, register, name, rows).fuseRow.Some? <==> exists i :: 0 <= i < |rows| && FuseHit(keys, name, rows[i])
    ensures Scan(keys, register, name, rows).fuseRow.Some? ==>
      exists i :: 0 <= i < |rows| && FuseHit(keys, name, rows[i]) &&
        Scan(keys, register, name, rows).fuseRow.value == rows[i] &&
        forall j :: i < j < |rows| ==> !FuseHit(keys, name, rows[j])
  {
    if rows != [] {
      var n := |rows| - 1;
      var front := rows[..n];
      ScanFuseRow(keys, register, name, front);
      ScanRegister(keys, register, name, front);
      assert forall i :: 0 <= i < n ==> front[i] == rows[i];
      if !FuseHit(keys, name, rows[n]) && Scan(keys, register, name, front).fuseRow.Some? {
        var i :| 0 <= i < n && FuseHit(keys, name, front[i]) &&
          Scan(keys, register, name, front).fuseRow.value == front[i] &&
          forall j :: i < j < n ==> !FuseHit(keys, name, front[j]);
        assert FuseHit(keys, name, rows[i]) && forall j :: i < j < |rows| ==> !FuseHit(keys, name, rows[j]);
      }
    }
  }

  /** The nested-loop match: the register row is the first row of all whose register matches,
      found iff there is one, even when the scan stops early; the flags and the fuse row (the
      last fuse hit) only see the rows up to the first one matching both. */
  lemma NestedMatchSpec(keys: FuseKeys, register: string, name: string, rows: seq<FuseDefRow>)
    ensures var m := NestedMatch(keys, register, name, rows);
      m.register == register && m.name == name &&
      (m.registerRow.Some? <==> exists i :: 0 <= i < |rows| && RegisterHit(keys, register, rows[i])) &&
      (m.registerRow.Some? ==>
        exists i :: 0 <= i < |rows| && RegisterHit(keys, register, rows[i]) && m.registerRow.value == rows[i] &&
          forall j :: 0 <= j < i ==> !RegisterHit(keys, register, rows[j]))
    ensures var m := NestedMatch(keys, register, name, rows);
      var seen := Scanned(keys, register, name, rows);
      (m.groupMatch <==> exists i :: 0 <= i < |seen| && GroupHit(keys, name, seen[i])) &&
      (m.nameMatch <==> exists i :: 0 <= i < |seen| && NameHit(keys, name, seen[i])) &&
      (m.fuseRow.Some? ==>
        exists i :: 0 <= i < |seen| && FuseHit(keys, name, seen[i]) && m.fuseRow.value == seen[i] &&
          forall j :: i < j < |seen| ==> !FuseHit(keys, name, seen[j]))
  {
    NestedRegisterSpec(keys, register, name, rows);
    NestedFlagsSpec(keys, register, name, rows);
  }

  lemma NestedRegisterSpec(keys: FuseKeys, register: string, name: string, rows: seq<FuseDefRow>)
    ensures var m := NestedMatch(keys, register, name, rows);
      m.register == register && m.name == name &&
      (m.registerRow.Some? <==> exists i :: 0 <= i < |rows| && RegisterHit(keys, register, rows[i])) &&
      (m.registerRow.Some? ==>
        exists i :: 0 <= i < |rows| && RegisterHit(keys, register, rows[i]) && m.registerRow.value == rows[i] &&
          forall j :: 0 <= j < i ==> !RegisterHit(keys, register, rows[j]))
  {
    var seen := Scanned(keys, register, name, rows);
    var s := StopAt(keys, register, name, rows);
    assert forall i :: 0 <= i < |seen| ==> seen[i] == rows[i];
    ScanRegister(keys, register, name, seen);
    if exists i :: 0 <= i < |rows| && RegisterHit(keys, register, rows[i]) {
      var i :| 0 <= i < |rows| && RegisterHit(keys, register, rows[i]);
      if i >= |seen| {
        assert RegisterHit(keys, register, seen[s]);
      }
    }
  }

  lemma NestedFlagsSpec(keys: FuseKeys, register: string, name: string, rows: seq<FuseDefRow>)
    ensures var m := NestedMatch(keys, register, name, rows);
      var seen := Scanned(keys, register, name, rows);
      (m.groupMatch <==> exists i :: 0 <= i < |seen| && GroupHit(keys, name, seen[i])) &&
      (m.nameMatch <==> exists i :: 0 <= i < |seen| && NameHit(keys, name, seen[i])) &&
      (m.fuseRow.Some? ==>
        exists i :: 0 <= i < |seen| && FuseHit(keys, name, seen[i]) && m.fuseRow.value == seen[i] &&
          forall j :: i < j < |seen| ==> !FuseHit(keys, name, seen[j]))
  {
    ScanFuse(keys, register, name, Scanned(keys, register, name, rows));
  }

  /** The scan stops at the first row matching both register and fuse: no earlier row does, and
      the rows after it are not read. */
  lemma ScanStops(keys: FuseKeys, register: string, name: string, rows: seq<FuseDefRow>)
    ensures var seen := Scanned(keys, register, name, rows);
      seen <= rows &&
      (forall j :: 0 <= j < |seen| - 1 ==> !Stops(keys, register, name, seen[j])) &&
      (|seen| < |rows| ==> seen != [] && Stops(keys, register, name, seen[|seen| - 1]))
  {
  }

  /** The package's three indexes, built with the given keys. */
  function KeyedIndexes(keys: FuseKeys, rows: seq<FuseDefRow>): Indexes
  {
    Indexes(FirstIndex(rows, keys.reg), LastIndex(rows, keys.group), LastIndex(rows, keys.name))
  }

  /** Against the package's index matcher: the register row is always the same. */
  lemma NestedRegisterAgainstIndexes(keys: FuseKeys, register: string, name: string, rows: seq<FuseDefRow>)
    ensures var n := NestedMatch(keys, register, name, rows);
      var k := MatchKeys(register, name, KeyedIndexes(keys, rows));
      n.register == k.register && n.name == k.name && n.registerRow == k.registerRow
  {
    var n := NestedMatch(keys, register, name, rows);
    NestedMatchSpec(keys, register, name, rows);
    FirstIndexSpec(rows, keys.reg, register);
    if n.registerRow.Some? {
      var i :| 0 <= i < |rows| && RegisterHit(keys, register, rows[i]) && n.registerRow.value == rows[i] &&
        forall j :: 0 <= j < i ==> !RegisterHit(keys, register, rows[j]);
      var i' :| 0 <= i' < |rows| && keys.reg(rows[i']) == register && FirstIndex(rows, keys.reg)[register] == rows[i'] &&
        forall j :: 0 <= j < i' ==> keys.reg(rows[j]) != register;
      assert i == i';
    }
  }

  /** Against the package's index matcher: a flag the scan sets the indexes set too, and when
      no row matches both register and fuse the flags agree and both find a fuse row or
      neither does. */
  lemma NestedFlagsAgainstIndexes(keys: FuseKeys, register: string, name: string, rows: seq<FuseDefRow>)
    ensures var n := NestedMatch(keys, register, name, rows);
      var k := MatchKeys(register, name, KeyedIndexes(keys, rows));
      (n.groupMatch ==> k.groupMatch) && (n.nameMatch ==> k.nameMatch) &&
      (StopAt(keys, register, name, rows) == |rows| ==>
        n.groupMatch == k.groupMatch && n.nameMatch == k.nameMatch && n.fuseRow.Some? == k.fuseRow.Some?)
  {
    var seen := Scanned(keys, register, name, rows);
    assert forall i :: 0 <= i < |seen| ==> seen[i] == rows[i];
    ScanFuse(keys, register, name, seen);
    LastIndexSpec(rows, keys.group, name);
    LastIndexSpec(rows, keys.name, name);
  }

  /** The monolith's match against the package's, both on stripped fields. */
  lemma NestedAgainstPackage(register: string, name: string, rows: seq<FuseDefRow>)
    ensures var n := NestedMatch(Stripped, register, name, rows);
      var k := MatchKeys(register, name, IndexesOf(rows));
      n.register == k.register && n.name == k.name && n.registerRow == k.registerRow &&
      (n.groupMatch ==> k.groupMatch) && (n.nameMatch ==> k.nameMatch) &&
      (StopAt(Stripped, register, name, rows) == |rows| ==>
        n.groupMatch == k.groupMatch && n.nameMatch == k.nameMatch && n.fuseRow.Some? == k.fuseRow.Some?)
  {
    NestedRegisterAgainstIndexes(Stripped, register, name, rows);
    NestedFlagsAgainstIndexes(Stripped, register, name, rows);
    assert IndexesOf(rows) == KeyedIndexes(Stripped, rows);
  }

  // ---------------------------------------------------------------------------------------
  // The matching loop

  /** The lookup for one token row: its stripped register and fuse name, then the inner loop;
      a match status is `true` for "match". */
  method NestedLookup(xmlRow: XmlRow, jsonData: seq<FuseDefRow>)
    returns (xmlFuseRegister: string, xmlFuseName: string, registerMatch: bool, fusegroupMatch: bool,
             fusenameMatch: bool, matchedForRegister: Option<FuseDefRow>, matchedForFuse: Option<FuseDefRow>)
    ensures NestedMatch(Stripped, Strip(xmlRow.fuseRegister), Strip(xmlRow.fuseName), jsonData) ==
      Matched(xmlFuseRegister, xmlFuseName, matchedForRegister, fusegroupMatch, fusenameMatch, matchedForFuse)
    ensures registerMatch == matchedForRegister.Some?
  {
    xmlFuseRegister := Strip(xmlRow.fuseRegister);
    xmlFuseName := Strip(xmlRow.fuseName);
    registerMatch, fusegroupMatch, fusenameMatch, matchedForRegister, matchedForFuse :=
      ScanRows(xmlFuseRegister, xmlFuseName, jsonData);
  }

  /** The inner loop over the fuse-definition rows, up to the first row matching both. */
  method ScanRows(xmlFuseRegister: string, xmlFuseName: string, jsonData: seq<FuseDefRow>)
    returns (registerMatch: bool, fusegroupMatch: bool, fusenameMatch: bool,
             matchedForRegister: Option<FuseDefRow>, matchedForFuse: Option<FuseDefRow>)
    ensures NestedMatch(Stripped, xmlFuseRegister, xmlFuseName, jsonData) ==
      Matched(xmlFuseRegister, xmlFuseName, matchedForRegister, fusegroupMatch, fusenameMatch, matchedForFuse)
    ensures registerMatch == matchedForRegister.Some?
  {
    registerMatch, fusegroupMatch, fusenameMatch := false, false, false;
    matchedForRegister, matchedForFuse := None, None;
    ghost var stop := StopAt(Stripped, xmlFuseRegister, xmlFuseName, jsonData);
    var j := 0;
    while j < |jsonData|
      invariant j <= stop
      invariant Scan(Stripped, xmlFuseRegister, xmlFuseName, jsonData[..j]) ==
        Matched(xmlFuseRegister, xmlFuseName, matchedForRegister, fusegroupMatch, fusenameMatch, matchedForFuse)
      invariant registerMatch == matchedForRegister.Some?
    {
      ScanNext(Stripped, xmlFuseRegister, xmlFuseName, jsonData, j);
      var stops;
      registerMatch, fusegroupMatch, fusenameMatch, matchedForRegister, matchedForFuse, stops :=
        ScanOne(xmlFuseRegister, xmlFuseName, registerMatch, fusegroupMatch, fusenameMatch,
                matchedForRegister, matchedForFuse, jsonData[j]);
      if stops {
        assert stop == j;
        assert Scanned(Stripped, xmlFuseRegister, xmlFuseName, jsonData) == jsonData[..j + 1];
        return;
      }
      assert j != stop;
      j := j + 1;
    }
    assert jsonData[..j] == jsonData;
  }

  /** One fuse-definition row of the inner loop: its comparisons, the updated statuses and
      rows, and whether the loop breaks here. */
  method ScanOne(xmlFuseRegister: string, xmlFuseName: string, registerMatch: bool, fusegroupMatch: bool,
                 fusenameMatch: bool, matchedForRegister: Option<FuseDefRow>, matchedForFuse: Option<FuseDefRow>,
                 jsonRow: FuseDefRow)
    returns (registerMatch': bool, fusegroupMatch': bool, fusenameMatch': bool,
             matchedForRegister': Option<FuseDefRow>, matchedForFuse': Option<FuseDefRow>, stops: bool)
    requires registerMatch == matchedForRegister.Some?
    ensures registerMatch' == matchedForRegister'.Some?
    ensures Matched(xmlFuseRegister, xmlFuseName, matchedForRegister', fusegroupMatch', fusenameMatch', matchedForFuse') ==
      ScanStep(Stripped, Matched(xmlFuseRegister, xmlFuseName, matchedForRegister, fusegroupMatch, fusenameMatch,
                                 matchedForFuse), jsonRow)
    ensures stops == Stops(Stripped, xmlFuseRegister, xmlFuseName, jsonRow)
  {
    registerMatch', fusegroupMatch', fusenameMatch' := registerMatch, fusegroupMatch, fusenameMatch;
    matchedForRegister', matchedForFuse' := matchedForRegister, matchedForFuse;
    var regMatch, groupMatch, nameMatch := RowMatches(xmlFuseRegister, xmlFuseName, jsonRow);
    if regMatch {
      registerMatch' := true;
      if matchedForRegister'.None? {
        matchedForRegister' := Some(jsonRow);
      }
    }
    if groupMatch {
      fusegroupMatch' := true;
      matchedForFuse' := Some(jsonRow);
    }
    if nameMatch {
      fusenameMatch' := true;
      matchedForFuse' := Some(jsonRow);
    }
    stops := regMatch && (groupMatch || nameMatch);
  }

  /** The three comparisons of one fuse-definition row, on its stripped fields. */
  method RowMatches(xmlFuseRegister: string, xmlFuseName: string, jsonRow: FuseDefRow)
    returns (regMatch: bool, groupMatch: bool, nameMatch: bool)
    ensures regMatch == RegisterHit(Stripped, xmlFuseRegister, jsonRow)
    ensures groupMatch == GroupHit(Stripped, xmlFuseName, jsonRow)
    ensures nameMatch == NameHit(Stripped, xmlFuseName, jsonRow)
  {
    var jsonRegisterName := Strip(jsonRow.registerName);
    var jsonFusegroupName := Strip(jsonRow.fuseGroupName);
    var jsonFuseName := Strip(jsonRow.fuseName);
    assert jsonRegisterName == Stripped.reg(jsonRow) && jsonFusegroupName == Stripped.group(jsonRow) &&
      jsonFuseName == Stripped.name(jsonRow);
    regMatch := if xmlFuseRegister != "" && jsonRegisterName != "" then xmlFuseRegister == jsonRegisterName else false;
    groupMatch := if xmlFuseName != "" && jsonFusegroupName != "" then xmlFuseName == jsonFusegroupName else false;
    nameMatch := if xmlFuseName != "" && jsonFuseName != "" then xmlFuseName == jsonFuseName else false;
  }

  /** `create_matched_csv` without its printing and writing: the combined rows it returns and
      the statistics it prints. */
  method CreateMatchedCsvNested(xmlData: seq<XmlRow>, jsonData: seq<FuseDefRow>)
    returns (combined: seq<CombinedRow>, report: MatchReport)
    ensures report == NestedReport(xmlData, jsonData)
    ensures combined == report.combined
  {
    report := EmptyReport;
    for i := 0 to |xmlData|
      invariant report == Report(xmlData[..i], NestedMatcher(jsonData))
    {
      ReportNext(xmlData, NestedMatcher(jsonData), i);
      var xmlRow := xmlData[i];
      var xmlFuseRegister, xmlFuseName, registerMatch, fusegroupMatch, fusenameMatch, matchedForRegister, matchedForFuse :=
        NestedLookup(xmlRow, jsonData);
      report := RecordOne(report, xmlRow, xmlFuseRegister, xmlFuseName, registerMatch, fusegroupMatch, fusenameMatch,
                          matchedForRegister, matchedForFuse);
    }
    assert xmlData[..|xmlData|] == xmlData;
    combined := report.combined;
  }
}
