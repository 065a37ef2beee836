/** The monolith's DFF/MTL/OLF check: `create_lookup_tables` over the entries of its UBE parser,
    and the per-token field extraction and `-999` validation of `create_dff_mtl_olf_check_csv`.
    The tables reuse the keyed-index folds of the package's check; the keys, the fallback and the
    field index are the monolith's own. */
module MonolithDff {
  import opened Text
  import opened Wrappers
  import opened Ordering
  import opened CsvDffCheck
  import MonolithUbe

  // ---------------------------------------------------------------------------------------
  // Lookup tables

  /** `ube_row.get('MDPOSITION', '')`, which is Python's `None` for a `WFR` entry read before any
      `MDPOSITION=` of its unit, read as the empty string. */
  function MdText(md: Option<string>): string
  {
    if md.Some? then md.value else ""
  }

  /** The stripped fields of an entry, as the corrected `create_lookup_tables` reads them. */
  function LookupRow(e: MonolithUbe.UbeEntry): UbeRow
  {
    UbeRow(Strip(e.tokenName), Strip(e.tokenValue), Strip(e.refLevel), Strip(e.visualId), Strip(MdText(e.mdposition)))
  }

  /** The stripped fields as the source reads them: `None.strip()` raises, so an entry without
      an MDPOSITION has no row. */
  function LookupRowAsWritten(e: MonolithUbe.UbeEntry): Option<UbeRow>
  {
    if e.mdposition.None? then None
    else Some(UbeRow(Strip(e.tokenName), Strip(e.tokenValue), Strip(e.refLevel), Strip(e.visualId), Strip(e.mdposition.value)))
  }

  function LookupRows(ubeData: seq<MonolithUbe.UbeEntry>): (rows: seq<UbeRow>)
    ensures |rows| == |ubeData|
  {
    if ubeData == [] then [] else LookupRows(ubeData[..|ubeData| - 1]) + [LookupRow(ubeData[|ubeData| - 1])]
  }

  /** The WFR key of the monolith: the level must be exactly `WFR` and the MDPOSITION non-empty. */
  function MonolithWfrKey(r: UbeRow): Option<string>
  {
    if r.refLevel == "WFR" && r.mdposition != "" then Some(r.tokenName + "|WFR|" + r.mdposition) else None
  }

  /** The two tables and the visual ids of `create_lookup_tables`. */
  datatype LookupTables = LookupTables(ubeLookup: Table, ubeWfrLookup: Table, visualIds: set<string>)

  function TablesOf(rows: seq<UbeRow>): LookupTables
  {
    LookupTables(NestedIndex(rows, PrimaryKey), NestedIndex(rows, MonolithWfrKey), VisualIds(rows))
  }

  /** The corrected `create_lookup_tables`. */
  function Tables(ubeData: seq<MonolithUbe.UbeEntry>): LookupTables
  {
    TablesOf(LookupRows(ubeData))
  }

  /** `create_lookup_tables` as written: it raises on the first entry without an MDPOSITION. */
  function TablesAsWritten(ubeData: seq<MonolithUbe.UbeEntry>): Option<LookupTables>
  {
    if exists i :: 0 <= i < |ubeData| && LookupRowAsWritten(ubeData[i]).None? then None
    else Some(Tables(ubeData))
  }

  /** Where every entry has an MDPOSITION, the source and the correction build the same tables. */
  lemma AsWrittenAgrees(ubeData: seq<MonolithUbe.UbeEntry>)
    ensures (forall i :: 0 <= i < |ubeData| ==> ubeData[i].mdposition.Some?) <==> TablesAsWritten(ubeData) == Some(Tables(ubeData))
    ensures (forall i :: 0 <= i < |ubeData| ==> ubeData[i].mdposition.Some?) ==>
      forall i :: 0 <= i < |ubeData| ==> LookupRowAsWritten(ubeData[i]) == Some(LookupRow(ubeData[i]))
  {
  }

  /** The MDPOSITION bucket one entry adds to in the corrected `print_ube_statistics_optimized`:
      the stripped MDPOSITION, or `No MDPOSITION` when it is missing or blank. */
  function StatsBucket(e: MonolithUbe.UbeEntry): string
  {
    var md := Strip(MdText(e.mdposition));
    if md != "" then md else "No MDPOSITION"
  }

  /** The MDPOSITION buckets of `print_ube_statistics_optimized`, one per entry, corrected. */
  function StatsBuckets(ubeData: seq<MonolithUbe.UbeEntry>): (r: seq<string>)
    ensures |r| == |ubeData|
  {
    seq(|ubeData|, i requires 0 <= i < |ubeData| => StatsBucket(ubeData[i]))
  }

  /** The same pass as written: `entry.get('MDPOSITION', '').strip()` raises on the first entry
      whose MDPOSITION is `None`, before any bucket is printed. */
  function StatsBucketsAsWritten(ubeData: seq<MonolithUbe.UbeEntry>): Option<seq<string>>
  {
    if exists i :: 0 <= i < |ubeData| && ubeData[i].mdposition.None? then None
    else Some(StatsBuckets(ubeData))
  }

  /** The statistics pass raises exactly on the inputs on which `create_lookup_tables` raises,
      and otherwise counts each entry under its stripped MDPOSITION, a blank one under
      `No MDPOSITION`. Since `main` prints the statistics before it builds the tables, every
      input that reaches the raise in the tables stops the run at the statistics. */
  lemma StatisticsRaiseFirst(ubeData: seq<MonolithUbe.UbeEntry>)
    ensures StatsBucketsAsWritten(ubeData).None? <==> TablesAsWritten(ubeData).None?
    ensures StatsBucketsAsWritten(ubeData).Some? ==>
      forall i :: 0 <= i < |ubeData| ==>
        StatsBucketsAsWritten(ubeData).value[i] ==
          (if Strip(ubeData[i].mdposition.value) != "" then Strip(ubeData[i].mdposition.value) else "No MDPOSITION")
  {
    if TablesAsWritten(ubeData).None? {
      var i :| 0 <= i < |ubeData| && LookupRowAsWritten(ubeData[i]).None?;
      assert ubeData[i].mdposition.None?;
    }
    if StatsBucketsAsWritten(ubeData).None? {
      var i :| 0 <= i < |ubeData| && ubeData[i].mdposition.None?;
      assert LookupRowAsWritten(ubeData[i]).None?;
    }
  }

  /** On the entry `WfrEntry` the statistics pass raises, where the correction counts it under
      `No MDPOSITION`. */
  lemma StatisticsRaiseOnWfrEntry()
    ensures StatsBucketsAsWritten([WfrEntry]) == None
    ensures StatsBuckets([WfrEntry]) == ["No MDPOSITION"]
  {
    var ubeData := [WfrEntry];
    assert ubeData[0].mdposition.None?;
    StripKeepsUnspaced("");
    assert StatsBucket(WfrEntry) == "No MDPOSITION";
  }

  /** The parser gives a `WFR` entry no MDPOSITION when its line has none and comes after a
      `UNIT,` line with no header and no `MDPOSITION=` in between. */
  lemma WfrEntryWithoutMdposition(lines: seq<string>, u: nat, j: nat, e: MonolithUbe.UbeEntry)
    requires u < j < |lines|
    requires MonolithUbe.KindOf(lines[u]) == MonolithUbe.UnitLine
    requires forall k :: u < k < j ==> !MonolithUbe.MdEvent(MonolithUbe.Ube, lines[k])
    requires MonolithUbe.MdSearch(lines[j]).None?
    requires e in MonolithUbe.Emitted(MonolithUbe.StateAfter(lines[..j], MonolithUbe.Ube), lines[j])
    requires e.refLevel == "WFR"
    ensures e.mdposition == None
    ensures LookupRowAsWritten(e) == None
  {
    NoMdpositionSinceUnit(lines, u, j);
    MonolithUbe.EmittedFields(MonolithUbe.StateAfter(lines[..j], MonolithUbe.Ube), lines[j], e);
  }

  /** After a `UNIT,` line with no header and no `MDPOSITION=` since, the parser holds no
      MDPOSITION. */
  lemma NoMdpositionSinceUnit(lines: seq<string>, u: nat, j: nat)
    requires u < j <= |lines|
    requires MonolithUbe.KindOf(lines[u]) == MonolithUbe.UnitLine
    requires forall k :: u < k < j ==> !MonolithUbe.MdEvent(MonolithUbe.Ube, lines[k])
    ensures MonolithUbe.StateAfter(lines[..j], MonolithUbe.Ube).mdposition == None
  {
    var before := lines[..j];
    assert MonolithUbe.LastMdEvent(before, MonolithUbe.Ube, u) by {
      assert before[u] == lines[u];
      forall k | u < k < |before| ensures !MonolithUbe.MdEvent(MonolithUbe.Ube, before[k]) {
        assert before[k] == lines[k];
      }
    }
    MonolithUbe.MdpositionSpec(before, MonolithUbe.Ube);
  }

  /** The entry of the UBE file `UNIT,U1` / `WFR,1,T=5`: token `T` with value `5` at the level
      `WFR`, before any `MDPOSITION=`. */
  const WfrEntry := MonolithUbe.UbeEntry("U1", "N/A", "WFR", "1", "T", "5", None)

  /** On that entry the source raises, where the correction files the value under `T|WFR` and
      leaves the WFR table empty. */
  lemma WfrBeforeMdpositionRaises()
    ensures TablesAsWritten([WfrEntry]) == None
    ensures Tables([WfrEntry]) == LookupTables(map["T|WFR" := map["U1" := "5"]], map[], {"U1"})
  {
    var ubeData := [WfrEntry];
    assert LookupRowAsWritten(ubeData[0]).None?;
    StripKeepsUnspaced("");
    StripKeepsUnspaced("T");
    StripKeepsUnspaced("5");
    StripKeepsUnspaced("WFR");
    StripKeepsUnspaced("U1");
    var row := UbeRow("T", "5", "WFR", "U1", "");
    assert LookupRow(ubeData[0]) == row;
    assert ubeData[..0] == [];
    assert LookupRows(ubeData) == [row];
    assert [row][..0] == [];
    assert "T" + "|" + "WFR" == "T|WFR";
    assert NestedIndex([row][..0], PrimaryKey) == map[];
    assert Entry(map[], "T|WFR") == map[];
    assert NestedIndex([row], PrimaryKey) == map["T|WFR" := map["U1" := "5"]];
    assert NestedIndex([row], MonolithWfrKey) == map[];
    assert VisualIds([row]) == {"U1"};
  }

  lemma LookupRowsNext(ubeData: seq<MonolithUbe.UbeEntry>, k: nat)
    requires k < |ubeData|
    ensures LookupRows(ubeData[..k + 1]) == LookupRows(ubeData[..k]) + [LookupRow(ubeData[k])]
    ensures LookupRows(ubeData[..k + 1])[..k] == LookupRows(ubeData[..k])
  {
    assert ubeData[..k + 1][..k] == ubeData[..k];
  }

  /** The keys of the WFR table: token and MDPOSITION of entries at the level `WFR` exactly with a
      non-empty MDPOSITION. */
  lemma MonolithWfrKeys(rows: seq<UbeRow>, key: string)
    ensures key in NestedIndex(rows, MonolithWfrKey) <==>
      exists i :: 0 <= i < |rows| && rows[i].refLevel == "WFR" && rows[i].mdposition != "" &&
        key == rows[i].tokenName + "|WFR|" + rows[i].mdposition
  {
    NestedIndexKeys(rows, MonolithWfrKey, key);
    if key in NestedIndex(rows, MonolithWfrKey) {
      var i :| 0 <= i < |rows| && MonolithWfrKey(rows[i]) == Some(key);
      assert rows[i].refLevel == "WFR";
    } else {
      forall i | 0 <= i < |rows| && rows[i].refLevel == "WFR" && rows[i].mdposition != ""
        ensures key != rows[i].tokenName + "|WFR|" + rows[i].mdposition
      {
        assert MonolithWfrKey(rows[i]) == Some(rows[i].tokenName + "|WFR|" + rows[i].mdposition);
      }
    }
  }

  /** `sorted(visual_ids_set)` */
  ghost predicate SortedListOf(vs: seq<string>, s: set<string>)
  {
    StrictlySorted(vs) && forall x :: x in vs <==> x in s
  }

  /** The corrected `create_lookup_tables`. */
  method CreateLookupTables(ubeData: seq<MonolithUbe.UbeEntry>) returns (ubeLookup: Table, ubeWfrLookup: Table, visualIds: seq<string>)
    ensures ubeLookup == Tables(ubeData).ubeLookup
    ensures ubeWfrLookup == Tables(ubeData).ubeWfrLookup
    ensures SortedListOf(visualIds, Tables(ubeData).visualIds)
  {
    ubeLookup := map[];
    ubeWfrLookup := map[];
    var visualIdsSet: set<string> := {};
    for k := 0 to |ubeData|
      invariant ubeLookup == NestedIndex(LookupRows(ubeData[..k]), PrimaryKey)
      invariant ubeWfrLookup == NestedIndex(LookupRows(ubeData[..k]), MonolithWfrKey)
      invariant visualIdsSet == VisualIds(LookupRows(ubeData[..k]))
    {
      ubeLookup, ubeWfrLookup, visualIdsSet := AddUbeRow(ubeData, k, ubeLookup, ubeWfrLookup, visualIdsSet);
    }
    assert ubeData[..|ubeData|] == ubeData;
    visualIds := SortedStrings(visualIdsSet);
  }

  /** The body of the loop of `create_lookup_tables`: entry `k` is filed in both tables. */
  method AddUbeRow(ubeData: seq<MonolithUbe.UbeEntry>, k: nat, ubeLookup: Table, ubeWfrLookup: Table, visualIdsSet: set<string>)
    returns (ubeLookup': Table, ubeWfrLookup': Table, visualIdsSet': set<string>)
    requires k < |ubeData|
    requires ubeLookup == NestedIndex(LookupRows(ubeData[..k]), PrimaryKey)
    requires ubeWfrLookup == NestedIndex(LookupRows(ubeData[..k]), MonolithWfrKey)
    requires visualIdsSet == VisualIds(LookupRows(ubeData[..k]))
    ensures ubeLookup' == NestedIndex(LookupRows(ubeData[..k + 1]), PrimaryKey)
    ensures ubeWfrLookup' == NestedIndex(LookupRows(ubeData[..k + 1]), MonolithWfrKey)
    ensures visualIdsSet' == VisualIds(LookupRows(ubeData[..k + 1]))
  {
    LookupRowsNext(ubeData, k);
    var row := ReadUbeRow(ubeData[k]);
    ubeLookup', ubeWfrLookup', visualIdsSet' := FileRow(LookupRows(ubeData[..k]), row, ubeLookup, ubeWfrLookup, visualIdsSet);
  }

  /** A read row filed in the tables built from the rows before it. */
  method FileRow(ghost rows: seq<UbeRow>, row: UbeRow, ubeLookup: Table, ubeWfrLookup: Table, visualIdsSet: set<string>)
    returns (ubeLookup': Table, ubeWfrLookup': Table, visualIdsSet': set<string>)
    requires ubeLookup == NestedIndex(rows, PrimaryKey)
    requires ubeWfrLookup == NestedIndex(rows, MonolithWfrKey)
    requires visualIdsSet == VisualIds(rows)
    ensures ubeLookup' == NestedIndex(rows + [row], PrimaryKey)
    ensures ubeWfrLookup' == NestedIndex(rows + [row], MonolithWfrKey)
    ensures visualIdsSet' == VisualIds(rows + [row])
  {
    assert (rows + [row])[..|rows|] == rows;
    visualIdsSet' := visualIdsSet + {row.visualId};
    var lookupKey := row.tokenName + "|" + row.refLevel;
    ubeLookup' := AddToTable(ubeLookup, lookupKey, row.visualId, row.tokenValue);
    ubeWfrLookup' := ubeWfrLookup;
    if row.refLevel == "WFR" && row.mdposition != "" {
      var wfrLookupKey := row.tokenName + "|WFR|" + row.mdposition;
      ubeWfrLookup' := AddToTable(ubeWfrLookup, wfrLookupKey, row.visualId, row.tokenValue);
    }
  }

  /** The stripped fields of one entry, an absent MDPOSITION read as the empty string. */
  method ReadUbeRow(e: MonolithUbe.UbeEntry) returns (row: UbeRow)
    ensures row == LookupRow(e)
  {
    var tokenName := Strip(e.tokenName);
    var refLevel := Strip(e.refLevel);
    var visualId := Strip(e.visualId);
    var tokenValue := Strip(e.tokenValue);
    var mdposition := Strip(if e.mdposition.Some? then e.mdposition.value else "");
    row := UbeRow(tokenName, tokenValue, refLevel, visualId, mdposition);
  }

  // ---------------------------------------------------------------------------------------
  // One token row

  /** `field_name_seq - 1 if field_name_seq > 0 else 0` */
  function FieldIndex(fieldNameSeq: int): nat
  {
    if fieldNameSeq > 0 then fieldNameSeq - 1 else 0
  }

  /** The stripped `field_index`-th `|` piece of a visual id's token value, if it has one. */
  function FieldValue(values: map<string, string>, vid: string, fieldIndex: nat): Option<string>
  {
    if vid in values then
      var parts := Split(values[vid], '|');
      if fieldIndex < |parts| then Some(Strip(parts[fieldIndex])) else None
    else None
  }

  function FieldAt(values: map<string, string>, fieldIndex: nat): string -> Option<string>
  {
    (vid: string) => FieldValue(values, vid, fieldIndex)
  }

  /** The text of a cell: the field, or `''` without one. */
  function FieldText(field: Option<string>): string
  {
    if field.Some? then field.value else ""
  }

  /** A present field holds no `|` and no surrounding blanks; a visual id with values always has
      a field for the sequence numbers 0 and 1. */
  lemma FieldValueSpec(values: map<string, string>, vid: string, fieldNameSeq: int)
    ensures FieldIndex(fieldNameSeq) == (if fieldNameSeq > 0 then fieldNameSeq - 1 else 0)
    ensures vid !in values ==> FieldValue(values, vid, FieldIndex(fieldNameSeq)).None?
    ensures vid in values && fieldNameSeq <= 1 ==> FieldValue(values, vid, FieldIndex(fieldNameSeq)).Some?
    ensures var f := FieldValue(values, vid, FieldIndex(fieldNameSeq));
      f.Some? ==> '|' !in f.value && Strip(f.value) == f.value
  {
    var f := FieldValue(values, vid, FieldIndex(fieldNameSeq));
    if f.Some? {
      var piece := Split(values[vid], '|')[FieldIndex(fieldNameSeq)];
      StripAbsent(piece, '|');
      StripIdempotent(piece);
    }
  }

  /** A character absent from a string is absent from its strip. */
  lemma StripAbsent(s: string, c: char)
    requires c !in s
    ensures c !in Strip(s)
  {
    if c in Strip(s) {
      StripInside(s, c);
    }
  }

  /** The values of a token: its primary entry, else, for the ssid `WFR` only, the WFR entry keyed
      by the token's own level; `None` and an empty entry are both no values. */
  function VisualData(tokenName: string, refLevel: string, ssid: string, ubeLookup: Table, ubeWfrLookup: Table): map<string, string>
  {
    var primaryLookupKey := tokenName + "|" + refLevel;
    var wfrFallbackKey := tokenName + "|WFR|" + refLevel;
    if primaryLookupKey in ubeLookup then ubeLookup[primaryLookupKey]
    else if ssid == "WFR" && wfrFallbackKey in ubeWfrLookup then ubeWfrLookup[wfrFallbackKey]
    else map[]
  }

  /** Over the tables of UBE rows: a token some row files under its token and level gets that
      entry, which is never empty; otherwise only the ssid `WFR` falls back, to the rows at the level
      `WFR` whose MDPOSITION is the token's level; every other token has no values. */
  lemma VisualDataSpec(rows: seq<UbeRow>, tokenName: string, refLevel: string, ssid: string)
    ensures var t := TablesOf(rows);
      (exists i :: 0 <= i < |rows| && PrimaryKey(rows[i]) == Some(tokenName + "|" + refLevel)) ==>
        tokenName + "|" + refLevel in t.ubeLookup &&
        VisualData(tokenName, refLevel, ssid, t.ubeLookup, t.ubeWfrLookup) == t.ubeLookup[tokenName + "|" + refLevel] != map[]
    ensures var t := TablesOf(rows);
      (forall i :: 0 <= i < |rows| ==> PrimaryKey(rows[i]) != Some(tokenName + "|" + refLevel)) ==>
        VisualData(tokenName, refLevel, ssid, t.ubeLookup, t.ubeWfrLookup) ==
          if ssid == "WFR" then Entry(t.ubeWfrLookup, tokenName + "|WFR|" + refLevel) else map[]
  {
    NestedIndexKeys(rows, PrimaryKey, tokenName + "|" + refLevel);
    NestedIndexKeys(rows, MonolithWfrKey, tokenName + "|WFR|" + refLevel);
  }

  /** The cells of the row, one per visual id. */
  function Cells(vids: seq<string>, field: string -> Option<string>): map<string, string>
  {
    if vids == [] then map[] else Cells(vids[..|vids| - 1], field)[vids[|vids| - 1] := FieldText(field(vids[|vids| - 1]))]
  }

  /** `total_fuses`: the visual ids with a field. */
  function FilledCount(vids: seq<string>, field: string -> Option<string>): nat
  {
    if vids == [] then 0 else FilledCount(vids[..|vids| - 1], field) + (if field(vids[|vids| - 1]).Some? then 1 else 0)
  }

  /** `visual_ids_with_invalid`: the visual ids whose field is exactly `-999`, in order. */
  function InvalidIds(vids: seq<string>, field: string -> Option<string>): seq<string>
  {
    if vids == [] then []
    else InvalidIds(vids[..|vids| - 1], field) + (if field(vids[|vids| - 1]) == Some("-999") then [vids[|vids| - 1]] else [])
  }

  /** The cells are keyed by the visual ids and hold the field or `''`. */
  lemma {:induction false} CellsSpec(vids: seq<string>, field: string -> Option<string>)
    ensures forall v :: v in Cells(vids, field) <==> v in vids
    ensures forall v :: v in vids ==> Cells(vids, field)[v] == FieldText(field(v))
  {
    if vids != [] {
      var n := |vids| - 1;
      CellsSpec(vids[..n], field);
      assert vids == vids[..n] + [vids[n]];
    }
  }

  /** No fuse is counted iff no visual id has a field; the `-999` visual ids are those with the
      field `-999`, each counted among the fuses, in the order of the visual ids. */
  lemma {:induction false} TallySpec(vids: seq<string>, field: string -> Option<string>)
    ensures FilledCount(vids, field) == 0 <==> forall v :: v in vids ==> field(v).None?
    ensures forall v :: v in InvalidIds(vids, field) <==> v in vids && field(v) == Some("-999")
    ensures |InvalidIds(vids, field)| <= FilledCount(vids, field) <= |vids|
  {
    if vids != [] {
      var n := |vids| - 1;
      var init := vids[..n];
      TallySpec(init, field);
      assert vids == init + [vids[n]];
    }
  }

  /** The `-999` visual ids keep the order of the visual ids. */
  lemma {:induction false} InvalidIdsSorted(vids: seq<string>, field: string -> Option<string>)
    requires StrictlySorted(vids)
    ensures StrictlySorted(InvalidIds(vids, field))
  {
    if vids != [] {
      var n := |vids| - 1;
      var init := vids[..n];
      assert StrictlySorted(init);
      InvalidIdsSorted(init, field);
      InvalidIdsWithin(init, field);
      forall i | 0 <= i < |InvalidIds(init, field)| ensures Below(InvalidIds(init, field)[i], vids[n]) {
        var x := InvalidIds(init, field)[i];
        assert x in init;
        var j :| 0 <= j < n && init[j] == x;
      }
      assert vids == init + [vids[n]];
    }
  }

  /** The `-999` visual ids are among the visual ids. */
  lemma {:induction false} InvalidIdsWithin(vids: seq<string>, field: string -> Option<string>)
    ensures forall x :: x in InvalidIds(vids, field) ==> x in vids
  {
    if vids != [] {
      var n := |vids| - 1;
      InvalidIdsWithin(vids[..n], field);
      assert vids == vids[..n] + [vids[n]];
    }
  }

  lemma TallyNext(vids: seq<string>, field: string -> Option<string>, k: nat)
    requires k < |vids|
    ensures Cells(vids[..k + 1], field) == Cells(vids[..k], field)[vids[k] := FieldText(field(vids[k]))]
    ensures FilledCount(vids[..k + 1], field) == FilledCount(vids[..k], field) + (if field(vids[k]).Some? then 1 else 0)
    ensures InvalidIds(vids[..k + 1], field) == InvalidIds(vids[..k], field) + (if field(vids[k]) == Some("-999") then [vids[k]] else [])
  {
    assert vids[..k + 1][..k] == vids[..k];
  }

  /** The loop over the visual ids of one token row. */
  method CheckVisualIds(values: map<string, string>, fieldIndex: nat, allVisualIds: seq<string>)
    returns (cells: map<string, string>, hasData: bool, invalidCount: nat, totalFuses: nat, visualIdsWithInvalid: seq<string>)
    ensures cells == Cells(allVisualIds, FieldAt(values, fieldIndex))
    ensures totalFuses == FilledCount(allVisualIds, FieldAt(values, fieldIndex))
    ensures hasData <==> totalFuses > 0
    ensures visualIdsWithInvalid == InvalidIds(allVisualIds, FieldAt(values, fieldIndex))
    ensures invalidCount == |visualIdsWithInvalid|
  {
    cells := map[];
    hasData := false;
    invalidCount := 0;
    totalFuses := 0;
    visualIdsWithInvalid := [];
    if values != map[] {
      for k := 0 to |allVisualIds|
        invariant cells == Cells(allVisualIds[..k], FieldAt(values, fieldIndex))
        invariant totalFuses == FilledCount(allVisualIds[..k], FieldAt(values, fieldIndex))
        invariant hasData <==> totalFuses > 0
        invariant visualIdsWithInvalid == InvalidIds(allVisualIds[..k], FieldAt(values, fieldIndex))
        invariant invalidCount == |visualIdsWithInvalid|
      {
        cells, hasData, invalidCount, totalFuses, visualIdsWithInvalid :=
          CheckVisualId(values, fieldIndex, allVisualIds, k, cells, hasData, invalidCount, totalFuses, visualIdsWithInvalid);
      }
    } else {
      for k := 0 to |allVisualIds|
        invariant cells == Cells(allVisualIds[..k], FieldAt(values, fieldIndex))
        invariant FilledCount(allVisualIds[..k], FieldAt(values, fieldIndex)) == 0
        invariant InvalidIds(allVisualIds[..k], FieldAt(values, fieldIndex)) == []
      {
        TallyNext(allVisualIds, FieldAt(values, fieldIndex), k);
        cells := cells[allVisualIds[k] := ""];
      }
    }
    assert allVisualIds[..|allVisualIds|] == allVisualIds;
  }

  /** The body of the loop for the `k`-th visual id. */
  method CheckVisualId(values: map<string, string>, fieldIndex: nat, allVisualIds: seq<string>, k: nat,
                       cells: map<string, string>, hasData: bool, invalidCount: nat, totalFuses: nat, visualIdsWithInvalid: seq<string>)
    returns (cells': map<string, string>, hasData': bool, invalidCount': nat, totalFuses': nat, visualIdsWithInvalid': seq<string>)
    requires k < |allVisualIds|
    requires cells == Cells(allVisualIds[..k], FieldAt(values, fieldIndex))
    requires totalFuses == FilledCount(allVisualIds[..k], FieldAt(values, fieldIndex))
    requires hasData <==> totalFuses > 0
    requires visualIdsWithInvalid == InvalidIds(allVisualIds[..k], FieldAt(values, fieldIndex))
    requires invalidCount == |visualIdsWithInvalid|
    ensures cells' == Cells(allVisualIds[..k + 1], FieldAt(values, fieldIndex))
    ensures totalFuses' == FilledCount(allVisualIds[..k + 1], FieldAt(values, fieldIndex))
    ensures hasData' <==> totalFuses' > 0
    ensures visualIdsWithInvalid' == InvalidIds(allVisualIds[..k + 1], FieldAt(values, fieldIndex))
    ensures invalidCount' == |visualIdsWithInvalid'|
  {
    TallyNext(allVisualIds, FieldAt(values, fieldIndex), k);
    cells', hasData', invalidCount', totalFuses', visualIdsWithInvalid' := cells, hasData, invalidCount, totalFuses, visualIdsWithInvalid;
    var visualId := allVisualIds[k];
    if visualId in values {
      var fullTokenValue := values[visualId];
      var tokenValueParts := Split(fullTokenValue, '|');
      if fieldIndex < |tokenValueParts| {
        var fieldValue := Strip(tokenValueParts[fieldIndex]);
        cells' := cells[visualId := fieldValue];
        hasData' := true;
        totalFuses' := totalFuses + 1;
        if fieldValue == "-999" {
          invalidCount' := invalidCount + 1;
          visualIdsWithInvalid' := visualIdsWithInvalid + [visualId];
        }
      } else {
        cells' := cells[visualId := ""];
      }
    } else {
      cells' := cells[visualId := ""];
    }
  }

  /** `visual_id_list`: the `-999` visual ids joined with commas, the first five and a count of
      the rest when there are more than five. */
  function VisualIdList(ids: seq<string>): string
  {
    if |ids| <= 5 then Join(ids, ",")
    else Join(ids[..5], ",") + "... (+" + DecimalString(|ids| - 5) + " more)"
  }

  /** Comma-free visual ids read back from the list: all of them when there are at most five, the
      first five before the count otherwise. */
  lemma VisualIdListSpec(ids: seq<string>)
    requires forall i :: 0 <= i < |ids| ==> ',' !in ids[i]
    ensures 1 <= |ids| <= 5 ==> Split(VisualIdList(ids), ',') == ids
    ensures |ids| > 5 ==>
      var head := Join(ids[..5], ",");
      VisualIdList(ids)[..|head|] == head && Split(head, ',') == ids[..5]
  {
    if 1 <= |ids| <= 5 {
      SplitJoin(ids, ',');
    } else if |ids| > 5 {
      SplitJoin(ids[..5], ',');
    }
  }

  // ---------------------------------------------------------------------------------------
  // The report

  /** A token without data, filed under its register. */
  datatype MissingToken = MissingToken(tokenName: string, fieldName: string, moduleName: string, ssid: string,
                                       refLevel: string, firstSocketUpload: string, uploadProcessStep: string,
                                       fuseRegister: string)

  /** A token with `-999` values, filed under its register. */
  datatype InvalidToken = InvalidToken(dffTokenId: string, tokenName: string, firstSocketUpload: string,
                                       uploadProcessStep: string, ssid: string, refLevel: string, moduleName: string,
                                       fieldName: string, fuseName: string, fuseRegister: string,
                                       visualIdList: string, invalidCount: nat, totalFuses: nat, status: string)

  /** A row of the check CSV: the MTL columns and one cell per visual id. */
  datatype CombinedRow = CombinedRow(mtl: XmlRow, cells: map<string, string>)

  /** What the check finds for one MTL row. */
  datatype RowOutcome = RowOutcome(mtl: XmlRow, cells: map<string, string>, totalFuses: nat, invalidIds: seq<string>)

  /** The rows of the CSV, the missing and the invalid tokens per register, and the visual ids
      that head the cell columns. */
  datatype DffResult = DffResult(rows: seq<CombinedRow>, missingTokensPerRegister: map<string, seq<MissingToken>>,
                                 invalidTokensPerRegister: map<string, seq<InvalidToken>>, visualIds: seq<string>)

  /** The MTL columns: the row with its token name, ssid and level stripped. */
  function MtlOf(x: XmlRow): XmlRow
  {
    x.(tokenName := Strip(x.tokenName), ssid := Strip(x.ssid), refLevel := Strip(x.refLevel))
  }

  /** The values the row's token looks up. */
  function RowValues(x: XmlRow, ubeLookup: Table, ubeWfrLookup: Table): map<string, string>
  {
    VisualData(Strip(x.tokenName), Strip(x.refLevel), Strip(x.ssid), ubeLookup, ubeWfrLookup)
  }

  function Outcome(x: XmlRow, ubeLookup: Table, ubeWfrLookup: Table, vids: seq<string>): RowOutcome
  {
    var field := FieldAt(RowValues(x, ubeLookup, ubeWfrLookup), FieldIndex(x.fieldNameSeq));
    RowOutcome(MtlOf(x), Cells(vids, field), FilledCount(vids, field), InvalidIds(vids, field))
  }

  function OutcomeAt(ubeLookup: Table, ubeWfrLookup: Table, vids: seq<string>): XmlRow -> RowOutcome
  {
    (x: XmlRow) => Outcome(x, ubeLookup, ubeWfrLookup, vids)
  }

  /** A row without data is a missing token. */
  function MissingOf(o: RowOutcome): Option<MissingToken>
  {
    if o.totalFuses == 0 then
      Some(MissingToken(o.mtl.tokenName, o.mtl.fieldName, o.mtl.moduleName, o.mtl.ssid, o.mtl.refLevel,
                        o.mtl.firstSocketUpload, o.mtl.uploadProcessStep, o.mtl.fuseRegister))
    else None
  }

  /** A row with `-999` values is an invalid token. */
  function InvalidOf(o: RowOutcome): Option<InvalidToken>
  {
    if |o.invalidIds| > 0 then
      Some(InvalidToken(o.mtl.dffTokenId, o.mtl.tokenName, o.mtl.firstSocketUpload, o.mtl.uploadProcessStep,
                        o.mtl.ssid, o.mtl.refLevel, o.mtl.moduleName, o.mtl.fieldName, o.mtl.fuseName,
                        o.mtl.fuseRegister, VisualIdList(o.invalidIds), |o.invalidIds|, o.totalFuses, "Invalid"))
    else None
  }

  function CombinedRows(xs: seq<XmlRow>, outcome: XmlRow -> RowOutcome): seq<CombinedRow>
  {
    if xs == [] then []
    else
      var o := outcome(xs[|xs| - 1]);
      CombinedRows(xs[..|xs| - 1], outcome) + [CombinedRow(o.mtl, o.cells)]
  }

  /** `defaultdict(list)[key]` */
  function Listed<T>(m: map<string, seq<T>>, key: string): seq<T>
  {
    if key in m then m[key] else []
  }

  /** The items of the rows, appended in row order to the list of each row's register. */
  function Grouped<T>(xs: seq<XmlRow>, outcome: XmlRow -> RowOutcome, item: RowOutcome -> Option<T>): map<string, seq<T>>
  {
    if xs == [] then map[]
    else
      var g := Grouped(xs[..|xs| - 1], outcome, item);
      var o := outcome(xs[|xs| - 1]);
      match item(o)
      case Some(t) => g[o.mtl.fuseRegister := Listed(g, o.mtl.fuseRegister) + [t]]
      case None => g
  }

  /** The report of the MTL rows over the lookup tables and the sorted visual ids. */
  function DffCheckWith(xmlData: seq<XmlRow>, ubeLookup: Table, ubeWfrLookup: Table, vids: seq<string>): DffResult
  {
    var outcome := OutcomeAt(ubeLookup, ubeWfrLookup, vids);
    DffResult(CombinedRows(xmlData, outcome), Grouped(xmlData, outcome, MissingOf),
              Grouped(xmlData, outcome, InvalidOf), vids)
  }

  /** One CSV row per MTL row, in order. */
  lemma {:induction false} CombinedRowsSpec(xs: seq<XmlRow>, outcome: XmlRow -> RowOutcome)
    ensures |CombinedRows(xs, outcome)| == |xs|
    ensures forall i :: 0 <= i < |xs| ==>
      CombinedRows(xs, outcome)[i] == CombinedRow(outcome(xs[i]).mtl, outcome(xs[i]).cells)
  {
    if xs != [] {
      CombinedRowsSpec(xs[..|xs| - 1], outcome);
    }
  }

  /** A register has a list iff some row of it has an item, and the list is never empty. */
  lemma {:induction false} GroupedKeys<T>(xs: seq<XmlRow>, outcome: XmlRow -> RowOutcome, item: RowOutcome -> Option<T>, key: string)
    ensures key in Grouped(xs, outcome, item) <==>
      exists i :: 0 <= i < |xs| && outcome(xs[i]).mtl.fuseRegister == key && item(outcome(xs[i])).Some?
    ensures key in Grouped(xs, outcome, item) ==> Grouped(xs, outcome, item)[key] != []
  {
    if xs != [] {
      var n := |xs| - 1;
      var init := xs[..n];
      GroupedKeys(init, outcome, item, key);
      GroupedKeysStep(xs, outcome, item, key);
      if exists i :: 0 <= i < |xs| && outcome(xs[i]).mtl.fuseRegister == key && item(outcome(xs[i])).Some? {
        var i :| 0 <= i < |xs| && outcome(xs[i]).mtl.fuseRegister == key && item(outcome(xs[i])).Some?;
        if i < n {
          assert init[i] == xs[i];
        }
      }
      if key in Grouped(init, outcome, item) {
        var i :| 0 <= i < n && outcome(init[i]).mtl.fuseRegister == key && item(outcome(init[i])).Some?;
        assert xs[i] == init[i];
      }
    }
  }

  /** The last row adds its register to the keys when it has an item, and lists only grow. */
  lemma GroupedKeysStep<T>(xs: seq<XmlRow>, outcome: XmlRow -> RowOutcome, item: RowOutcome -> Option<T>, key: string)
    requires xs != []
    ensures var init := Grouped(xs[..|xs| - 1], outcome, item);
      var o := outcome(xs[|xs| - 1]);
      (key in Grouped(xs, outcome, item) <==> key in init || (o.mtl.fuseRegister == key && item(o).Some?)) &&
      (key in Grouped(xs, outcome, item) && (key in init ==> init[key] != []) ==> Grouped(xs, outcome, item)[key] != [])
  {
  }

  /** The list of a register holds exactly the items of the register's rows. */
  lemma {:induction false} GroupedMembers<T>(xs: seq<XmlRow>, outcome: XmlRow -> RowOutcome, item: RowOutcome -> Option<T>, key: string, t: T)
    ensures t in Listed(Grouped(xs, outcome, item), key) <==>
      exists i :: 0 <= i < |xs| && outcome(xs[i]).mtl.fuseRegister == key && item(outcome(xs[i])) == Some(t)
  {
    if xs != [] {
      var n := |xs| - 1;
      var init := xs[..n];
      GroupedMembers(init, outcome, item, key, t);
      var o := outcome(xs[n]);
      var before := Listed(Grouped(init, outcome, item), key);
      if o.mtl.fuseRegister == key && item(o).Some? {
        assert Listed(Grouped(xs, outcome, item), key) == before + [item(o).value];
      } else {
        assert Listed(Grouped(xs, outcome, item), key) == before;
      }
      if exists i :: 0 <= i < |xs| && outcome(xs[i]).mtl.fuseRegister == key && item(outcome(xs[i])) == Some(t) {
        var i :| 0 <= i < |xs| && outcome(xs[i]).mtl.fuseRegister == key && item(outcome(xs[i])) == Some(t);
        if i < n {
          assert init[i] == xs[i];
        }
      }
      if t in before {
        var i :| 0 <= i < n && outcome(init[i]).mtl.fuseRegister == key && item(outcome(init[i])) == Some(t);
        assert xs[i] == init[i];
      }
    }
  }

  /** A row has no data iff none of the visual ids has the row's field in the values its token
      looks up; its `-999` visual ids are those whose field is `-999`, in sorted order, never
      more than the fuses it counts. */
  lemma RowOutcomeSpec(x: XmlRow, ubeLookup: Table, ubeWfrLookup: Table, vids: seq<string>)
    ensures var o := Outcome(x, ubeLookup, ubeWfrLookup, vids);
      var values := RowValues(x, ubeLookup, ubeWfrLookup);
      o.mtl.fuseRegister == x.fuseRegister &&
      (MissingOf(o).Some? <==> forall v :: v in vids ==> FieldValue(values, v, FieldIndex(x.fieldNameSeq)).None?) &&
      (forall v :: v in o.invalidIds <==> v in vids && FieldValue(values, v, FieldIndex(x.fieldNameSeq)) == Some("-999")) &&
      |o.invalidIds| <= o.totalFuses &&
      (StrictlySorted(vids) ==> StrictlySorted(o.invalidIds))
  {
    var field := FieldAt(RowValues(x, ubeLookup, ubeWfrLookup), FieldIndex(x.fieldNameSeq));
    TallySpec(vids, field);
    if StrictlySorted(vids) {
      InvalidIdsSorted(vids, field);
    }
  }

  /** Every invalid token has between one and all of its counted fuses at `-999` and the status
      `Invalid`, and is filed under its own register. */
  lemma InvalidTokenSpec(xmlData: seq<XmlRow>, ubeLookup: Table, ubeWfrLookup: Table, vids: seq<string>, register: string, t: InvalidToken)
    requires t in Listed(DffCheckWith(xmlData, ubeLookup, ubeWfrLookup, vids).invalidTokensPerRegister, register)
    ensures t.fuseRegister == register && 0 < t.invalidCount <= t.totalFuses && t.status == "Invalid"
  {
    var outcome := OutcomeAt(ubeLookup, ubeWfrLookup, vids);
    GroupedMembers(xmlData, outcome, InvalidOf, register, t);
    var i :| 0 <= i < |xmlData| && outcome(xmlData[i]).mtl.fuseRegister == register && InvalidOf(outcome(xmlData[i])) == Some(t);
    RowOutcomeSpec(xmlData[i], ubeLookup, ubeWfrLookup, vids);
  }

  /** A register lists missing tokens iff one of its MTL rows has no data. */
  lemma MissingRegisterSpec(xmlData: seq<XmlRow>, ubeLookup: Table, ubeWfrLookup: Table, vids: seq<string>, register: string)
    ensures register in DffCheckWith(xmlData, ubeLookup, ubeWfrLookup, vids).missingTokensPerRegister <==>
      exists i :: 0 <= i < |xmlData| && xmlData[i].fuseRegister == register &&
        Outcome(xmlData[i], ubeLookup, ubeWfrLookup, vids).totalFuses == 0
  {
    var outcome := OutcomeAt(ubeLookup, ubeWfrLookup, vids);
    GroupedKeys(xmlData, outcome, MissingOf, register);
  }

  /** The CSV has one row per MTL row, with the stripped MTL columns and a cell for every visual
      id and no other. */
  lemma RowsSpec(xmlData: seq<XmlRow>, ubeLookup: Table, ubeWfrLookup: Table, vids: seq<string>)
    ensures var rows := DffCheckWith(xmlData, ubeLookup, ubeWfrLookup, vids).rows;
      |rows| == |xmlData| &&
      forall i :: 0 <= i < |xmlData| ==> rows[i].mtl == MtlOf(xmlData[i]) && forall v :: v in rows[i].cells <==> v in vids
  {
    var outcome := OutcomeAt(ubeLookup, ubeWfrLookup, vids);
    CombinedRowsSpec(xmlData, outcome);
    forall i | 0 <= i < |xmlData|
      ensures forall v :: v in outcome(xmlData[i]).cells <==> v in vids
    {
      CellsSpec(vids, FieldAt(RowValues(xmlData[i], ubeLookup, ubeWfrLookup), FieldIndex(xmlData[i].fieldNameSeq)));
    }
  }

  lemma ReportNext(xs: seq<XmlRow>, outcome: XmlRow -> RowOutcome, i: nat)
    requires i < |xs|
    ensures var o := outcome(xs[i]);
      CombinedRows(xs[..i + 1], outcome) == CombinedRows(xs[..i], outcome) + [CombinedRow(o.mtl, o.cells)] &&
      Grouped(xs[..i + 1], outcome, MissingOf) ==
        (if MissingOf(o).Some? then Grouped(xs[..i], outcome, MissingOf)[o.mtl.fuseRegister := Listed(Grouped(xs[..i], outcome, MissingOf), o.mtl.fuseRegister) + [MissingOf(o).value]]
         else Grouped(xs[..i], outcome, MissingOf)) &&
      Grouped(xs[..i + 1], outcome, InvalidOf) ==
        (if InvalidOf(o).Some? then Grouped(xs[..i], outcome, InvalidOf)[o.mtl.fuseRegister := Listed(Grouped(xs[..i], outcome, InvalidOf), o.mtl.fuseRegister) + [InvalidOf(o).value]]
         else Grouped(xs[..i], outcome, InvalidOf))
  {
    assert xs[..i + 1][..i] == xs[..i];
  }

  /** `create_dff_mtl_olf_check_csv`: nothing without MTL rows or UBE entries; otherwise the report
      of the MTL rows over the tables of the entries, with the cell columns in sorted order. */
  method CreateDffMtlOlfCheckCsv(xmlData: seq<XmlRow>, ubeData: seq<MonolithUbe.UbeEntry>) returns (result: Option<DffResult>)
    ensures result.None? <==> xmlData == [] || ubeData == []
    ensures result.Some? ==>
      var t := Tables(ubeData);
      SortedListOf(result.value.visualIds, t.visualIds) &&
      result.value == DffCheckWith(xmlData, t.ubeLookup, t.ubeWfrLookup, result.value.visualIds)
  {
    if xmlData == [] || ubeData == [] {
      return None;
    }
    var ubeLookup, ubeWfrLookup, allVisualIds := CreateLookupTables(ubeData);
    var combinedData, missingTokensPerRegister, invalidTokensPerRegister := CheckXmlRows(xmlData, ubeLookup, ubeWfrLookup, allVisualIds);
    result := Some(DffResult(combinedData, missingTokensPerRegister, invalidTokensPerRegister, allVisualIds));
  }

  /** The loop over the MTL rows. */
  method CheckXmlRows(xmlData: seq<XmlRow>, ubeLookup: Table, ubeWfrLookup: Table, allVisualIds: seq<string>)
    returns (combinedData: seq<CombinedRow>, missingTokensPerRegister: map<string, seq<MissingToken>>,
             invalidTokensPerRegister: map<string, seq<InvalidToken>>)
    ensures DffResult(combinedData, missingTokensPerRegister, invalidTokensPerRegister, allVisualIds) ==
      DffCheckWith(xmlData, ubeLookup, ubeWfrLookup, allVisualIds)
  {
    combinedData, missingTokensPerRegister, invalidTokensPerRegister := [], map[], map[];
    for i := 0 to |xmlData|
      invariant combinedData == CombinedRows(xmlData[..i], OutcomeAt(ubeLookup, ubeWfrLookup, allVisualIds))
      invariant missingTokensPerRegister == Grouped(xmlData[..i], OutcomeAt(ubeLookup, ubeWfrLookup, allVisualIds), MissingOf)
      invariant invalidTokensPerRegister == Grouped(xmlData[..i], OutcomeAt(ubeLookup, ubeWfrLookup, allVisualIds), InvalidOf)
    {
      combinedData, missingTokensPerRegister, invalidTokensPerRegister :=
        CheckXmlRow(xmlData, i, ubeLookup, ubeWfrLookup, allVisualIds, combinedData, missingTokensPerRegister, invalidTokensPerRegister);
    }
    assert xmlData[..|xmlData|] == xmlData;
  }

  /** The body of the loop for the `i`-th MTL row. */
  method CheckXmlRow(xmlData: seq<XmlRow>, i: nat, ubeLookup: Table, ubeWfrLookup: Table, allVisualIds: seq<string>,
                     combinedData: seq<CombinedRow>, missingTokensPerRegister: map<string, seq<MissingToken>>,
                     invalidTokensPerRegister: map<string, seq<InvalidToken>>)
    returns (combinedData': seq<CombinedRow>, missingTokensPerRegister': map<string, seq<MissingToken>>,
             invalidTokensPerRegister': map<string, seq<InvalidToken>>)
    requires i < |xmlData|
    requires combinedData == CombinedRows(xmlData[..i], OutcomeAt(ubeLookup, ubeWfrLookup, allVisualIds))
    requires missingTokensPerRegister == Grouped(xmlData[..i], OutcomeAt(ubeLookup, ubeWfrLookup, allVisualIds), MissingOf)
    requires invalidTokensPerRegister == Grouped(xmlData[..i], OutcomeAt(ubeLookup, ubeWfrLookup, allVisualIds), InvalidOf)
    ensures combinedData' == CombinedRows(xmlData[..i + 1], OutcomeAt(ubeLookup, ubeWfrLookup, allVisualIds))
    ensures missingTokensPerRegister' == Grouped(xmlData[..i + 1], OutcomeAt(ubeLookup, ubeWfrLookup, allVisualIds), MissingOf)
    ensures invalidTokensPerRegister' == Grouped(xmlData[..i + 1], OutcomeAt(ubeLookup, ubeWfrLookup, allVisualIds), InvalidOf)
  {
    ReportNext(xmlData, OutcomeAt(ubeLookup, ubeWfrLookup, allVisualIds), i);
    var o, hasData := ExamineXmlRow(xmlData[i], ubeLookup, ubeWfrLookup, allVisualIds);
    var register := o.mtl.fuseRegister;
    missingTokensPerRegister', invalidTokensPerRegister' := missingTokensPerRegister, invalidTokensPerRegister;
    if !hasData {
      var missingTokenInfo := MissingToken(o.mtl.tokenName, o.mtl.fieldName, o.mtl.moduleName, o.mtl.ssid, o.mtl.refLevel,
                                           o.mtl.firstSocketUpload, o.mtl.uploadProcessStep, register);
      missingTokensPerRegister' := missingTokensPerRegister[register := Listed(missingTokensPerRegister, register) + [missingTokenInfo]];
    }
    var invalidCount := |o.invalidIds|;
    if invalidCount > 0 {
      var status := if invalidCount > 0 then "Invalid" else "Good";
      var invalidTokenInfo := InvalidToken(o.mtl.dffTokenId, o.mtl.tokenName, o.mtl.firstSocketUpload, o.mtl.uploadProcessStep,
                                           o.mtl.ssid, o.mtl.refLevel, o.mtl.moduleName, o.mtl.fieldName, o.mtl.fuseName,
                                           register, VisualIdList(o.invalidIds), invalidCount, o.totalFuses, status);
      invalidTokensPerRegister' := invalidTokensPerRegister[register := Listed(invalidTokensPerRegister, register) + [invalidTokenInfo]];
    }
    combinedData' := combinedData + [CombinedRow(o.mtl, o.cells)];
  }

  /** The lookup and the visual-id loop for one MTL row. */
  method ExamineXmlRow(xmlRow: XmlRow, ubeLookup: Table, ubeWfrLookup: Table, allVisualIds: seq<string>)
    returns (o: RowOutcome, hasData: bool)
    ensures o == Outcome(xmlRow, ubeLookup, ubeWfrLookup, allVisualIds)
    ensures hasData <==> o.totalFuses > 0
  {
    var tokenNameMtl := Strip(xmlRow.tokenName);
    var refLevelMtl := Strip(xmlRow.refLevel);
    var ssidMtl := Strip(xmlRow.ssid);
    var primaryLookupKey := tokenNameMtl + "|" + refLevelMtl;
    var fieldIndex := if xmlRow.fieldNameSeq > 0 then xmlRow.fieldNameSeq - 1 else 0;
    var ubeVisualData: map<string, string> := map[];
    if primaryLookupKey in ubeLookup {
      ubeVisualData := ubeLookup[primaryLookupKey];
    } else if ssidMtl == "WFR" {
      var wfrFallbackKey := tokenNameMtl + "|WFR|" + refLevelMtl;
      if wfrFallbackKey in ubeWfrLookup {
        ubeVisualData := ubeWfrLookup[wfrFallbackKey];
      }
    }
    var cells, invalidCount, totalFuses, visualIdsWithInvalid;
    cells, hasData, invalidCount, totalFuses, visualIdsWithInvalid := CheckVisualIds(ubeVisualData, fieldIndex, allVisualIds);
    var mtl := xmlRow.(tokenName := tokenNameMtl, ssid := ssidMtl, refLevel := refLevelMtl);
    o := RowOutcome(mtl, cells, totalFuses, visualIdsWithInvalid);
  }
}
