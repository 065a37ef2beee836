/** The unit-data step of `create_unit_data_sspec_csv`: for every breakdown row and every unit
    (visual id), the unit's bits for the row's fuse, their hexadecimal form, the DFF expected
    value and the status verdict `sort`, `FLE`, `dynamic`, `static` or `!mismatch!`. */
module UnitDataStatus {
  import opened Text
  import opened Radix
  import opened Wrappers
  import opened Ordering
  import opened UnitDataSspec

  /** The verdict written to `<vid>_StatusCheck`. */
  datatype Status = Sort | Fle | Dynamic | Static | Mismatch

  function StatusLabel(s: Status): string
  {
    match s
    case Sort => "sort"
    case Fle => "FLE"
    case Dynamic => "dynamic"
    case Static => "static"
    case Mismatch => "!mismatch!"
  }

  /** The columns of a breakdown row this step reads; `qdfHex` and `qdfBinary` are the
      `<qdf>_hexValue` and `<qdf>_binaryValue` columns of the chosen QDF. Absent columns read
      as `''`; the other columns are copied to the output unchanged. */
  datatype BreakdownRow = BreakdownRow(
    registerName: string, fuseName: string, fuseGroup: string,
    startAddress: string, endAddress: string, qdfHex: string, qdfBinary: string)

  /** The columns added for one unit. `dffValue` is `None` when no DFF data is loaded, in which
      case the `<vid>_DFF_value` column does not exist. */
  datatype UnitCell = UnitCell(itfBinary: string, itfHex: string, dffValue: Option<string>, status: Status)

  datatype UnitRow = UnitRow(source: BreakdownRow, cells: seq<UnitCell>)

  /** The QDF binary value carries the sort-skip marker `s` or `S`. */
  predicate HasSortSkip(qdfBinary: string)
  {
    's' in Lower(qdfBinary)
  }

  /** A fuse or group name is an FLE fuse as is, in lower case, or in lower case with `/`
      turned into `_`. */
  predicate NameIsFle(name: string, fle: set<string>)
  {
    name in fle || Lower(name) in fle || Lower(ReplaceChar(name, '/', "_")) in fle
  }

  /** The DFF cell for the row under `group|register`, else under `name|register`, else `'N/A'`. */
  function DffLookup(row: BreakdownRow, unitDff: map<string, string>): string
  {
    var byGroup := DffKey(row.fuseGroup, row.registerName);
    var byName := DffKey(row.fuseName, row.registerName);
    if byGroup in unitDff then unitDff[byGroup]
    else if byName in unitDff then unitDff[byName]
    else "N/A"
  }

  /** The `<vid>_DFF_value` column. */
  function DffValue(row: BreakdownRow, unitDff: map<string, string>, fle: set<string>): string
  {
    if HasSortSkip(row.qdfBinary) then "sort-skip"
    else
      var found := DffLookup(row, unitDff);
      if found == "N/A" && (NameIsFle(row.fuseGroup, fle) || NameIsFle(row.fuseName, fle)) then "FLE"
      else found
  }

  /** `hex(int(d, 2)).upper()` when `d` is all `0`s and `1`s (and not empty). */
  function BinaryReading(d: string): (r: seq<string>)
    ensures |r| <= 1 && forall i :: 0 <= i < |r| ==> StartsWith(r[i], "0X")
  {
    if d != "" && AllBits(d) then [PyHexUpper(BinValue(d))] else []
  }

  /** `hex(int(d, 16)).upper()` when `int` accepts `d` in base 16. */
  function HexadecimalReading(d: string): (r: seq<string>)
    ensures |r| <= 1 && forall i :: 0 <= i < |r| ==> StartsWith(r[i], "0X")
  {
    var t := Strip(d);
    if AllHexDigits(t) then [PyHexUpper(HexValue(t))] else []
  }

  /** `hex(int(d, 10)).upper()` when `d.isdigit()`. */
  function DecimalReading(d: string): (r: seq<string>)
    ensures |r| <= 1 && forall i :: 0 <= i < |r| ==> StartsWith(r[i], "0X")
  {
    if AllDigits(d) then [PyHexUpper(DecimalValue(d))] else []
  }

  /** The candidate hexadecimal forms of a DFF value without a `0X` prefix, in the order they
      are tried: binary, hexadecimal, decimal. */
  function HexCandidates(d: string): (r: seq<string>)
    ensures |r| <= 3 && forall i :: 0 <= i < |r| ==> StartsWith(r[i], "0X")
  {
    BinaryReading(d) + HexadecimalReading(d) + DecimalReading(d)
  }

  /** The DFF value stands for the hexadecimal text `h`: it is `h` up to case when it has a `0X`
      prefix, otherwise `h` is one of its candidate readings. */
  predicate DffYields(d: string, h: string)
  {
    if StartsWith(Upper(d), "0X") then Upper(d) == h else h in HexCandidates(d)
  }

  /** Both hex values are present, neither is `'N/A'`, and they agree ignoring case. */
  predicate StaticMatch(qdfHex: string, itfHex: string)
  {
    qdfHex != "" && qdfHex != "N/A" && itfHex != "" && itfHex != "N/A" && Upper(qdfHex) == Upper(itfHex)
  }

  /** The verdict for one unit, from the DFF column (if any), the QDF hex and the ITF hex. */
  function Classify(dff: Option<string>, qdfHex: string, itfHex: string): Status
  {
    match dff
    case Some(d) =>
      if d == "sort-skip" then Sort
      else if d == "FLE" then Fle
      else if d != "N/A" && itfHex != "" && itfHex != "N/A" && DffYields(d, Upper(itfHex)) then Dynamic
      else if StaticMatch(qdfHex, itfHex) then Static
      else Mismatch
    case None =>
      if StaticMatch(qdfHex, itfHex) then Static else Mismatch
  }

  /** The unit's bits for the row: the row's address range of the unit's register string, or
      `''` when the unit has no data for the register. */
  function UnitBits(row: BreakdownRow, units: map<string, string>): string
  {
    var (s, e) := ParseAddressPair(row.startAddress, row.endAddress);
    if row.registerName in units then ExtractFuseBits(units[row.registerName], s, e) else ""
  }

  /** The columns added for one unit. */
  function CellFor(row: BreakdownRow, units: map<string, string>, dff: map<string, map<string, string>>,
                   vid: string, fle: set<string>): UnitCell
  {
    var bits := UnitBits(row, units);
    var hex := BinaryToHex(bits);
    var dffColumn := if dff != map[] then Some(DffValue(row, if vid in dff then dff[vid] else map[], fle)) else None;
    UnitCell(if bits != "" then "b" + bits else "N/A", if hex != "" then hex else "N/A",
             dffColumn, Classify(dffColumn, row.qdfHex, hex))
  }

  /** The columns of a unit as a function of its visual id. Every visual id the loop visits is
      a key of `unitData`. */
  function CellOf(row: BreakdownRow, unitData: map<string, map<string, string>>,
                  dff: map<string, map<string, string>>, fle: set<string>): string -> UnitCell
  {
    vid => CellFor(row, if vid in unitData then unitData[vid] else map[], dff, vid, fle)
  }

  /** `cellOf` applied to each visual id in order. */
  function MapCells(vids: seq<string>, cellOf: string -> UnitCell): seq<UnitCell>
  {
    if vids == [] then [] else MapCells(vids[..|vids| - 1], cellOf) + [cellOf(vids[|vids| - 1])]
  }

  /** The columns added to a row, one group per visual id in order. */
  function RowCells(row: BreakdownRow, vids: seq<string>, unitData: map<string, map<string, string>>,
                    dff: map<string, map<string, string>>, fle: set<string>): seq<UnitCell>
  {
    MapCells(vids, CellOf(row, unitData, dff, fle))
  }

  lemma MapCellsStep(vids: seq<string>, n: nat, cellOf: string -> UnitCell)
    requires n < |vids|
    ensures MapCells(vids[..n + 1], cellOf) == MapCells(vids[..n], cellOf) + [cellOf(vids[n])]
  {
    assert vids[..n + 1][..n] == vids[..n];
  }

  /** A `0X`-prefixed text is never the `'N/A'` placeholder. */
  lemma PrefixedIsNotNa(s: string)
    requires StartsWith(s, "0X")
    ensures s != "N/A"
  {
    assert s[0] == s[..2][0] == '0';
  }

  /** The first candidate equal to the target, else the first candidate, else `'N/A'`. */
  method PickCandidate(candidates: seq<string>, target: string) returns (h: string)
    requires target != "N/A" && "N/A" !in candidates
    ensures h == target <==> target in candidates
    ensures h == "N/A" <==> candidates == []
    ensures h != "N/A" ==> h in candidates
  {
    h := "N/A";
    var k := 0;
    while k < |candidates|
      invariant 0 <= k <= |candidates|
      invariant h == "N/A"
      invariant forall j :: 0 <= j < k ==> candidates[j] != target
    {
      if candidates[k] == target {
        h := candidates[k];
        break;
      }
      k := k + 1;
    }
    if h == "N/A" && candidates != [] {
      h := candidates[0];
    }
  }

  /** The DFF value as the status step reads it in hexadecimal: the value itself in upper case
      when it has a `0X` prefix, otherwise the first candidate reading equal to the ITF hex, else
      the first candidate, else `'N/A'`. */
  method DffAsHex(dffVal: string, itfHexUpper: string) returns (h: string)
    requires StartsWith(itfHexUpper, "0X")
    ensures h == itfHexUpper <==> DffYields(dffVal, itfHexUpper)
    ensures h == "N/A" || DffYields(dffVal, h)
  {
    PrefixedIsNotNa(itfHexUpper);
    h := "N/A";
    if dffVal != "" {
      if StartsWith(Upper(dffVal), "0X") {
        h := Upper(dffVal);
      } else {
        var candidates := BinaryReading(dffVal);
        candidates := candidates + HexadecimalReading(dffVal);
        candidates := candidates + DecimalReading(dffVal);
        assert candidates == HexCandidates(dffVal);
        forall c | c in candidates ensures c != "N/A" {
          PrefixedIsNotNa(c);
        }
        h := PickCandidate(candidates, itfHexUpper);
      }
    } else {
      assert Upper(dffVal) == [] && Strip(dffVal) == [];
      assert HexCandidates(dffVal) == [];
    }
  }

  /** The `<vid>_DFF_value` column, computed as the per-unit loop body does. */
  method LookupDffValue(row: BreakdownRow, hasSortSkip: bool, unitDff: map<string, string>,
                        fle: set<string>) returns (dffValue: string)
    requires hasSortSkip == HasSortSkip(row.qdfBinary)
    ensures dffValue == DffValue(row, unitDff, fle)
  {
    if hasSortSkip {
      dffValue := "sort-skip";
    } else {
      var keyGroup := DffKey(row.fuseGroup, row.registerName);
      var keyFuse := DffKey(row.fuseName, row.registerName);
      dffValue := if keyGroup in unitDff then unitDff[keyGroup]
                  else if keyFuse in unitDff then unitDff[keyFuse] else "N/A";
      if dffValue == "N/A" {
        var isFle := NameIsFle(row.fuseGroup, fle) || NameIsFle(row.fuseName, fle);
        if isFle {
          dffValue := "FLE";
        }
      }
    }
  }

  /** The `<vid>_StatusCheck` column, computed by the source's chain of tests. `hexValue` is the
      output of `binary_to_hex`, so it is empty or `0X`-prefixed. */
  method StatusCheck(dffColumn: Option<string>, qdfHex: string, hexValue: string) returns (status: Status)
    requires hexValue == "" || StartsWith(hexValue, "0X")
    ensures status == Classify(dffColumn, qdfHex, hexValue)
  {
    status := Mismatch;
    if dffColumn.Some? {
      var dffVal := dffColumn.value;
      if dffVal == "sort-skip" {
        status := Sort;
      } else if dffVal == "FLE" {
        status := Fle;
      } else if dffVal != "N/A" && hexValue != "" && hexValue != "N/A" {
        assert Upper(hexValue)[..2] == "0X";
        var dffAsHex := DffAsHex(dffVal, Upper(hexValue));
        if dffAsHex == Upper(hexValue) {
          status := Dynamic;
        } else if qdfHex != "" && qdfHex != "N/A" {
          if Upper(qdfHex) == Upper(hexValue) {
            status := Static;
          } else {
            status := Mismatch;
          }
        } else {
          status := Mismatch;
        }
      } else if qdfHex != "" && hexValue != "" && qdfHex != "N/A" && hexValue != "N/A" {
        if Upper(qdfHex) == Upper(hexValue) {
          status := Static;
        } else {
          status := Mismatch;
        }
      }
    } else {
      if qdfHex != "" && hexValue != "" && qdfHex != "N/A" && hexValue != "N/A" {
        if Upper(qdfHex) == Upper(hexValue) {
          status := Static;
        } else {
          status := Mismatch;
        }
      }
    }
  }

  /** The columns for one unit, computed as the per-unit loop body does. */
  method FillUnitCell(row: BreakdownRow, hasSortSkip: bool, addresses: (nat, nat),
                      units: map<string, string>, dff: map<string, map<string, string>>,
                      vid: string, fle: set<string>) returns (cell: UnitCell)
    requires hasSortSkip == HasSortSkip(row.qdfBinary)
    requires addresses == ParseAddressPair(row.startAddress, row.endAddress)
    ensures cell == CellFor(row, units, dff, vid, fle)
  {
    var binaryValue := "";
    var hexValue := "";
    if row.registerName in units {
      binaryValue := ExtractFuseBits(units[row.registerName], addresses.0, addresses.1);
      hexValue := BinaryToHex(binaryValue);
      BinaryToHexSpec(binaryValue);
    }
    assert binaryValue == UnitBits(row, units) && hexValue == BinaryToHex(binaryValue);
    var itfBinary := if binaryValue != "" then "b" + binaryValue else "N/A";
    var itfHex := if hexValue != "" then hexValue else "N/A";

    var dffColumn: Option<string> := None;
    if dff != map[] {
      var dffValue := LookupDffValue(row, hasSortSkip, if vid in dff then dff[vid] else map[], fle);
      dffColumn := Some(dffValue);
    }
    var status := StatusCheck(dffColumn, row.qdfHex, hexValue);
    cell := UnitCell(itfBinary, itfHex, dffColumn, status);
  }

  /** The unit columns of one breakdown row: the loop over the visual ids. */
  method FillRowCells(row: BreakdownRow, visualIds: seq<string>, unitData: map<string, map<string, string>>,
                      dff: map<string, map<string, string>>, fle: set<string>) returns (cells: seq<UnitCell>)
    requires forall v :: v in visualIds ==> v in unitData
    ensures cells == RowCells(row, visualIds, unitData, dff, fle)
  {
    var hasSortSkip := HasSortSkip(row.qdfBinary);
    var addresses := ParseAddressPair(row.startAddress, row.endAddress);
    ghost var cellOf := CellOf(row, unitData, dff, fle);
    cells := [];
    var n := 0;
    while n < |visualIds|
      invariant 0 <= n <= |visualIds|
      invariant cells == MapCells(visualIds[..n], cellOf)
    {
      cells := FillCellAt(row, hasSortSkip, addresses, visualIds, n, unitData, dff, fle, cells);
      n := n + 1;
    }
    assert visualIds[..n] == visualIds;
  }

  /** The body of the loop for the `n`-th visual id. */
  method FillCellAt(row: BreakdownRow, hasSortSkip: bool, addresses: (nat, nat), visualIds: seq<string>, n: nat,
                    unitData: map<string, map<string, string>>, dff: map<string, map<string, string>>, fle: set<string>,
                    cells: seq<UnitCell>) returns (cells': seq<UnitCell>)
    requires n < |visualIds| && visualIds[n] in unitData
    requires hasSortSkip == HasSortSkip(row.qdfBinary)
    requires addresses == ParseAddressPair(row.startAddress, row.endAddress)
    requires cells == MapCells(visualIds[..n], CellOf(row, unitData, dff, fle))
    ensures cells' == MapCells(visualIds[..n + 1], CellOf(row, unitData, dff, fle))
  {
    var vid := visualIds[n];
    var cell := FillUnitCell(row, hasSortSkip, addresses, unitData[vid], dff, vid, fle);
    assert cell == CellOf(row, unitData, dff, fle)(vid);
    MapCellsStep(visualIds, n, CellOf(row, unitData, dff, fle));
    cells' := cells + [cell];
  }

  /** The output rows: each breakdown row followed by its unit columns, in input order. */
  function UnitRows(rows: seq<BreakdownRow>, vids: seq<string>, unitData: map<string, map<string, string>>,
                    dff: map<string, map<string, string>>, fle: set<string>): seq<UnitRow>
  {
    if rows == [] then []
    else
      var last := rows[|rows| - 1];
      UnitRows(rows[..|rows| - 1], vids, unitData, dff, fle) + [UnitRow(last, RowCells(last, vids, unitData, dff, fle))]
  }

  /** The per-row, per-unit loop of `create_unit_data_sspec_csv`, given the loaded unit data,
      DFF data (empty when absent or unreadable) and FLE names. Without unit data nothing is
      produced and the step reports failure. */
  method CreateUnitDataRows(rows: seq<BreakdownRow>, unitData: map<string, map<string, string>>,
                            dff: map<string, map<string, string>>, fle: set<string>)
    returns (ok: bool, visualIds: seq<string>, out: seq<UnitRow>)
    ensures ok <==> unitData != map[]
    ensures !ok ==> visualIds == [] && out == []
    ensures StrictlySorted(visualIds) && forall v :: ok ==> (v in visualIds <==> v in unitData)
    ensures ok ==> out == UnitRows(rows, visualIds, unitData, dff, fle)
  {
    if unitData == map[] {
      return false, [], [];
    }
    ok := true;
    visualIds := SortedStrings(unitData.Keys);
    out := FillRows(rows, visualIds, unitData, dff, fle);
  }

  /** The loop over the breakdown rows. */
  method FillRows(rows: seq<BreakdownRow>, visualIds: seq<string>, unitData: map<string, map<string, string>>,
                  dff: map<string, map<string, string>>, fle: set<string>) returns (out: seq<UnitRow>)
    requires forall v :: v in visualIds ==> v in unitData
    ensures out == UnitRows(rows, visualIds, unitData, dff, fle)
  {
    out := [];
    var i := 0;
    while i < |rows|
      invariant 0 <= i <= |rows|
      invariant out == UnitRows(rows[..i], visualIds, unitData, dff, fle)
    {
      var row := rows[i];
      var cells := FillRowCells(row, visualIds, unitData, dff, fle);
      assert rows[..i + 1][..i] == rows[..i];
      out := out + [UnitRow(row, cells)];
      i := i + 1;
    }
    assert rows[..i] == rows;
  }

  // ---------------------------------------------------------------------------------------
  // Properties of the columns

  /** `MapCells` has one cell per visual id, in order. */
  lemma {:induction false} MapCellsAt(vids: seq<string>, cellOf: string -> UnitCell, j: int)
    requires 0 <= j < |vids|
    ensures |MapCells(vids, cellOf)| == |vids|
    ensures MapCells(vids, cellOf)[j] == cellOf(vids[j])
    decreases |vids|
  {
    var init := vids[..|vids| - 1];
    if j < |vids| - 1 {
      MapCellsAt(init, cellOf, j);
      assert init[j] == vids[j];
    } else if init != [] {
      MapCellsAt(init, cellOf, 0);
    }
  }

  /** A row's columns are, for each visual id in order, the columns of that unit. */
  lemma RowCellsAt(row: BreakdownRow, vids: seq<string>, unitData: map<string, map<string, string>>,
                   dff: map<string, map<string, string>>, fle: set<string>, j: int)
    requires forall v :: v in vids ==> v in unitData
    requires 0 <= j < |vids|
    ensures |RowCells(row, vids, unitData, dff, fle)| == |vids|
    ensures RowCells(row, vids, unitData, dff, fle)[j] == CellFor(row, unitData[vids[j]], dff, vids[j], fle)
  {
    MapCellsAt(vids, CellOf(row, unitData, dff, fle), j);
  }

  /** `UnitRows` has one row per breakdown row, in input order. */
  lemma {:induction false} UnitRowsAt(rows: seq<BreakdownRow>, vids: seq<string>, unitData: map<string, map<string, string>>,
                                      dff: map<string, map<string, string>>, fle: set<string>, i: int)
    requires 0 <= i < |rows|
    ensures |UnitRows(rows, vids, unitData, dff, fle)| == |rows|
    ensures UnitRows(rows, vids, unitData, dff, fle)[i] == UnitRow(rows[i], RowCells(rows[i], vids, unitData, dff, fle))
    decreases |rows|
  {
    var init := rows[..|rows| - 1];
    if i < |rows| - 1 {
      UnitRowsAt(init, vids, unitData, dff, fle, i);
      assert init[i] == rows[i];
    } else if init != [] {
      UnitRowsAt(init, vids, unitData, dff, fle, 0);
    }
  }

  /** A sort-skip marker in the QDF binary makes the DFF column `sort-skip` and the status
      `sort`, whatever the hex values are. */
  lemma SortSkipForcesSort(row: BreakdownRow, units: map<string, string>,
                           dff: map<string, map<string, string>>, vid: string, fle: set<string>)
    requires dff != map[] && HasSortSkip(row.qdfBinary)
    ensures CellFor(row, units, dff, vid, fle).dffValue == Some("sort-skip")
    ensures CellFor(row, units, dff, vid, fle).status == Sort
  {
  }

  /** Without DFF data there is no DFF column, and the status is `static` exactly when both hex
      values are present, not `'N/A'` and equal ignoring case, and `!mismatch!` otherwise. */
  lemma NoDffOnlyStaticOrMismatch(row: BreakdownRow, units: map<string, string>, vid: string, fle: set<string>)
    ensures CellFor(row, units, map[], vid, fle).dffValue == None
    ensures var c := CellFor(row, units, map[], vid, fle);
      (c.status == Static <==> StaticMatch(row.qdfHex, BinaryToHex(UnitBits(row, units)))) &&
      (c.status != Static ==> c.status == Mismatch)
  {
  }

  /** The DFF lookup tries the fuse-group key before the fuse-name key. */
  lemma DffLookupOrder(row: BreakdownRow, unitDff: map<string, string>)
    ensures DffKey(row.fuseGroup, row.registerName) in unitDff ==>
      DffLookup(row, unitDff) == unitDff[DffKey(row.fuseGroup, row.registerName)]
    ensures DffKey(row.fuseGroup, row.registerName) !in unitDff && DffKey(row.fuseName, row.registerName) in unitDff ==>
      DffLookup(row, unitDff) == unitDff[DffKey(row.fuseName, row.registerName)]
    ensures DffLookup(row, unitDff) == "N/A" <==>
      (DffKey(row.fuseGroup, row.registerName) in unitDff && unitDff[DffKey(row.fuseGroup, row.registerName)] == "N/A") ||
      (DffKey(row.fuseGroup, row.registerName) !in unitDff &&
       (DffKey(row.fuseName, row.registerName) !in unitDff || unitDff[DffKey(row.fuseName, row.registerName)] == "N/A"))
  {
  }

  /** The DFF column is `FLE` exactly when there is no sort-skip marker and either the DFF cell
      says `FLE` or the lookup found nothing and the group or fuse name is an FLE name. */
  lemma FleOnlyWhenLookupFails(row: BreakdownRow, unitDff: map<string, string>, fle: set<string>)
    ensures DffValue(row, unitDff, fle) == "FLE" <==>
      !HasSortSkip(row.qdfBinary) &&
      (DffLookup(row, unitDff) == "FLE" ||
       (DffLookup(row, unitDff) == "N/A" && (NameIsFle(row.fuseGroup, fle) || NameIsFle(row.fuseName, fle))))
  {
  }

  /** With a DFF value that is not `sort-skip`, `FLE` or `'N/A'` and an ITF hex from
      `binary_to_hex`, the status is `dynamic` exactly when the DFF value yields the ITF hex;
      otherwise `static` exactly when the QDF hex matches the ITF hex, else `!mismatch!`. */
  lemma DynamicIffDffYields(d: string, qdfHex: string, itfHex: string)
    requires d != "sort-skip" && d != "FLE" && d != "N/A"
    requires StartsWith(itfHex, "0X")
    ensures Classify(Some(d), qdfHex, itfHex) == Dynamic <==> DffYields(d, Upper(itfHex))
    ensures !DffYields(d, Upper(itfHex)) ==>
      (Classify(Some(d), qdfHex, itfHex) == Static <==> StaticMatch(qdfHex, itfHex)) &&
      (Classify(Some(d), qdfHex, itfHex) != Static ==> Classify(Some(d), qdfHex, itfHex) == Mismatch)
  {
    PrefixedIsNotNa(itfHex);
  }

  /** When the DFF value is `'N/A'` (not FLE) or the unit has no ITF hex, the verdict is `static`
      or `!mismatch!` by the QDF/ITF comparison alone. */
  lemma NoDynamicWithoutBoth(d: string, qdfHex: string, itfHex: string)
    requires d != "sort-skip" && d != "FLE"
    requires d == "N/A" || itfHex == ""
    ensures Classify(Some(d), qdfHex, itfHex) == (if StaticMatch(qdfHex, itfHex) then Static else Mismatch)
  {
  }

  /** A DFF value without a `0X` prefix that yields the hex form of `n` has the value `n` in one
      of the bases it is tried in: binary, hexadecimal (after trimming) or decimal. */
  lemma YieldsMeansSameValue(d: string, n: nat)
    requires !StartsWith(Upper(d), "0X") && DffYields(d, PyHexUpper(n))
    ensures (d != "" && AllBits(d) && BinValue(d) == n) ||
            (AllHexDigits(Strip(d)) && HexValue(Strip(d)) == n) ||
            (AllDigits(d) && DecimalValue(d) == n)
  {
    var h := PyHexUpper(n);
    assert h in BinaryReading(d) + HexadecimalReading(d) + DecimalReading(d);
    if h in BinaryReading(d) {
      HexDigitsInjective(BinValue(d), n);
    } else if h in HexadecimalReading(d) {
      HexDigitsInjective(HexValue(Strip(d)), n);
    } else {
      HexDigitsInjective(DecimalValue(d), n);
    }
  }

  /** The same DFF text can stand for several values: `10` yields `0X2` (binary), `0X10`
      (hexadecimal) and `0XA` (decimal), so all three ITF values are `dynamic`. */
  lemma AmbiguousDffValue(d: string)
    requires |d| == 2 && d[0] == '1' && d[1] == '0'
    ensures DffYields(d, "0X2") && DffYields(d, "0X10") && DffYields(d, "0XA")
  {
    assert Upper(d)[0] == '1';
    TenInThreeBases(d);
    BitsAreUnspaced(d);
    assert BinaryReading(d) == [PyHexUpper(2)];
    assert HexadecimalReading(d) == [PyHexUpper(16)];
    assert DecimalReading(d) == [PyHexUpper(10)];
    assert HexDigits(2) == "2" && HexDigits(10) == "A";
    assert HexDigits(16) == "10" by {
      assert HexDigits(1) == "1" && HexChar(0) == '0';
    }
    assert PyHexUpper(2) == "0X2" && PyHexUpper(16) == "0X10" && PyHexUpper(10) == "0XA";
    assert HexCandidates(d) == ["0X2", "0X10", "0XA"];
  }
}
