// The DFF/MTL/OLF check of the CSV processor: the UBE lookup tables and the per-visual-id
// extraction of one `|`-separated field of each token value.

module CsvDffCheck {
  import opened Text
  import opened Wrappers
  import opened Ordering
  import XmlParser

  type XmlRow = XmlParser.XmlRow

  /** One UBE entry; an absent MDPOSITION is the empty string. */
  datatype UbeRow = UbeRow(tokenName: string, tokenValue: string, refLevel: string, visualId: string,
                           mdposition: string)

  // ---------------------------------------------------------------------------------------
  // Lookup tables

  /** A lookup table: key, then visual id, then token value. */
  type Table = map<string, map<string, string>>

  /** `table.get(key, {})` */
  function Entry(table: Table, key: string): map<string, string>
  {
    if key in table then table[key] else map[]
  }

  /** `'WFR' in ref_level.upper()` */
  predicate IsWfr(refLevel: string)
  {
    Contains(Upper(refLevel), "WFR")
  }

  /** The key of the primary table, `token_name|ref_level`. */
  function PrimaryKey(r: UbeRow): Option<string>
  {
    Some(r.tokenName + "|" + r.refLevel)
  }

  /** The key of the WFR table, `token_name|WFR|MDPOSITION`, for WFR rows with an MDPOSITION. */
  function WfrKey(r: UbeRow): Option<string>
  {
    if IsWfr(r.refLevel) && r.mdposition != "" then Some(r.tokenName + "|WFR|" + r.mdposition) else None
  }

  /** Records one UBE row under `key`, if it has one. */
  function Insert(table: Table, key: Option<string>, r: UbeRow): Table
  {
    if key.None? then table else table[key.value := Entry(table, key.value)[r.visualId := r.tokenValue]]
  }

  /** The table built from the rows in turn, each recorded under its key. */
  function NestedIndex(rows: seq<UbeRow>, keyOf: UbeRow -> Option<string>): Table
  {
    if rows == [] then map[]
    else Insert(NestedIndex(rows[..|rows| - 1], keyOf), keyOf(rows[|rows| - 1]), rows[|rows| - 1])
  }

  /** The visual ids of the rows in turn. */
  function VisualIds(rows: seq<UbeRow>): set<string>
  {
    if rows == [] then {} else VisualIds(rows[..|rows| - 1]) + {rows[|rows| - 1].visualId}
  }

  /** The visual ids are exactly those of the UBE rows. */
  lemma {:induction false} VisualIdsSpec(rows: seq<UbeRow>, vid: string)
    ensures vid in VisualIds(rows) <==> exists i :: 0 <= i < |rows| && rows[i].visualId == vid
  {
    if rows != [] {
      var n := |rows| - 1;
      VisualIdsSpec(rows[..n], vid);
      assert forall i :: 0 <= i < n ==> rows[..n][i] == rows[i];
    }
  }

  lemma NestedIndexNext(rows: seq<UbeRow>, keyOf: UbeRow -> Option<string>, k: nat)
    requires k < |rows|
    ensures NestedIndex(rows[..k + 1], keyOf) == Insert(NestedIndex(rows[..k], keyOf), keyOf(rows[k]), rows[k])
  {
    assert rows[..k + 1][..k] == rows[..k];
  }

  /** `_create_lookup_tables` */
  method CreateLookupTables(ubeData: seq<UbeRow>) returns (ubeLookup: Table, ubeWfrLookup: Table, visualIds: set<string>)
    ensures ubeLookup == NestedIndex(ubeData, PrimaryKey)
    ensures ubeWfrLookup == NestedIndex(ubeData, WfrKey)
    ensures visualIds == VisualIds(ubeData)
  {
    ubeLookup, ubeWfrLookup, visualIds := map[], map[], {};
    for i := 0 to |ubeData|
      invariant ubeLookup == NestedIndex(ubeData[..i], PrimaryKey)
      invariant ubeWfrLookup == NestedIndex(ubeData[..i], WfrKey)
      invariant visualIds == VisualIds(ubeData[..i])
    {
      NestedIndexNext(ubeData, PrimaryKey, i);
      NestedIndexNext(ubeData, WfrKey, i);
      assert ubeData[..i + 1][..i] == ubeData[..i];
      var ubeRow := ubeData[i];
      var tokenName, tokenValue, refLevel, visualId, mdposition :=
        ubeRow.tokenName, ubeRow.tokenValue, ubeRow.refLevel, ubeRow.visualId, ubeRow.mdposition;
      visualIds := visualIds + {visualId};
      var lookupKey := tokenName + "|" + refLevel;
      ubeLookup := AddToTable(ubeLookup, lookupKey, visualId, tokenValue);
      assert ubeLookup == Insert(NestedIndex(ubeData[..i], PrimaryKey), PrimaryKey(ubeRow), ubeRow);
      if IsWfr(refLevel) && mdposition != "" {
        var wfrKey := tokenName + "|WFR|" + mdposition;
        ubeWfrLookup := AddToTable(ubeWfrLookup, wfrKey, visualId, tokenValue);
      }
      assert ubeWfrLookup == Insert(NestedIndex(ubeData[..i], WfrKey), WfrKey(ubeRow), ubeRow);
    }
    assert ubeData[..|ubeData|] == ubeData;
  }

  /** `table.setdefault(key, {})[visual_id] = token_value` */
  method AddToTable(table: Table, key: string, visualId: string, tokenValue: string) returns (table': Table)
    ensures table' == table[key := Entry(table, key)[visualId := tokenValue]]
  {
    table' := table;
    if key !in table' {
      table' := table'[key := map[]];
    }
    table' := table'[key := table'[key][visualId := tokenValue]];
  }

  /** Whether UBE row `r` writes the cell (`key`, `vid`). */
  predicate Writes(r: UbeRow, keyOf: UbeRow -> Option<string>, key: string, vid: string)
  {
    keyOf(r) == Some(key) && r.visualId == vid
  }

  /** A key is in a table iff some row has it, and a key never maps to an empty entry, so
      `not ube_values` means the key is absent. */
  lemma {:induction false} NestedIndexKeys(rows: seq<UbeRow>, keyOf: UbeRow -> Option<string>, key: string)
    ensures key in NestedIndex(rows, keyOf) <==> exists i :: 0 <= i < |rows| && keyOf(rows[i]) == Some(key)
    ensures key in NestedIndex(rows, keyOf) ==> NestedIndex(rows, keyOf)[key] != map[]
  {
    if rows != [] {
      var n := |rows| - 1;
      NestedIndexKeys(rows[..n], keyOf, key);
      assert forall i :: 0 <= i < n ==> rows[..n][i] == rows[i];
      var r := rows[n];
      if keyOf(r) == Some(key) {
        assert r.visualId in NestedIndex(rows, keyOf)[key];
      }
    }
  }

  /** A cell of a table holds the token value of the last row that writes it, and exists iff
      some row writes it. */
  lemma {:induction false} NestedIndexLastWins(rows: seq<UbeRow>, keyOf: UbeRow -> Option<string>, key: string, vid: string)
    ensures vid in Entry(NestedIndex(rows, keyOf), key) <==> exists i :: 0 <= i < |rows| && Writes(rows[i], keyOf, key, vid)
    ensures vid in Entry(NestedIndex(rows, keyOf), key) ==>
      exists i :: 0 <= i < |rows| && Writes(rows[i], keyOf, key, vid) &&
        Entry(NestedIndex(rows, keyOf), key)[vid] == rows[i].tokenValue &&
        forall j :: i < j < |rows| ==> !Writes(rows[j], keyOf, key, vid)
  {
    if rows != [] {
      var n := |rows| - 1;
      NestedIndexLastWins(rows[..n], keyOf, key, vid);
      assert forall i :: 0 <= i < n ==> rows[..n][i] == rows[i];
      var before := Entry(NestedIndex(rows[..n], keyOf), key);
      var after := Entry(NestedIndex(rows, keyOf), key);
      EntryInsert(NestedIndex(rows[..n], keyOf), keyOf, rows[n], key);
      if Writes(rows[n], keyOf, key, vid) {
        assert after[vid] == rows[n].tokenValue;
      } else {
        assert vid in after <==> vid in before;
        if vid in after {
          var i :| 0 <= i < n && Writes(rows[i], keyOf, key, vid) && before[vid] == rows[i].tokenValue &&
            forall j :: i < j < n ==> !Writes(rows[j], keyOf, key, vid);
          assert after[vid] == rows[i].tokenValue;
        }
      }
    }
  }

  /** Recording a row changes only the entry under its own key, and there only its cell. */
  lemma EntryInsert(table: Table, keyOf: UbeRow -> Option<string>, r: UbeRow, key: string)
    ensures Entry(Insert(table, keyOf(r), r), key) ==
      if keyOf(r) == Some(key) then Entry(table, key)[r.visualId := r.tokenValue] else Entry(table, key)
  {
  }

  /** The WFR table only holds rows whose level contains `WFR` in any case and whose
      MDPOSITION is non-empty, under `token_name|WFR|MDPOSITION`. */
  lemma WfrTableRows(rows: seq<UbeRow>, key: string)
    ensures key in NestedIndex(rows, WfrKey) <==>
      exists i :: 0 <= i < |rows| && IsWfr(rows[i].refLevel) && rows[i].mdposition != "" &&
        key == rows[i].tokenName + "|WFR|" + rows[i].mdposition
  {
    NestedIndexKeys(rows, WfrKey, key);
  }

  // ---------------------------------------------------------------------------------------
  // The UBE values of one token row

  /** The visual-id values for a token: the primary entry, else the WFR entry keyed by the
      level, else, for a WFR level with an MDPOSITION, the WFR entry keyed by that. */
  function UbeValues(tokenName: string, refLevel: string, mdposition: string, ubeLookup: Table, ubeWfrLookup: Table): map<string, string>
  {
    var primary := Entry(ubeLookup, tokenName + "|" + refLevel);
    if primary != map[] then primary
    else
      var byLevel := Entry(ubeWfrLookup, tokenName + "|WFR|" + refLevel);
      if byLevel != map[] then byLevel
      else if IsWfr(refLevel) && mdposition != "" then Entry(ubeWfrLookup, tokenName + "|WFR|" + mdposition)
      else map[]
  }

  /** The lookup with its two fallbacks. */
  method LookupUbeValues(tokenName: string, refLevel: string, mdposition: string, ubeLookup: Table, ubeWfrLookup: Table)
    returns (ubeValues: map<string, string>)
    ensures ubeValues == UbeValues(tokenName, refLevel, mdposition, ubeLookup, ubeWfrLookup)
  {
    var lookupKey := tokenName + "|" + refLevel;
    ubeValues := if lookupKey in ubeLookup then ubeLookup[lookupKey] else map[];
    if ubeValues == map[] {
      var wfrKey := tokenName + "|WFR|" + refLevel;
      ubeValues := if wfrKey in ubeWfrLookup then ubeWfrLookup[wfrKey] else map[];
      if ubeValues == map[] && IsWfr(refLevel) {
        if mdposition != "" {
          wfrKey := tokenName + "|WFR|" + mdposition;
          ubeValues := if wfrKey in ubeWfrLookup then ubeWfrLookup[wfrKey] else map[];
        }
      }
    }
  }

  /** When some UBE row has the token and level of the token row, its values are the primary
      entry, whatever the WFR table holds. */
  lemma PrimaryFirst(ubeData: seq<UbeRow>, tokenName: string, refLevel: string, mdposition: string)
    requires exists i :: 0 <= i < |ubeData| && ubeData[i].tokenName + "|" + ubeData[i].refLevel == tokenName + "|" + refLevel
    ensures UbeValues(tokenName, refLevel, mdposition, NestedIndex(ubeData, PrimaryKey), NestedIndex(ubeData, WfrKey))
      == Entry(NestedIndex(ubeData, PrimaryKey), tokenName + "|" + refLevel) != map[]
  {
    var i :| 0 <= i < |ubeData| && ubeData[i].tokenName + "|" + ubeData[i].refLevel == tokenName + "|" + refLevel;
    assert PrimaryKey(ubeData[i]) == Some(tokenName + "|" + refLevel);
    NestedIndexKeys(ubeData, PrimaryKey, tokenName + "|" + refLevel);
  }

  /** Without a primary entry, a WFR entry keyed by the level comes before one keyed by the
      MDPOSITION; with neither, and no usable MDPOSITION, there are no values. */
  lemma FallbackOrder(tokenName: string, refLevel: string, mdposition: string, ubeLookup: Table, ubeWfrLookup: Table)
    requires Entry(ubeLookup, tokenName + "|" + refLevel) == map[]
    ensures Entry(ubeWfrLookup, tokenName + "|WFR|" + refLevel) != map[] ==>
      UbeValues(tokenName, refLevel, mdposition, ubeLookup, ubeWfrLookup) == ubeWfrLookup[tokenName + "|WFR|" + refLevel]
    ensures Entry(ubeWfrLookup, tokenName + "|WFR|" + refLevel) == map[] && (mdposition == "" || !IsWfr(refLevel)) ==>
      UbeValues(tokenName, refLevel, mdposition, ubeLookup, ubeWfrLookup) == map[]
  {
  }

  // ---------------------------------------------------------------------------------------
  // Cells

  /** A visual-id cell: the extracted field, or missing (written `N/A`). */
  datatype Cell = Value(text: string) | Missing

  function CellText(c: Cell): string
  {
    match c
      case Value(t) => t
      case Missing => "N/A"
  }

  /** The stripped `(field_name_seq - 1)`th `|` piece of the visual id's token value. */
  function CellOf(values: map<string, string>, vid: string, fieldNameSeq: int): Cell
  {
    if vid in values then
      var parts := Split(values[vid], '|');
      if 0 <= fieldNameSeq - 1 < |parts| then Value(Strip(parts[fieldNameSeq - 1])) else Missing
    else Missing
  }

  /** The two kinds of flawed cell the check counts. */
  datatype Flaw = MissingCell | InvalidCell

  predicate HasFlaw(c: Cell, f: Flaw)
  {
    match f
      case MissingCell => c.Missing?
      case InvalidCell => c == Value("-999")
  }

  /** A cell is missing without values for the visual id or with `field_name_seq` below 1, and
      present for a sequence number of 1; a present cell holds no `|` and no surrounding blanks;
      a cell is never both missing and invalid. */
  lemma CellOfSpec(values: map<string, string>, vid: string, fieldNameSeq: int)
    ensures vid !in values || fieldNameSeq <= 0 ==> CellOf(values, vid, fieldNameSeq) == Missing
    ensures vid in values && fieldNameSeq == 1 ==> CellOf(values, vid, fieldNameSeq).Value?
    ensures CellOf(values, vid, fieldNameSeq).Value? ==>
      '|' !in CellOf(values, vid, fieldNameSeq).text &&
      Strip(CellOf(values, vid, fieldNameSeq).text) == CellOf(values, vid, fieldNameSeq).text
    ensures !(HasFlaw(CellOf(values, vid, fieldNameSeq), MissingCell) && HasFlaw(CellOf(values, vid, fieldNameSeq), InvalidCell))
  {
    if CellOf(values, vid, fieldNameSeq).Value? {
      var parts := Split(values[vid], '|');
      var t := parts[fieldNameSeq - 1];
      if '|' in Strip(t) {
        StripInside(t, '|');
      }
      StripIdempotent(t);
    }
  }

  function FlawAt(values: map<string, string>, fieldNameSeq: int, f: Flaw): string -> bool
  {
    v => HasFlaw(CellOf(values, v, fieldNameSeq), f)
  }

  /** The visual ids whose cell has flaw `f`. */
  function FlawCount(values: map<string, string>, vids: set<string>, fieldNameSeq: int, f: Flaw): nat
  {
    SetCount(vids, FlawAt(values, fieldNameSeq, f))
  }

  /** The number of elements of `vids` satisfying `p`. */
  function SetCount(vids: set<string>, p: string -> bool): nat
  {
    |set v | v in vids && p(v)|
  }

  /** Elements satisfying one of two exclusive conditions are at most all of them. */
  lemma ExclusiveCounts(vids: set<string>, p: string -> bool, q: string -> bool)
    requires forall v :: v in vids ==> !(p(v) && q(v))
    ensures SetCount(vids, p) + SetCount(vids, q) <= |vids|
  {
    var a := set v | v in vids && p(v);
    var b := set v | v in vids && q(v);
    var s := a + b;
    assert a * b == {};
    assert s - vids == {};
    assert vids * s == s;
  }

  /** Missing and invalid cells together are at most one per visual id; with `field_name_seq`
      below 1 every cell is missing and none is invalid. */
  lemma FlawBounds(values: map<string, string>, vids: set<string>, fieldNameSeq: int)
    ensures FlawCount(values, vids, fieldNameSeq, MissingCell) + FlawCount(values, vids, fieldNameSeq, InvalidCell) <= |vids|
    ensures fieldNameSeq <= 0 ==>
      FlawCount(values, vids, fieldNameSeq, MissingCell) == |vids| && FlawCount(values, vids, fieldNameSeq, InvalidCell) == 0
  {
    var missingAt := FlawAt(values, fieldNameSeq, MissingCell);
    var invalidAt := FlawAt(values, fieldNameSeq, InvalidCell);
    forall v | v in vids
      ensures !(missingAt(v) && invalidAt(v))
    {
      CellOfSpec(values, v, fieldNameSeq);
    }
    ExclusiveCounts(vids, missingAt, invalidAt);
    if fieldNameSeq <= 0 {
      assert (set v | v in vids && missingAt(v)) == vids;
      assert (set v | v in vids && invalidAt(v)) == {};
    }
  }

  /** The cell of each visual id. */
  function CellsFrom(vids: set<string>, cell: string -> Cell): map<string, string>
  {
    map v | v in vids :: CellText(cell(v))
  }

  /** The elements of a sequence of visual ids. */
  function Elements(vs: seq<string>): set<string>
  {
    set v | v in vs
  }

  /** The cells of the visual ids in turn. */
  function CellsAlong(vs: seq<string>, cell: string -> Cell): map<string, string>
  {
    if vs == [] then map[] else CellsAlong(vs[..|vs| - 1], cell)[vs[|vs| - 1] := CellText(cell(vs[|vs| - 1]))]
  }

  /** Filling the cells in turn gives the cell of each visual id. */
  lemma {:induction false} CellsAlongSet(vs: seq<string>, cell: string -> Cell)
    ensures CellsAlong(vs, cell) == CellsFrom(Elements(vs), cell)
  {
    if vs != [] {
      var n := |vs| - 1;
      CellsAlongSet(vs[..n], cell);
      assert vs == vs[..n] + [vs[n]];
      assert Elements(vs) == Elements(vs[..n]) + {vs[n]};
    }
  }

  function CellAt(values: map<string, string>, fieldNameSeq: int): string -> Cell
  {
    v => CellOf(values, v, fieldNameSeq)
  }

  /** The number of elements of `vs` satisfying `p`, counted in order. */
  function CountWhere(vs: seq<string>, p: string -> bool): nat
  {
    if vs == [] then 0 else CountWhere(vs[..|vs| - 1], p) + (if p(vs[|vs| - 1]) then 1 else 0)
  }

  /** Counting along a sequence without repeats counts the set of its elements. */
  lemma {:induction false} CountWhereSet(vs: seq<string>, p: string -> bool)
    requires forall i, j :: 0 <= i < j < |vs| ==> vs[i] != vs[j]
    ensures CountWhere(vs, p) == SetCount(Elements(vs), p)
  {
    var s := Elements(vs);
    assert (set v | v in s && p(v)) == (set v | v in vs && p(v));
    CountWhereAlong(vs, p);
  }

  lemma {:induction false} CountWhereAlong(vs: seq<string>, p: string -> bool)
    requires forall i, j :: 0 <= i < j < |vs| ==> vs[i] != vs[j]
    ensures CountWhere(vs, p) == |set v | v in vs && p(v)|
  {
    if vs != [] {
      var n := |vs| - 1;
      var init := vs[..n];
      CountWhereAlong(init, p);
      assert vs == init + [vs[n]];
      var a := set v | v in init && p(v);
      var b := set v | v in vs && p(v);
      assert vs[n] !in init;
      if p(vs[n]) {
        assert b == a + {vs[n]};
      } else {
        assert b == a;
      }
    }
  }

  // ---------------------------------------------------------------------------------------
  // Counters and statistics

  /** One register's entry of `per_register_stats`. */
  datatype DffStats = DffStats(totalTokens: nat, missingTokens: nat, invalidTokens: nat)

  function StatsOf(per: map<string, DffStats>, register: string): DffStats
  {
    if register in per then per[register] else DffStats(0, 0, 0)
  }

  /** A `Counter` incremented `n` times at `key`: the key appears with the first increment. */
  function Bump(c: map<string, nat>, key: string, n: nat): map<string, nat>
  {
    if n == 0 then c else c[key := (if key in c then c[key] else 0) + n]
  }

  /** The key of the missing and invalid counters, `register|token_name`. */
  function TokenKey(x: XmlRow): string
  {
    x.fuseRegister + "|" + x.tokenName
  }

  /** One output row: the token row as read and a cell per visual id. */
  datatype DffRow = DffRow(mtl: XmlRow, cells: map<string, string>)

  /** What `create_dff_mtl_olf_check_csv` builds: its rows and the statistics it prints. */
  datatype DffReport = DffReport(rows: seq<DffRow>, perRegister: map<string, DffStats>,
                                 missingTokens: map<string, nat>, invalidTokens: map<string, nat>)

  function RowCells(x: XmlRow, valuesOf: XmlRow -> map<string, string>, vids: set<string>): map<string, string>
  {
    CellsFrom(vids, CellAt(valuesOf(x), x.fieldNameSeq))
  }

  function RowFlaws(x: XmlRow, valuesOf: XmlRow -> map<string, string>, vids: set<string>, f: Flaw): nat
  {
    FlawCount(valuesOf(x), vids, x.fieldNameSeq, f)
  }

  /** `per_register_stats` after one more token row. */
  function StatsStep(per: map<string, DffStats>, x: XmlRow, missing: nat, invalid: nat): map<string, DffStats>
  {
    var s := StatsOf(per, x.fuseRegister);
    per[x.fuseRegister := DffStats(s.totalTokens + 1, s.missingTokens + missing, s.invalidTokens + invalid)]
  }

  function DffRows(xs: seq<XmlRow>, valuesOf: XmlRow -> map<string, string>, vids: set<string>): seq<DffRow>
  {
    seq(|xs|, i requires 0 <= i < |xs| => DffRow(xs[i], RowCells(xs[i], valuesOf, vids)))
  }

  /** `per_register_stats` over the token rows in turn, each with its missing and invalid cells. */
  function RegisterStats(xs: seq<XmlRow>, missingOf: XmlRow -> nat, invalidOf: XmlRow -> nat): map<string, DffStats>
  {
    if xs == [] then map[]
    else
      var x := xs[|xs| - 1];
      StatsStep(RegisterStats(xs[..|xs| - 1], missingOf, invalidOf), x, missingOf(x), invalidOf(x))
  }

  /** The flawed cells of each token row. */
  function FlawsAt(valuesOf: XmlRow -> map<string, string>, vids: set<string>, f: Flaw): XmlRow -> nat
  {
    x => RowFlaws(x, valuesOf, vids, f)
  }

  /** A `Counter` over the token rows in turn, each adding `count` at its key. */
  function CounterOf(xs: seq<XmlRow>, keyOf: XmlRow -> string, count: XmlRow -> nat): map<string, nat>
  {
    if xs == [] then map[]
    else
      var x := xs[|xs| - 1];
      Bump(CounterOf(xs[..|xs| - 1], keyOf, count), keyOf(x), count(x))
  }

  function FlawCounter(xs: seq<XmlRow>, valuesOf: XmlRow -> map<string, string>, vids: set<string>, f: Flaw): map<string, nat>
  {
    CounterOf(xs, TokenKey, FlawsAt(valuesOf, vids, f))
  }

  /** The values of a token row; token rows carry no MDPOSITION. */
  function ValuesOf(ubeLookup: Table, ubeWfrLookup: Table): XmlRow -> map<string, string>
  {
    (x: XmlRow) => UbeValues(x.tokenName, x.refLevel, "", ubeLookup, ubeWfrLookup)
  }

  function Report(xs: seq<XmlRow>, valuesOf: XmlRow -> map<string, string>, vids: set<string>): DffReport
  {
    DffReport(DffRows(xs, valuesOf, vids), RegisterStats(xs, FlawsAt(valuesOf, vids, MissingCell), FlawsAt(valuesOf, vids, InvalidCell)),
              FlawCounter(xs, valuesOf, vids, MissingCell), FlawCounter(xs, valuesOf, vids, InvalidCell))
  }

  /** `create_dff_mtl_olf_check_csv` on the token rows and the UBE rows. */
  function DffCheck(xmlData: seq<XmlRow>, ubeData: seq<UbeRow>): DffReport
  {
    Report(xmlData, ValuesOf(NestedIndex(ubeData, PrimaryKey), NestedIndex(ubeData, WfrKey)), VisualIds(ubeData))
  }

  /** The number of token rows of `register`. */
  function RowsIn(xs: seq<XmlRow>, register: string): nat
  {
    if xs == [] then 0 else RowsIn(xs[..|xs| - 1], register) + (if xs[|xs| - 1].fuseRegister == register then 1 else 0)
  }

  /** The sum of `count` over the token rows with `key`. */
  function SumIn(xs: seq<XmlRow>, keyOf: XmlRow -> string, key: string, count: XmlRow -> nat): nat
  {
    if xs == [] then 0
    else
      var x := xs[|xs| - 1];
      SumIn(xs[..|xs| - 1], keyOf, key, count) + (if keyOf(x) == key then count(x) else 0)
  }

  function RegisterOf(x: XmlRow): string { x.fuseRegister }

  /** `per_register_stats` has an entry exactly for the raw registers of the token rows; its
      total counts that register's rows and its missing and invalid counts sum their flawed
      cells. */
  lemma {:induction false} RegisterStatsSpec(xs: seq<XmlRow>, missingOf: XmlRow -> nat, invalidOf: XmlRow -> nat, register: string)
    ensures register in RegisterStats(xs, missingOf, invalidOf) <==> exists i :: 0 <= i < |xs| && xs[i].fuseRegister == register
    ensures StatsOf(RegisterStats(xs, missingOf, invalidOf), register) ==
      DffStats(RowsIn(xs, register), SumIn(xs, RegisterOf, register, missingOf), SumIn(xs, RegisterOf, register, invalidOf))
  {
    if xs != [] {
      var n := |xs| - 1;
      RegisterStatsSpec(xs[..n], missingOf, invalidOf, register);
      assert forall i :: 0 <= i < n ==> xs[..n][i] == xs[i];
    }
  }

  /** A counter holds a key only when some token row with that key adds to it, never holds
      zero, and holds the sum of what the rows with that key add. */
  lemma {:induction false} CounterSpec(xs: seq<XmlRow>, keyOf: XmlRow -> string, count: XmlRow -> nat, key: string)
    ensures key in CounterOf(xs, keyOf, count) <==> exists i :: 0 <= i < |xs| && keyOf(xs[i]) == key && count(xs[i]) > 0
    ensures key in CounterOf(xs, keyOf, count) ==> CounterOf(xs, keyOf, count)[key] == SumIn(xs, keyOf, key, count) > 0
    ensures key !in CounterOf(xs, keyOf, count) ==> SumIn(xs, keyOf, key, count) == 0
  {
    if xs != [] {
      var n := |xs| - 1;
      CounterSpec(xs[..n], keyOf, count, key);
      assert forall i :: 0 <= i < n ==> xs[..n][i] == xs[i];
    }
  }

  // ---------------------------------------------------------------------------------------
  // The check loop

  /** The `try` block for one visual id. */
  method ExtractCell(ubeValues: map<string, string>, visualId: string, fieldNameSeq: int) returns (cell: Cell)
    ensures cell == CellOf(ubeValues, visualId, fieldNameSeq)
  {
    if visualId !in ubeValues {
      return Missing;
    }
    var fullTokenValue := ubeValues[visualId];
    var fieldIdx := fieldNameSeq - 1;
    var tokenParts := Split(fullTokenValue, '|');
    assert CellOf(ubeValues, visualId, fieldNameSeq) ==
      if 0 <= fieldIdx < |tokenParts| then Value(Strip(tokenParts[fieldIdx])) else Missing;
    if 0 <= fieldIdx < |tokenParts| {
      cell := Value(Strip(tokenParts[fieldIdx]));
    } else {
      cell := Missing;
    }
  }

  /** The visual-id loop of one token row: its cells, and how many of them are missing and how
      many invalid. */
  method FillCells(xmlRow: XmlRow, ubeValues: map<string, string>, sortedIds: seq<string>)
    returns (outputRow: map<string, string>, missingHere: nat, invalidHere: nat)
    ensures outputRow == CellsFrom(Elements(sortedIds), CellAt(ubeValues, xmlRow.fieldNameSeq))
    ensures missingHere == CountWhere(sortedIds, FlawAt(ubeValues, xmlRow.fieldNameSeq, MissingCell))
    ensures invalidHere == CountWhere(sortedIds, FlawAt(ubeValues, xmlRow.fieldNameSeq, InvalidCell))
  {
    ghost var missingAt := FlawAt(ubeValues, xmlRow.fieldNameSeq, MissingCell);
    ghost var invalidAt := FlawAt(ubeValues, xmlRow.fieldNameSeq, InvalidCell);
    ghost var cellAt := CellAt(ubeValues, xmlRow.fieldNameSeq);
    outputRow, missingHere, invalidHere := map[], 0, 0;
    for j := 0 to |sortedIds|
      invariant outputRow == CellsAlong(sortedIds[..j], cellAt)
      invariant missingHere == CountWhere(sortedIds[..j], missingAt)
      invariant invalidHere == CountWhere(sortedIds[..j], invalidAt)
    {
      var visualId := sortedIds[j];
      CountWhereNext(sortedIds, j, missingAt);
      CountWhereNext(sortedIds, j, invalidAt);
      CellsAlongNext(sortedIds, j, cellAt);
      var cell := ExtractCell(ubeValues, visualId, xmlRow.fieldNameSeq);
      assert cellAt(visualId) == cell;
      outputRow := outputRow[visualId := CellText(cell)];
      if cell.Missing? {
        missingHere := missingHere + 1;
      } else if cell.text == "-999" {
        invalidHere := invalidHere + 1;
      }
    }
    assert sortedIds[..|sortedIds|] == sortedIds;
    CellsAlongSet(sortedIds, cellAt);
  }

  lemma CellsAlongNext(vs: seq<string>, j: nat, cell: string -> Cell)
    requires j < |vs|
    ensures CellsAlong(vs[..j + 1], cell) == CellsAlong(vs[..j], cell)[vs[j] := CellText(cell(vs[j]))]
  {
    assert vs[..j + 1][..j] == vs[..j];
  }

  lemma CountWhereNext(vs: seq<string>, j: nat, p: string -> bool)
    requires j < |vs|
    ensures CountWhere(vs[..j + 1], p) == CountWhere(vs[..j], p) + (if p(vs[j]) then 1 else 0)
  {
    assert vs[..j + 1][..j] == vs[..j];
  }

  lemma RowNext(xs: seq<XmlRow>, valuesOf: XmlRow -> map<string, string>, vids: set<string>, k: nat)
    requires k < |xs|
    ensures var r := Report(xs[..k], valuesOf, vids);
      Report(xs[..k + 1], valuesOf, vids) ==
        DffReport(r.rows + [DffRow(xs[k], RowCells(xs[k], valuesOf, vids))],
                  StatsStep(r.perRegister, xs[k], RowFlaws(xs[k], valuesOf, vids, MissingCell), RowFlaws(xs[k], valuesOf, vids, InvalidCell)),
                  Bump(r.missingTokens, TokenKey(xs[k]), RowFlaws(xs[k], valuesOf, vids, MissingCell)),
                  Bump(r.invalidTokens, TokenKey(xs[k]), RowFlaws(xs[k], valuesOf, vids, InvalidCell)))
  {
    var ys := xs[..k + 1];
    assert ys[..k] == xs[..k];
    assert DffRows(ys, valuesOf, vids) == DffRows(xs[..k], valuesOf, vids) + [DffRow(xs[k], RowCells(xs[k], valuesOf, vids))];
  }

  /** One token row: its register entry, its UBE values and its cells. */
  method CheckRow(report: DffReport, xmlRow: XmlRow, ubeLookup: Table, ubeWfrLookup: Table, sortedIds: seq<string>)
    returns (next: DffReport)
    requires forall i, j :: 0 <= i < j < |sortedIds| ==> sortedIds[i] != sortedIds[j]
    ensures var valuesOf := ValuesOf(ubeLookup, ubeWfrLookup);
      var vids := Elements(sortedIds);
      next == DffReport(report.rows + [DffRow(xmlRow, RowCells(xmlRow, valuesOf, vids))],
                        StatsStep(report.perRegister, xmlRow, RowFlaws(xmlRow, valuesOf, vids, MissingCell),
                                  RowFlaws(xmlRow, valuesOf, vids, InvalidCell)),
                        Bump(report.missingTokens, TokenKey(xmlRow), RowFlaws(xmlRow, valuesOf, vids, MissingCell)),
                        Bump(report.invalidTokens, TokenKey(xmlRow), RowFlaws(xmlRow, valuesOf, vids, InvalidCell)))
  {
    var register := xmlRow.fuseRegister;
    var perRegisterStats := report.perRegister;
    var ubeValues := LookupUbeValues(xmlRow.tokenName, xmlRow.refLevel, "", ubeLookup, ubeWfrLookup);
    var outputRow, missingHere, invalidHere := FillCells(xmlRow, ubeValues, sortedIds);
    var key := register + "|" + xmlRow.tokenName;
    var missingTokens := BumpCounter(report.missingTokens, key, missingHere);
    var invalidTokens := BumpCounter(report.invalidTokens, key, invalidHere);
    perRegisterStats := CountRow(perRegisterStats, xmlRow, missingHere, invalidHere);
    ghost var valuesOf := ValuesOf(ubeLookup, ubeWfrLookup);
    ghost var vids := Elements(sortedIds);
    assert valuesOf(xmlRow) == ubeValues;
    CountWhereSet(sortedIds, FlawAt(ubeValues, xmlRow.fieldNameSeq, MissingCell));
    CountWhereSet(sortedIds, FlawAt(ubeValues, xmlRow.fieldNameSeq, InvalidCell));
    assert missingHere == RowFlaws(xmlRow, valuesOf, vids, MissingCell);
    assert invalidHere == RowFlaws(xmlRow, valuesOf, vids, InvalidCell);
    assert outputRow == RowCells(xmlRow, valuesOf, vids);
    assert key == TokenKey(xmlRow);
    next := DffReport(report.rows + [DffRow(xmlRow, outputRow)], perRegisterStats, missingTokens, invalidTokens);
  }

  /** A counter of missing or invalid cells: a token with cells to count gets them added to its
      entry, which starts from zero. */
  method BumpCounter(counter: map<string, nat>, key: string, n: nat) returns (counter': map<string, nat>)
    ensures counter' == Bump(counter, key, n)
  {
    counter' := counter;
    if n > 0 {
      var before := if key in counter then counter[key] else 0;
      counter' := counter[key := before + n];
    }
  }

  /** The register entry of a token row: created empty when missing, then one more token and
      its missing and invalid cells. */
  method CountRow(perRegisterStats: map<string, DffStats>, xmlRow: XmlRow, missingHere: nat, invalidHere: nat)
    returns (perRegister': map<string, DffStats>)
    ensures perRegister' == StatsStep(perRegisterStats, xmlRow, missingHere, invalidHere)
  {
    var register := xmlRow.fuseRegister;
    perRegister' := perRegisterStats;
    if register !in perRegister' {
      perRegister' := perRegister'[register := DffStats(0, 0, 0)];
    }
    var stats := perRegister'[register];
    stats := stats.(totalTokens := stats.totalTokens + 1);
    stats := stats.(missingTokens := stats.missingTokens + missingHere, invalidTokens := stats.invalidTokens + invalidHere);
    perRegister' := perRegister'[register := stats];
  }

  /** `create_dff_mtl_olf_check_csv` without its writing and printing: the rows and the
      statistics. */
  method CreateDffMtlOlfCheck(xmlData: seq<XmlRow>, ubeData: seq<UbeRow>) returns (report: DffReport)
    ensures report == DffCheck(xmlData, ubeData)
  {
    var ubeLookup, ubeWfrLookup, visualIds := CreateLookupTables(ubeData);
    var sortedIds := SortedStrings(visualIds);
    forall i, j | 0 <= i < j < |sortedIds|
      ensures sortedIds[i] != sortedIds[j]
    {
      BelowIrreflexive(sortedIds[i]);
    }
    assert Elements(sortedIds) == visualIds;
    ghost var valuesOf := ValuesOf(ubeLookup, ubeWfrLookup);
    report := DffReport([], map[], map[], map[]);
    for i := 0 to |xmlData|
      invariant report == Report(xmlData[..i], valuesOf, visualIds)
    {
      RowNext(xmlData, valuesOf, visualIds, i);
      report := CheckRow(report, xmlData[i], ubeLookup, ubeWfrLookup, sortedIds);
    }
    assert xmlData[..|xmlData|] == xmlData;
  }
}
