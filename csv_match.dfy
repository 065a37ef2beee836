/** `CSVProcessor.create_matched_csv`: each row of the MTL_OLF token table is matched against
    the fuse-definition table through three indexes, giving one combined row per token row and
    the mismatch statistics per register. */
module CsvMatch {
  import opened Text
  import opened Wrappers
  import XmlParser
  import JsonParser

  type XmlRow = XmlParser.XmlRow
  type FuseDefRow = JsonParser.FuseDefRow

  // ---------------------------------------------------------------------------------------
  // Indexes over the fuse-definition rows

  /** The first row per non-empty key. */
  function FirstIndex(rows: seq<FuseDefRow>, key: FuseDefRow -> string): map<string, FuseDefRow>
  {
    if rows == [] then map[]
    else
      var m := FirstIndex(rows[..|rows| - 1], key);
      var last := rows[|rows| - 1];
      var k := key(last);
      if k != "" && k !in m then m[k := last] else m
  }

  /** The last row per non-empty key. */
  function LastIndex(rows: seq<FuseDefRow>, key: FuseDefRow -> string): map<string, FuseDefRow>
  {
    if rows == [] then map[]
    else
      var m := LastIndex(rows[..|rows| - 1], key);
      var last := rows[|rows| - 1];
      var k := key(last);
      if k != "" then m[k := last] else m
  }

  /** A key is indexed iff it is non-empty and some row has it; it maps to the first such row. */
  lemma {:induction false} FirstIndexSpec(rows: seq<FuseDefRow>, key: FuseDefRow -> string, k: string)
    ensures k in FirstIndex(rows, key) <==> k != "" && exists i :: 0 <= i < |rows| && key(rows[i]) == k
    ensures k in FirstIndex(rows, key) ==>
      exists i :: 0 <= i < |rows| && key(rows[i]) == k && FirstIndex(rows, key)[k] == rows[i] &&
        forall j :: 0 <= j < i ==> key(rows[j]) != k
  {
    if rows != [] {
      var n := |rows| - 1;
      var init := rows[..n];
      FirstIndexSpec(init, key, k);
      assert forall i :: 0 <= i < n ==> init[i] == rows[i];
      if k in FirstIndex(init, key) {
        var i :| 0 <= i < n && key(init[i]) == k && FirstIndex(init, key)[k] == init[i] &&
          forall j :: 0 <= j < i ==> key(init[j]) != k;
        assert FirstIndex(rows, key)[k] == rows[i];
      } else if key(rows[n]) == k && k != "" {
        assert FirstIndex(rows, key)[k] == rows[n];
      }
    }
  }

  /** A key is indexed iff it is non-empty and some row has it; it maps to the last such row. */
  lemma LastIndexSpec(rows: seq<FuseDefRow>, key: FuseDefRow -> string, k: string)
    ensures k in LastIndex(rows, key) <==> k != "" && exists i :: 0 <= i < |rows| && key(rows[i]) == k
    ensures k in LastIndex(rows, key) ==>
      exists i :: 0 <= i < |rows| && key(rows[i]) == k && LastIndex(rows, key)[k] == rows[i] &&
        forall j :: i < j < |rows| ==> key(rows[j]) != k
  {
    LastIndexKeys(rows, key, k);
    LastIndexValue(rows, key, k);
  }

  lemma {:induction false} LastIndexKeys(rows: seq<FuseDefRow>, key: FuseDefRow -> string, k: string)
    ensures k in LastIndex(rows, key) <==> k != "" && exists i :: 0 <= i < |rows| && key(rows[i]) == k
  {
    if rows != [] {
      var n := |rows| - 1;
      var init := rows[..n];
      LastIndexKeys(init, key, k);
      assert forall i :: 0 <= i < n ==> init[i] == rows[i];
    }
  }

  lemma {:induction false} LastIndexValue(rows: seq<FuseDefRow>, key: FuseDefRow -> string, k: string)
    ensures k in LastIndex(rows, key) ==>
      exists i :: 0 <= i < |rows| && key(rows[i]) == k && LastIndex(rows, key)[k] == rows[i] &&
        forall j :: i < j < |rows| ==> key(rows[j]) != k
  {
    if rows != [] {
      var n := |rows| - 1;
      var init := rows[..n];
      LastIndexValue(init, key, k);
      LastIndexKeys(init, key, k);
      var m := LastIndex(init, key);
      assert LastIndex(rows, key) == if key(rows[n]) != "" then m[key(rows[n]) := rows[n]] else m;
      if key(rows[n]) == k && k != "" {
        assert LastIndex(rows, key)[k] == rows[n];
      } else if k in LastIndex(init, key) {
        var i :| 0 <= i < n && key(init[i]) == k && LastIndex(init, key)[k] == init[i] &&
          forall j :: i < j < n ==> key(init[j]) != k;
        assert init[i] == rows[i];
        assert forall j :: i < j < n ==> init[j] == rows[j];
        assert LastIndex(rows, key)[k] == rows[i];
      }
    }
  }

  lemma IndexesNext(rows: seq<FuseDefRow>, key: FuseDefRow -> string, i: nat)
    requires i < |rows|
    ensures var k := key(rows[i]);
      var m := FirstIndex(rows[..i], key);
      FirstIndex(rows[..i + 1], key) == if k != "" && k !in m then m[k := rows[i]] else m
    ensures var k := key(rows[i]);
      var m := LastIndex(rows[..i], key);
      LastIndex(rows[..i + 1], key) == if k != "" then m[k := rows[i]] else m
  {
    assert rows[..i + 1][..i] == rows[..i];
  }

  function RegisterKey(r: FuseDefRow): string { Strip(r.registerName) }

  function GroupKey(r: FuseDefRow): string { Strip(r.fuseGroupName) }

  function NameKey(r: FuseDefRow): string { Strip(r.fuseName) }

  datatype Indexes = Indexes(registers: map<string, FuseDefRow>, groups: map<string, FuseDefRow>,
                             names: map<string, FuseDefRow>)

  /** The register index keeps the first row per stripped register name; the fuse-group and
      fuse-name indexes keep the last row per stripped name. */
  function IndexesOf(rows: seq<FuseDefRow>): Indexes
  {
    Indexes(FirstIndex(rows, RegisterKey), LastIndex(rows, GroupKey), LastIndex(rows, NameKey))
  }

  /** The index-building loop of `create_matched_csv`. */
  method BuildIndexes(jsonData: seq<FuseDefRow>) returns (idx: Indexes)
    ensures idx == IndexesOf(jsonData)
  {
    var registerIndex: map<string, FuseDefRow> := map[];
    var fusegroupIndex: map<string, FuseDefRow> := map[];
    var fusenameIndex: map<string, FuseDefRow> := map[];
    for i := 0 to |jsonData|
      invariant registerIndex == FirstIndex(jsonData[..i], RegisterKey)
      invariant fusegroupIndex == LastIndex(jsonData[..i], GroupKey)
      invariant fusenameIndex == LastIndex(jsonData[..i], NameKey)
    {
      IndexesNext(jsonData, RegisterKey, i);
      IndexesNext(jsonData, GroupKey, i);
      IndexesNext(jsonData, NameKey, i);
      var jsonRow := jsonData[i];
      var registerName := RegisterKey(jsonRow);
      var fusegroupName := GroupKey(jsonRow);
      var fuseName := NameKey(jsonRow);
      if registerName != "" && registerName !in registerIndex {
        registerIndex := registerIndex[registerName := jsonRow];
      }
      if fusegroupName != "" {
        fusegroupIndex := fusegroupIndex[fusegroupName := jsonRow];
      }
      if fuseName != "" {
        fusenameIndex := fusenameIndex[fuseName := jsonRow];
      }
    }
    assert jsonData[..|jsonData|] == jsonData;
    return Indexes(registerIndex, fusegroupIndex, fusenameIndex);
  }

  // ---------------------------------------------------------------------------------------
  // Matching one token row

  /** The fields of a fuse-definition row. */
  datatype Field = RegisterName | FuseGroupName | FuseName | StartAddress | EndAddress

  function FieldOf(r: FuseDefRow, f: Field): string
  {
    match f
      case RegisterName => r.registerName
      case FuseGroupName => r.fuseGroupName
      case FuseName => r.fuseName
      case StartAddress => r.startAddress
      case EndAddress => r.endAddress
  }

  function MatchText(matched: bool): string
  {
    if matched then "match" else "no-match"
  }

  /** `_get_fuse_field_value` */
  function GetFuseFieldValue(row: Option<FuseDefRow>, f: Field, matched: bool): string
  {
    if !matched then "N/A" else if row.Some? then FieldOf(row.value, f) else "N/A"
  }

  /** `_get_address_field_value` */
  function GetAddressFieldValue(registerRow: Option<FuseDefRow>, fuseRow: Option<FuseDefRow>, f: Field): string
  {
    if fuseRow.Some? then FieldOf(fuseRow.value, f)
    else if registerRow.Some? then FieldOf(registerRow.value, f)
    else ""
  }

  /** The outcome of the three lookups for one token row: its stripped register and fuse name,
      the register row, whether the group and name indexes hold the fuse name, and the fuse row. */
  datatype Matched = Matched(register: string, name: string, registerRow: Option<FuseDefRow>,
                             groupMatch: bool, nameMatch: bool, fuseRow: Option<FuseDefRow>)

  /** The lookups of a stripped register and fuse name. */
  function MatchKeys(register: string, name: string, idx: Indexes): Matched
  {
    var registerRow := if register != "" && register in idx.registers then Some(idx.registers[register]) else None;
    var groupMatch := name != "" && name in idx.groups;
    var nameMatch := name != "" && name in idx.names;
    var fuseRow := if nameMatch then Some(idx.names[name]) else if groupMatch then Some(idx.groups[name]) else None;
    Matched(register, name, registerRow, groupMatch, nameMatch, fuseRow)
  }

  function MatchXml(x: XmlRow, idx: Indexes): Matched
  {
    MatchKeys(Strip(x.fuseRegister), Strip(x.fuseName), idx)
  }

  function MatcherFor(idx: Indexes): XmlRow -> Matched
  {
    x => MatchXml(x, idx)
  }

  /** A combined row: the token row as read, then the fuse-definition columns and the three
      match flags. */
  datatype CombinedRow = CombinedRow(mtl: XmlRow, registerNameFuseDef: string, fuseGroupNameFuseDef: string,
                                     fuseNameFuseDef: string, startAddressFuseDef: string,
                                     endAddressFuseDef: string, registerMatch: string,
                                     fusegroupMatch: string, fusenameMatch: string)

  function CombinedRowOf(x: XmlRow, m: Matched): CombinedRow
  {
    CombinedRow(x, if m.registerRow.Some? then m.registerRow.value.registerName else "",
                GetFuseFieldValue(m.fuseRow, FuseGroupName, m.groupMatch),
                GetFuseFieldValue(m.fuseRow, FuseName, m.nameMatch),
                GetAddressFieldValue(m.registerRow, m.fuseRow, StartAddress),
                GetAddressFieldValue(m.registerRow, m.fuseRow, EndAddress),
                MatchText(m.registerRow.Some?), MatchText(m.groupMatch), MatchText(m.nameMatch))
  }

  /** The match flags: the register matches iff the stripped register is non-empty and indexed,
      the group and name match iff the stripped fuse name is non-empty and in the group or name
      index. */
  lemma MatchFlags(register: string, name: string, idx: Indexes, x: XmlRow)
    ensures var c := CombinedRowOf(x, MatchKeys(register, name, idx));
      (c.registerMatch == "match" <==> register != "" && register in idx.registers) &&
      (c.fusegroupMatch == "match" <==> name != "" && name in idx.groups) &&
      (c.fusenameMatch == "match" <==> name != "" && name in idx.names) &&
      c.mtl == x
  {
  }

  /** The fuse columns: `N/A` without a match; the fuse name comes from the fuse-name row, the
      fuse group from the fuse-name row when the name matches and otherwise from the fuse-group
      row. */
  lemma MatchFuseColumns(register: string, name: string, idx: Indexes, x: XmlRow)
    ensures var c := CombinedRowOf(x, MatchKeys(register, name, idx));
      (c.fuseNameFuseDef == if name != "" && name in idx.names then idx.names[name].fuseName else "N/A") &&
      (c.fuseGroupNameFuseDef ==
        if name != "" && name in idx.groups then
          (if name in idx.names then idx.names[name].fuseGroupName else idx.groups[name].fuseGroupName)
        else "N/A")
  {
  }

  /** The register name comes from the register row, empty without one; the addresses come from
      the fuse row (name row before group row), else from the register row, else are empty. */
  lemma MatchAddresses(register: string, name: string, idx: Indexes, x: XmlRow)
    ensures var c := CombinedRowOf(x, MatchKeys(register, name, idx));
      var registerRow := if register != "" && register in idx.registers then Some(idx.registers[register]) else None;
      var fuseRow := if name != "" && name in idx.names then Some(idx.names[name])
        else if name != "" && name in idx.groups then Some(idx.groups[name]) else None;
      (c.registerNameFuseDef == if registerRow.Some? then registerRow.value.registerName else "") &&
      (c.startAddressFuseDef ==
        if fuseRow.Some? then fuseRow.value.startAddress
        else if registerRow.Some? then registerRow.value.startAddress else "") &&
      (c.endAddressFuseDef ==
        if fuseRow.Some? then fuseRow.value.endAddress
        else if registerRow.Some? then registerRow.value.endAddress else "")
  {
  }

  // ---------------------------------------------------------------------------------------
  // Mismatch statistics

  /** `mismatch_row_data`, with the stripped register and fuse name. */
  datatype MismatchRecord = MismatchRecord(tokenName: string, fieldName: string, moduleName: string,
                                           fuseRegister: string, fuseName: string, firstSocketUpload: string,
                                           ssid: string, refLevel: string)

  function RecordOf(x: XmlRow, m: Matched): MismatchRecord
  {
    MismatchRecord(x.tokenName, x.fieldName, x.moduleName, m.register, m.name, x.firstSocketUpload, x.ssid, x.refLevel)
  }

  /** One register's entry of `per_register_mismatches`. */
  datatype Tally = Tally(registerMismatches: nat, fusegroupMismatches: nat, fusenameMismatches: nat,
                         totalTokens: nat, mismatchTokens: seq<MismatchRecord>)

  const NewTally := Tally(0, 0, 0, 0, [])

  predicate RegisterMismatch(m: Matched) { m.registerRow.None? && m.register != "" }

  predicate GroupMismatch(m: Matched) { !m.groupMatch && m.name != "" }

  predicate NameMismatch(m: Matched) { !m.nameMatch && m.name != "" }

  /** `register_key`: the stripped register, or `N/A`. */
  function Bucket(m: Matched): string
  {
    if m.register != "" then m.register else "N/A"
  }

  /** The three mismatch steps on one register's entry; the fuse-group and fuse-name steps
      add the record only when an equal one is not already listed. */
  function TallyStep(t: Tally, m: Matched, rec: MismatchRecord): Tally
  {
    NameStep(GroupStep(RegisterStep(t.(totalTokens := t.totalTokens + 1), m, rec), m, rec), m, rec)
  }

  function RegisterStep(t: Tally, m: Matched, rec: MismatchRecord): Tally
  {
    if RegisterMismatch(m) then
      t.(registerMismatches := t.registerMismatches + 1, mismatchTokens := t.mismatchTokens + [rec])
    else t
  }

  function GroupStep(t: Tally, m: Matched, rec: MismatchRecord): Tally
  {
    if GroupMismatch(m) then
      t.(fusegroupMismatches := t.fusegroupMismatches + 1,
         mismatchTokens := if rec in t.mismatchTokens then t.mismatchTokens else t.mismatchTokens + [rec])
    else t
  }

  function NameStep(t: Tally, m: Matched, rec: MismatchRecord): Tally
  {
    if NameMismatch(m) then
      t.(fusenameMismatches := t.fusenameMismatches + 1,
         mismatchTokens := if rec in t.mismatchTokens then t.mismatchTokens else t.mismatchTokens + [rec])
    else t
  }

  /** A token row adds its record to its register's mismatch tokens at most once: when its
      register mismatches, or when its fuse name mismatches and the record is not yet listed. */
  lemma TallyStepTokens(t: Tally, m: Matched, rec: MismatchRecord)
    ensures TallyStep(t, m, rec).mismatchTokens == t.mismatchTokens +
      (if RegisterMismatch(m) || ((GroupMismatch(m) || NameMismatch(m)) && rec !in t.mismatchTokens) then [rec] else [])
  {
    if RegisterMismatch(m) {
      assert rec in t.mismatchTokens + [rec];
    } else if GroupMismatch(m) && rec !in t.mismatchTokens {
      assert rec in t.mismatchTokens + [rec];
    }
  }

  /** The counters of one register's entry. */
  datatype Counter = TotalTokens | RegisterMismatches | FusegroupMismatches | FusenameMismatches

  function CountOf(t: Tally, c: Counter): nat
  {
    match c
      case TotalTokens => t.totalTokens
      case RegisterMismatches => t.registerMismatches
      case FusegroupMismatches => t.fusegroupMismatches
      case FusenameMismatches => t.fusenameMismatches
  }

  /** Whether a matched token row increments counter `c`. */
  predicate Counts(m: Matched, c: Counter)
  {
    match c
      case TotalTokens => true
      case RegisterMismatches => RegisterMismatch(m)
      case FusegroupMismatches => GroupMismatch(m)
      case FusenameMismatches => NameMismatch(m)
  }

  function Listing(m: Matched, c: Counter, rec: MismatchRecord): seq<MismatchRecord>
  {
    if Counts(m, c) then [rec] else []
  }

  /** What `create_matched_csv` builds: the combined rows, the three global mismatch lists and
      `per_register_mismatches`. */
  datatype MatchReport = MatchReport(combined: seq<CombinedRow>, registerMismatches: seq<MismatchRecord>,
                                     fusegroupMismatches: seq<MismatchRecord>,
                                     fusenameMismatches: seq<MismatchRecord>, perRegister: map<string, Tally>)

  const EmptyReport := MatchReport([], [], [], [], map[])

  function TallyOf(per: map<string, Tally>, key: string): Tally
  {
    if key in per then per[key] else NewTally
  }

  /** `per_register_mismatches` after one more token row. */
  function TallyUpdate(per: map<string, Tally>, x: XmlRow, m: Matched): map<string, Tally>
  {
    per[Bucket(m) := TallyStep(TallyOf(per, Bucket(m)), m, RecordOf(x, m))]
  }

  /** The report after one more token row. */
  function ReportStep(r: MatchReport, x: XmlRow, m: Matched): MatchReport
  {
    var rec := RecordOf(x, m);
    MatchReport(r.combined + [CombinedRowOf(x, m)],
                r.registerMismatches + Listing(m, RegisterMismatches, rec),
                r.fusegroupMismatches + Listing(m, FusegroupMismatches, rec),
                r.fusenameMismatches + Listing(m, FusenameMismatches, rec),
                TallyUpdate(r.perRegister, x, m))
  }

  /** The combined row of each token row, in order. */
  function CombinedRows(xs: seq<XmlRow>, matcher: XmlRow -> Matched): seq<CombinedRow>
  {
    seq(|xs|, i requires 0 <= i < |xs| => CombinedRowOf(xs[i], matcher(xs[i])))
  }

  /** The records of the token rows that increment counter `c`, in order. */
  function Listed(xs: seq<XmlRow>, matcher: XmlRow -> Matched, c: Counter): seq<MismatchRecord>
  {
    if xs == [] then []
    else
      var x := xs[|xs| - 1];
      Listed(xs[..|xs| - 1], matcher, c) + Listing(matcher(x), c, RecordOf(x, matcher(x)))
  }

  /** `per_register_mismatches` over the token rows in turn. */
  function PerRegister(xs: seq<XmlRow>, matcher: XmlRow -> Matched): map<string, Tally>
  {
    if xs == [] then map[]
    else
      var x := xs[|xs| - 1];
      TallyUpdate(PerRegister(xs[..|xs| - 1], matcher), x, matcher(x))
  }

  /** The report over the token rows, each matched by `matcher`. */
  function Report(xs: seq<XmlRow>, matcher: XmlRow -> Matched): MatchReport
  {
    MatchReport(CombinedRows(xs, matcher), Listed(xs, matcher, RegisterMismatches),
                Listed(xs, matcher, FusegroupMismatches), Listed(xs, matcher, FusenameMismatches),
                PerRegister(xs, matcher))
  }

  /** `create_matched_csv` on its two tables. */
  function MatchedReport(xmlData: seq<XmlRow>, jsonData: seq<FuseDefRow>): MatchReport
  {
    Report(xmlData, MatcherFor(IndexesOf(jsonData)))
  }

  /** The report over one more token row is one report step further. */
  lemma ReportNext(xs: seq<XmlRow>, matcher: XmlRow -> Matched, k: nat)
    requires k < |xs|
    ensures Report(xs[..k + 1], matcher) == ReportStep(Report(xs[..k], matcher), xs[k], matcher(xs[k]))
  {
    var ys := xs[..k + 1];
    assert ys[..k] == xs[..k];
    assert CombinedRows(ys, matcher) == CombinedRows(xs[..k], matcher) + [CombinedRowOf(xs[k], matcher(xs[k]))];
  }

  /** The empty report has no rows and no registers. */
  lemma ReportEmpty(matcher: XmlRow -> Matched)
    ensures Report([], matcher) == EmptyReport
  {
  }

  /** Every token row is listed once under the total counter, in order. */
  lemma {:induction false} ListedAll(xs: seq<XmlRow>, matcher: XmlRow -> Matched)
    ensures |Listed(xs, matcher, TotalTokens)| == |xs|
    ensures forall i :: 0 <= i < |xs| ==> Listed(xs, matcher, TotalTokens)[i] == RecordOf(xs[i], matcher(xs[i]))
  {
    if xs != [] {
      var n := |xs| - 1;
      ListedAll(xs[..n], matcher);
      assert forall i :: 0 <= i < n ==> xs[..n][i] == xs[i];
    }
  }

  /** A global mismatch list holds exactly the records of the token rows that mismatch. */
  lemma {:induction false} ListedMembers(xs: seq<XmlRow>, matcher: XmlRow -> Matched, c: Counter, rec: MismatchRecord)
    ensures rec in Listed(xs, matcher, c) <==>
      exists i :: 0 <= i < |xs| && Counts(matcher(xs[i]), c) && RecordOf(xs[i], matcher(xs[i])) == rec
  {
    if xs != [] {
      var n := |xs| - 1;
      ListedMembers(xs[..n], matcher, c, rec);
      assert forall i :: 0 <= i < n ==> xs[..n][i] == xs[i];
      if rec in Listed(xs, matcher, c) && rec !in Listed(xs[..n], matcher, c) {
        assert Counts(matcher(xs[n]), c) && RecordOf(xs[n], matcher(xs[n])) == rec;
      }
    }
  }

  /** The number of token rows of bucket `key` that increment `c`. */
  function CountIn(xs: seq<XmlRow>, matcher: XmlRow -> Matched, key: string, c: Counter): nat
  {
    if xs == [] then 0
    else
      var m := matcher(xs[|xs| - 1]);
      CountIn(xs[..|xs| - 1], matcher, key, c) + (if Bucket(m) == key && Counts(m, c) then 1 else 0)
  }

  lemma TallyStepCount(t: Tally, m: Matched, rec: MismatchRecord, c: Counter)
    ensures CountOf(TallyStep(t, m, rec), c) == CountOf(t, c) + (if Counts(m, c) then 1 else 0)
  {
  }

  /** A register entry exists exactly for the buckets of the token rows: the stripped register,
      or `N/A` for an empty one. */
  lemma {:induction false} ReportBuckets(xs: seq<XmlRow>, matcher: XmlRow -> Matched, key: string)
    ensures key in PerRegister(xs, matcher) <==> exists i :: 0 <= i < |xs| && Bucket(matcher(xs[i])) == key
  {
    if xs != [] {
      var n := |xs| - 1;
      ReportBuckets(xs[..n], matcher, key);
      assert forall i :: 0 <= i < n ==> xs[..n][i] == xs[i];
    }
  }

  /** Each counter of a bucket counts the token rows of that bucket it applies to: all of them
      for the total, and for a mismatch counter those whose register or fuse name is non-empty
      and unmatched. */
  lemma {:induction false} ReportTallies(xs: seq<XmlRow>, matcher: XmlRow -> Matched, key: string, c: Counter)
    ensures CountOf(TallyOf(PerRegister(xs, matcher), key), c) == CountIn(xs, matcher, key, c)
  {
    if xs != [] {
      var n := |xs| - 1;
      ReportTallies(xs[..n], matcher, key, c);
      var per := PerRegister(xs[..n], matcher);
      var m := matcher(xs[n]);
      TallyStepCount(TallyOf(per, Bucket(m)), m, RecordOf(xs[n], m), c);
    }
  }

  /** The sum of counter `c` over the registers. */
  ghost function TallySum(m: map<string, Tally>, c: Counter): nat
    decreases |m.Keys|
  {
    if m == map[] then 0
    else
      var k :| k in m;
      CountOf(m[k], c) + TallySum(m - {k}, c)
  }

  lemma {:induction false} TallySumRemove(m: map<string, Tally>, k: string, c: Counter)
    requires k in m
    ensures TallySum(m, c) == CountOf(m[k], c) + TallySum(m - {k}, c)
    decreases |m.Keys|
  {
    var k' :| k' in m && TallySum(m, c) == CountOf(m[k'], c) + TallySum(m - {k'}, c);
    if k' != k {
      assert (m - {k'}).Keys == m.Keys - {k'};
      assert (m - {k}).Keys == m.Keys - {k};
      TallySumRemove(m - {k'}, k, c);
      TallySumRemove(m - {k}, k', c);
      assert m - {k'} - {k} == m - {k} - {k'};
    }
  }

  lemma TallySumUpdate(m: map<string, Tally>, k: string, t: Tally, c: Counter)
    ensures TallySum(m[k := t], c) + CountOf(TallyOf(m, k), c) == TallySum(m, c) + CountOf(t, c)
  {
    TallySumRemove(m[k := t], k, c);
    assert m[k := t] - {k} == m - {k};
    if k in m {
      TallySumRemove(m, k, c);
    } else {
      assert m - {k} == m;
    }
  }

  /** Summed over the registers, each counter equals the length of its global list; for the
      total counter that is the number of token rows. */
  lemma {:induction false} ReportSums(xs: seq<XmlRow>, matcher: XmlRow -> Matched, c: Counter)
    ensures TallySum(PerRegister(xs, matcher), c) == |Listed(xs, matcher, c)|
  {
    if xs == [] {
      assert PerRegister(xs, matcher) == map[];
    } else {
      var n := |xs| - 1;
      ReportSums(xs[..n], matcher, c);
      var per := PerRegister(xs[..n], matcher);
      var m := matcher(xs[n]);
      var rec := RecordOf(xs[n], m);
      var t := TallyOf(per, Bucket(m));
      TallySumUpdate(per, Bucket(m), TallyStep(t, m, rec), c);
      TallyStepCount(t, m, rec, c);
    }
  }

  // ---------------------------------------------------------------------------------------
  // The matching loop

  /** The body of the matching loop on one token row. */
  method MatchOne(report: MatchReport, xmlRow: XmlRow, idx: Indexes) returns (next: MatchReport)
    ensures next == ReportStep(report, xmlRow, MatchXml(xmlRow, idx))
  {
    var xmlFuseRegister, xmlFuseName, registerMatch, fusegroupMatch, fusenameMatch, matchedForRegister, matchedForFuse :=
      LookupOne(xmlRow, idx);
    next := RecordOne(report, xmlRow, xmlFuseRegister, xmlFuseName, registerMatch, fusegroupMatch, fusenameMatch,
                      matchedForRegister, matchedForFuse);
  }

  /** The three index lookups for one token row; a match status is `true` for "match". */
  method LookupOne(xmlRow: XmlRow, idx: Indexes)
    returns (xmlFuseRegister: string, xmlFuseName: string, registerMatch: bool, fusegroupMatch: bool,
             fusenameMatch: bool, matchedForRegister: Option<FuseDefRow>, matchedForFuse: Option<FuseDefRow>)
    ensures MatchXml(xmlRow, idx) == Matched(xmlFuseRegister, xmlFuseName, matchedForRegister,
                                             fusegroupMatch, fusenameMatch, matchedForFuse)
    ensures registerMatch == matchedForRegister.Some?
  {
    xmlFuseRegister := Strip(xmlRow.fuseRegister);
    xmlFuseName := Strip(xmlRow.fuseName);
    registerMatch, fusegroupMatch, fusenameMatch := false, false, false;
    matchedForRegister, matchedForFuse := None, None;
    if xmlFuseRegister != "" && xmlFuseRegister in idx.registers {
      registerMatch := true;
      matchedForRegister := Some(idx.registers[xmlFuseRegister]);
    }
    if xmlFuseName != "" && xmlFuseName in idx.groups {
      fusegroupMatch := true;
      matchedForFuse := Some(idx.groups[xmlFuseName]);
    }
    if xmlFuseName != "" && xmlFuseName in idx.names {
      fusenameMatch := true;
      matchedForFuse := Some(idx.names[xmlFuseName]);
    }
  }

  /** The mismatch bookkeeping and the combined row for one looked-up token row. */
  method RecordOne(report: MatchReport, xmlRow: XmlRow, xmlFuseRegister: string, xmlFuseName: string,
                   registerMatch: bool, fusegroupMatch: bool, fusenameMatch: bool,
                   matchedForRegister: Option<FuseDefRow>, matchedForFuse: Option<FuseDefRow>)
    returns (next: MatchReport)
    requires registerMatch == matchedForRegister.Some?
    ensures next == ReportStep(report, xmlRow, Matched(xmlFuseRegister, xmlFuseName, matchedForRegister,
                                                       fusegroupMatch, fusenameMatch, matchedForFuse))
  {
    ghost var m := Matched(xmlFuseRegister, xmlFuseName, matchedForRegister, fusegroupMatch, fusenameMatch, matchedForFuse);
    var rec := MismatchRecord(xmlRow.tokenName, xmlRow.fieldName, xmlRow.moduleName, xmlFuseRegister, xmlFuseName,
                              xmlRow.firstSocketUpload, xmlRow.ssid, xmlRow.refLevel);
    var registerKey := if xmlFuseRegister != "" then xmlFuseRegister else "N/A";
    var tally := if registerKey in report.perRegister then report.perRegister[registerKey] else NewTally;
    tally := CountTally(tally, rec, !registerMatch && xmlFuseRegister != "",
                        !fusegroupMatch && xmlFuseName != "", !fusenameMatch && xmlFuseName != "", m);
    var registerMismatches, fusegroupMismatches, fusenameMismatches :=
      AppendMismatches(report, rec, xmlFuseRegister, xmlFuseName, registerMatch, fusegroupMatch, fusenameMatch, m);
    var combinedRow := CombineRow(xmlRow, xmlFuseRegister, xmlFuseName, registerMatch, fusegroupMatch, fusenameMatch,
                                  matchedForRegister, matchedForFuse);
    next := MatchReport(report.combined + [combinedRow], registerMismatches, fusegroupMismatches,
                        fusenameMismatches, report.perRegister[registerKey := tally]);
  }

  /** The three global mismatch lists, each with the record added when the row is that kind
      of mismatch. */
  method AppendMismatches(report: MatchReport, rec: MismatchRecord, xmlFuseRegister: string, xmlFuseName: string,
                          registerMatch: bool, fusegroupMatch: bool, fusenameMatch: bool, ghost m: Matched)
    returns (registerMismatches: seq<MismatchRecord>, fusegroupMismatches: seq<MismatchRecord>,
             fusenameMismatches: seq<MismatchRecord>)
    requires xmlFuseRegister == m.register && xmlFuseName == m.name
    requires registerMatch == m.registerRow.Some? && fusegroupMatch == m.groupMatch && fusenameMatch == m.nameMatch
    ensures registerMismatches == report.registerMismatches + Listing(m, RegisterMismatches, rec)
    ensures fusegroupMismatches == report.fusegroupMismatches + Listing(m, FusegroupMismatches, rec)
    ensures fusenameMismatches == report.fusenameMismatches + Listing(m, FusenameMismatches, rec)
  {
    registerMismatches, fusegroupMismatches, fusenameMismatches :=
      report.registerMismatches, report.fusegroupMismatches, report.fusenameMismatches;
    if !registerMatch && xmlFuseRegister != "" {
      registerMismatches := registerMismatches + [rec];
    }
    if !fusegroupMatch && xmlFuseName != "" {
      fusegroupMismatches := fusegroupMismatches + [rec];
    }
    if !fusenameMatch && xmlFuseName != "" {
      fusenameMismatches := fusenameMismatches + [rec];
    }
  }

  /** The combined row of one looked-up token row. */
  method CombineRow(xmlRow: XmlRow, xmlFuseRegister: string, xmlFuseName: string,
                    registerMatch: bool, fusegroupMatch: bool, fusenameMatch: bool,
                    matchedForRegister: Option<FuseDefRow>, matchedForFuse: Option<FuseDefRow>)
    returns (combinedRow: CombinedRow)
    requires registerMatch == matchedForRegister.Some?
    ensures combinedRow == CombinedRowOf(xmlRow, Matched(xmlFuseRegister, xmlFuseName, matchedForRegister,
                                                         fusegroupMatch, fusenameMatch, matchedForFuse))
  {
    combinedRow := CombinedRow(xmlRow,
      if matchedForRegister.Some? then matchedForRegister.value.registerName else "",
      GetFuseFieldValue(matchedForFuse, FuseGroupName, fusegroupMatch),
      GetFuseFieldValue(matchedForFuse, FuseName, fusenameMatch),
      GetAddressFieldValue(matchedForRegister, matchedForFuse, StartAddress),
      GetAddressFieldValue(matchedForRegister, matchedForFuse, EndAddress),
      MatchText(registerMatch), MatchText(fusegroupMatch), MatchText(fusenameMatch));
  }

  /** The counters and mismatch tokens of the token row's register entry: one more token, and
      one more of each mismatch, its record listed at most once. */
  method CountTally(tally: Tally, rec: MismatchRecord, registerMismatch: bool, groupMismatch: bool,
                    nameMismatch: bool, ghost m: Matched) returns (next: Tally)
    requires registerMismatch == RegisterMismatch(m)
    requires groupMismatch == GroupMismatch(m)
    requires nameMismatch == NameMismatch(m)
    ensures next == TallyStep(tally, m, rec)
  {
    next := tally.(totalTokens := tally.totalTokens + 1);
    ghost var t1 := next;
    if registerMismatch {
      next := next.(registerMismatches := next.registerMismatches + 1, mismatchTokens := next.mismatchTokens + [rec]);
    }
    assert next == RegisterStep(t1, m, rec);
    ghost var t2 := next;
    if groupMismatch {
      next := next.(fusegroupMismatches := next.fusegroupMismatches + 1);
      if rec !in next.mismatchTokens {
        next := next.(mismatchTokens := next.mismatchTokens + [rec]);
      }
    }
    assert next == GroupStep(t2, m, rec);
    if nameMismatch {
      next := next.(fusenameMismatches := next.fusenameMismatches + 1);
      if rec !in next.mismatchTokens {
        next := next.(mismatchTokens := next.mismatchTokens + [rec]);
      }
    }
  }

  /** `create_matched_csv` without its printing and writing: the combined rows it returns and
      the statistics it prints. */
  method CreateMatchedCsv(xmlData: seq<XmlRow>, jsonData: seq<FuseDefRow>) returns (combined: seq<CombinedRow>, report: MatchReport)
    ensures report == MatchedReport(xmlData, jsonData)
    ensures combined == report.combined
  {
    var idx := BuildIndexes(jsonData);
    report := EmptyReport;
    for i := 0 to |xmlData|
      invariant report == Report(xmlData[..i], MatcherFor(idx))
    {
      ReportNext(xmlData, MatcherFor(idx), i);
      report := MatchOne(report, xmlData[i], idx);
    }
    assert xmlData[..|xmlData|] == xmlData;
    combined := if report.combined != [] then report.combined else [];
  }
}
