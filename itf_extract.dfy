/** `ITFParser.extract_itf_data` over the lines of an ITF file: a line-prefix state machine
    that collects the header fields and one record per unit. */
module ItfExtract {
  import opened Text
  import opened Wrappers
  import opened Assoc
  import opened ItfLines

  /** The header prefixes and the field each sets. */
  const HeaderPrefixes: seq<(string, string)> := [
    ("6_lotid_", "lotid"), ("6_sspec_", "sspec"), ("6_prgnm_", "prgnm"), ("5_lcode_", "lcode"),
    ("4_sysid_", "sysid"), ("4_facid_", "facid"), ("4_tempr_", "tempr")]

  /** The unit attributes a `3_`/`2_` `key_value` line may set. The unit's two other keys,
      `ult_data` and `tname_values`, hold `_` and so never equal the key of such a line. */
  const UnitAttrs: set<string> := {
    "prtnm", "thermalhdid", "dvtststdt", "socket", "tstordnum", "tiuid", "eqpprtid", "siteid",
    "prttesterid", "tiuprscdid", "visualid", "subflstpid", "binn", "curfbin", "curibin"}

  /** A finished unit: the attributes set (an absent key is `None`), the ULT string per SSID
      and the value per matched test name. */
  datatype Unit = Unit(attrs: map<string, string>, ultData: Dict<string, string>, tnameValues: Dict<string, string>)

  /** The unit part of the scan state: finished units, the attributes of the unit in progress,
      its ULT lines per SSID and its test-name values, and the test name awaiting its value.
      The header fields evolve on their own (`HeaderAfter`). */
  datatype Scan = Scan(
    units: seq<Unit>,
    current: Option<map<string, string>>,
    ultLines: Dict<string, seq<string>>,
    tnames: Dict<string, string>,
    pending: Option<string>)

  const Start := Scan([], None, [], [], None)

  /** Every header prefix the line starts with sets its field to the rest of the line. */
  function HeaderFrom(header: map<string, string>, line: string, prefixes: seq<(string, string)>): map<string, string>
    decreases |prefixes|
  {
    if prefixes == [] then header
    else
      var (prefix, key) := prefixes[0];
      var h := if StartsWith(line, prefix) then header[key := line[|prefix|..]] else header;
      HeaderFrom(h, line, prefixes[1..])
  }

  /** The header fields after the stripped lines `lines`: every non-blank line is tried
      against every prefix. */
  function HeaderAfter(lines: seq<string>, prefixes: seq<(string, string)>): map<string, string>
  {
    if lines == [] then map[]
    else
      var h := HeaderAfter(lines[..|lines| - 1], prefixes);
      var line := lines[|lines| - 1];
      if line == "" then h else HeaderFrom(h, line, prefixes)
  }

  /** A `key_value` line body sets the attribute `key` when it is one of `UnitAttrs`. */
  function SetAttr(attrs: map<string, string>, body: string): (r: map<string, string>)
    ensures attrs.Keys <= UnitAttrs ==> r.Keys <= UnitAttrs
  {
    var kv := SplitN(body, '_', 1);
    if |kv| == 2 && kv[0] in UnitAttrs then attrs[kv[0] := kv[1]] else attrs
  }

  predicate IsBoundary(line: string)
  {
    StartsWith(line, "3_lsep") || StartsWith(line, "3_lbeg")
  }

  predicate IsSstr(line: string)
  {
    StartsWith(line, "2_sstrlot_") || StartsWith(line, "2_sstrwafer_") ||
    StartsWith(line, "2_sstrxloc_") || StartsWith(line, "2_sstryloc_")
  }

  /** `ult_lines[ssid].append(line)` with the list created on first use. */
  function AppendLine(d: Dict<string, seq<string>>, ssid: string, line: string): Dict<string, seq<string>>
  {
    match Get(d, ssid)
      case Some(ls) => Put(d, ssid, ls + [line])
      case None => Put(d, ssid, [line])
  }

  /** The unit in progress, finished. */
  function Close(attrs: map<string, string>, ultLines: Dict<string, seq<string>>, tnames: Dict<string, string>): Unit
  {
    Unit(attrs, UltResults(ultLines), tnames)
  }

  /** The branch of the unit scan a line takes: the first of the line tests, in order,
      that the line's prefix passes (whether a unit is in progress is looked at by `Step`). */
  datatype Kind = Blank | Boundary | Attr3 | Visualid | Tname | Strgalt | Sstr | Level2 | Other

  function KindOf(line: string): Kind
  {
    if line == "" then Blank
    else if IsBoundary(line) then Boundary
    else if StartsWith(line, "3_") then Attr3
    else if StartsWith(line, "2_visualid_") then Visualid
    else if StartsWith(line, "2_tname_") then Tname
    else if StartsWith(line, "2_strgalt_fus_msbF_") then Strgalt
    else if IsSstr(line) then Sstr
    else if StartsWith(line, "2_") then Level2
    else Other
  }

  /** A line that passes a test before the `2_sstr*` one but needs a unit in progress for it
      fails the `2_sstr*` test, and a `2_strgalt_fus_msbF_` line passes the generic `2_` one. */
  lemma FallThrough(line: string)
    ensures KindOf(line) in {Attr3, Visualid, Tname, Strgalt} ==> !IsSstr(line)
    ensures KindOf(line) == Strgalt ==> StartsWith(line, "2_")
  {
    match KindOf(line)
      case Attr3 =>
        NotStarts(line, "2_sstrlot_", 0);
        NotStarts(line, "2_sstrwafer_", 0);
        NotStarts(line, "2_sstrxloc_", 0);
        NotStarts(line, "2_sstryloc_", 0);
      case Visualid =>
        NotStarts(line, "2_sstrlot_", 2);
        NotStarts(line, "2_sstrwafer_", 2);
        NotStarts(line, "2_sstrxloc_", 2);
        NotStarts(line, "2_sstryloc_", 2);
      case Tname =>
        NotStarts(line, "2_sstrlot_", 2);
        NotStarts(line, "2_sstrwafer_", 2);
        NotStarts(line, "2_sstrxloc_", 2);
        NotStarts(line, "2_sstryloc_", 2);
      case Strgalt =>
        NotStarts(line, "2_sstrlot_", 3);
        NotStarts(line, "2_sstrwafer_", 3);
        NotStarts(line, "2_sstrxloc_", 3);
        NotStarts(line, "2_sstryloc_", 3);
        assert line[..2] == line[..19][..2];
      case _ =>
  }

  /** Python's `s[n:]`: empty when `s` is shorter than `n`. */
  function Tail(s: string, n: nat): (r: string)
    ensures |r| == if n <= |s| then |s| - n else 0
    ensures forall i :: 0 <= i < |r| ==> r[i] == s[n + i]
  {
    if n <= |s| then s[n..] else []
  }

  /** What one stripped line of kind `kind` does to the unit scan. A line whose branch needs a
      unit in progress falls through, when there is none, to branches its prefix cannot pass, so
      it changes nothing; a `2_strgalt_fus_msbF_` line with no test name pending falls through to
      the generic `2_` branch, which leaves the pending name alone for it. */
  function Step(st: Scan, line: string, kind: Kind, table: seq<Mapping>, search: Search): Scan
  {
    match kind
      case Boundary =>
        var units := if st.current.Some? then st.units + [Close(st.current.value, st.ultLines, st.tnames)] else st.units;
        Scan(units, Some(map[]), [], [], None)
      case Attr3 =>
        if st.current.Some? then st.(current := Some(SetAttr(st.current.value, Tail(line, 2)))) else st
      case Visualid =>
        if st.current.Some? then st.(current := Some(st.current.value["visualid" := Tail(line, 11)])) else st
      case Tname =>
        if st.current.None? then st
        else if FindSsidForTname(Tail(line, 8), table, search).Some? then
          st.(pending := Some(Tail(line, 8)), tnames := Put(st.tnames, Tail(line, 8), ""))
        else st.(pending := None)
      case Strgalt =>
        if st.current.None? then st
        else if st.pending.Some? && st.pending.value != "" then
          st.(tnames := Put(st.tnames, st.pending.value, Tail(line, 19)), pending := None)
        else st.(current := Some(SetAttr(st.current.value, Tail(line, 2))))
      case Sstr =>
        var r := ExtractSsidAndValue(line);
        if r.Some? && st.current.Some? then st.(ultLines := AppendLine(st.ultLines, r.value.0, line)) else st
      case Level2 =>
        if st.current.Some? then st.(current := Some(SetAttr(st.current.value, Tail(line, 2))), pending := None) else st
      case Blank => st
      case Other => st
  }

  /** The step the unit scan takes for a stripped line, with the lines classified by
      `classify` (the parser's classification is `KindOf`). */
  function LineStep(classify: string -> Kind, table: seq<Mapping>, search: Search): (Scan, string) -> Scan
  {
    (st: Scan, line: string) => Step(st, line, classify(line), table, search)
  }

  /** Each line of the file, stripped. */
  function StripAll(lines: seq<string>): (r: seq<string>)
    ensures |r| == |lines| && forall i :: 0 <= i < |lines| ==> r[i] == Strip(lines[i])
  {
    seq(|lines|, i requires 0 <= i < |lines| => Strip(lines[i]))
  }

  /** The scan after the stripped lines `lines`, each taken by `step`. */
  function RunWith(lines: seq<string>, step: (Scan, string) -> Scan): Scan
  {
    if lines == [] then Start else step(RunWith(lines[..|lines| - 1], step), lines[|lines| - 1])
  }

  function Run(lines: seq<string>, classify: string -> Kind, table: seq<Mapping>, search: Search): Scan
  {
    RunWith(lines, LineStep(classify, table, search))
  }

  /** The units at end of input: the last unit is finished too. */
  function Finish(st: Scan): seq<Unit>
  {
    if st.current.Some? then st.units + [Close(st.current.value, st.ultLines, st.tnames)] else st.units
  }

  /** The body of the line loop of `extract_itf_data`, for a non-blank stripped line, on the
      unit part of the state: the source's chain of tests, in order. */
  method ScanLine(st: Scan, line: string, table: seq<Mapping>, search: Search) returns (r: Scan)
    requires line != ""
    ensures r == Step(st, line, KindOf(line), table, search)
  {
    FallThrough(line);
    var units, current, ultLines, tnames, pending := st.units, st.current, st.ultLines, st.tnames, st.pending;
    if IsBoundary(line) {
      if current.Some? {
        var ult := ParseUltDataForUnit(ultLines);
        units := units + [Unit(current.value, ult, tnames)];
      }
      current := Some(map[]);
      ultLines := [];
      tnames := [];
      pending := None;
    } else if StartsWith(line, "3_") && current.Some? {
      current := Some(SetAttr(current.value, line[2..]));
    } else if StartsWith(line, "2_visualid_") && current.Some? {
      current := Some(current.value["visualid" := line[11..]]);
    } else if StartsWith(line, "2_tname_") && current.Some? {
      var tname := line[8..];
      if FindSsidForTname(tname, table, search).Some? {
        pending := Some(tname);
        tnames := Put(tnames, tname, "");
      } else {
        pending := None;
      }
    } else if StartsWith(line, "2_strgalt_fus_msbF_") && pending.Some? && pending.value != "" && current.Some? {
      tnames := Put(tnames, pending.value, line[19..]);
      pending := None;
    } else if IsSstr(line) {
      var x := ExtractSsidAndValue(line);
      if x.Some? && current.Some? {
        ultLines := AppendLine(ultLines, x.value.0, line);
      }
    } else if StartsWith(line, "2_") && current.Some? {
      current := Some(SetAttr(current.value, line[2..]));
      if !StartsWith(line, "2_strgalt_fus_msbF_") && !StartsWith(line, "2_tname_") {
        pending := None;
      }
    }
    r := Scan(units, current, ultLines, tnames, pending);
  }

  /** `extract_itf_data` over the lines of the file, with the SSID table and regular
      expression search of the parser. */
  method ExtractItfData(lines: seq<string>, table: seq<Mapping>, search: Search)
    returns (header: map<string, string>, units: seq<Unit>)
    ensures header == HeaderAfter(StripAll(lines), HeaderPrefixes)
    ensures units == Finish(Run(StripAll(lines), KindOf, table, search))
  {
    header := map[];
    var st := Start;
    ghost var ls := StripAll(lines);
    var k := 0;
    while k < |lines|
      invariant k <= |lines|
      invariant header == HeaderAfter(ls[..k], HeaderPrefixes)
      invariant st == Run(ls[..k], KindOf, table, search)
    {
      header, st := ExtractLine(lines, k, header, st, table, search);
      k := k + 1;
    }
    assert ls[..k] == ls;
    units := st.units;
    if st.current.Some? {
      var ult := ParseUltDataForUnit(st.ultLines);
      units := units + [Unit(st.current.value, ult, st.tnames)];
    }
  }

  /** One pass of the line loop of `extract_itf_data`: the stripped line `k`, unless blank,
      goes through the header prefixes and the unit scan. */
  method ExtractLine(lines: seq<string>, k: nat, header: map<string, string>, st: Scan, table: seq<Mapping>, search: Search)
    returns (header': map<string, string>, st': Scan)
    requires k < |lines|
    requires header == HeaderAfter(StripAll(lines)[..k], HeaderPrefixes)
    requires st == Run(StripAll(lines)[..k], KindOf, table, search)
    ensures header' == HeaderAfter(StripAll(lines)[..k + 1], HeaderPrefixes)
    ensures st' == Run(StripAll(lines)[..k + 1], KindOf, table, search)
  {
    var line := Strip(lines[k]);
    header', st' := header, st;
    if line != "" {
      header' := HeaderFrom(header, line, HeaderPrefixes);
      st' := ScanLine(st, line, table, search);
    }
    NextLine(StripAll(lines), k, header, header', st, st', table, search);
  }

  /** `m.get(k)` */
  function MapGet(m: map<string, string>, k: string): Option<string>
  {
    if k in m then Some(m[k]) else None
  }

  /** One header prefix sets its own field and no other. */
  lemma {:induction false} HeaderFromKey(h: map<string, string>, line: string, prefixes: seq<(string, string)>, i: nat)
    requires i < |prefixes|
    requires forall a, b :: 0 <= a < b < |prefixes| ==> prefixes[a].1 != prefixes[b].1
    ensures MapGet(HeaderFrom(h, line, prefixes), prefixes[i].1) ==
      if StartsWith(line, prefixes[i].0) then Some(line[|prefixes[i].0|..]) else MapGet(h, prefixes[i].1)
    decreases |prefixes|
  {
    var (prefix, key) := prefixes[0];
    var h' := if StartsWith(line, prefix) then h[key := line[|prefix|..]] else h;
    if i == 0 {
      HeaderFromAbsent(h', line, prefixes[1..], key);
    } else {
      HeaderFromKey(h', line, prefixes[1..], i - 1);
    }
  }

  lemma {:induction false} HeaderFromAbsent(h: map<string, string>, line: string, prefixes: seq<(string, string)>, key: string)
    requires forall a :: 0 <= a < |prefixes| ==> prefixes[a].1 != key
    ensures MapGet(HeaderFrom(h, line, prefixes), key) == MapGet(h, key)
    decreases |prefixes|
  {
    if prefixes != [] {
      var (prefix, k) := prefixes[0];
      var h' := if StartsWith(line, prefix) then h[k := line[|prefix|..]] else h;
      HeaderFromAbsent(h', line, prefixes[1..], key);
    }
  }

  lemma HeaderKeysDistinct()
    ensures forall a, b :: 0 <= a < b < |HeaderPrefixes| ==> HeaderPrefixes[a].1 != HeaderPrefixes[b].1
  {
  }

  lemma HeaderLine(lines: seq<string>, k: nat, prefixes: seq<(string, string)>)
    requires k < |lines|
    ensures HeaderAfter(lines[..k + 1], prefixes) ==
      var h := HeaderAfter(lines[..k], prefixes);
      if lines[k] == "" then h else HeaderFrom(h, lines[k], prefixes)
  {
    assert lines[..k + 1][..k] == lines[..k];
  }

  /** The index of the last line that starts with `p`, if any. */
  function LastStarting(lines: seq<string>, p: string): (r: Option<nat>)
    ensures r.Some? ==> r.value < |lines| && StartsWith(lines[r.value], p)
    ensures forall j :: (if r.Some? then r.value + 1 else 0) <= j < |lines| ==> !StartsWith(lines[j], p)
  {
    if lines == [] then None
    else if StartsWith(lines[|lines| - 1], p) then Some(|lines| - 1)
    else LastStarting(lines[..|lines| - 1], p)
  }

  /** A header field holds the rest of the last line that starts with its prefix, and is
      unset (`None`) when no line does. */
  lemma {:induction false} HeaderLastWins(lines: seq<string>, prefixes: seq<(string, string)>, i: nat)
    requires forall a, b :: 0 <= a < b < |prefixes| ==> prefixes[a].1 != prefixes[b].1
    requires i < |prefixes| && prefixes[i].0 != ""
    ensures var last := LastStarting(lines, prefixes[i].0);
      MapGet(HeaderAfter(lines, prefixes), prefixes[i].1) ==
        if last.Some? then Some(lines[last.value][|prefixes[i].0|..]) else None
  {
    if lines != [] {
      var n := |lines|;
      var init := lines[..n - 1];
      HeaderLastWins(init, prefixes, i);
      var line := lines[n - 1];
      var last := LastStarting(init, prefixes[i].0);
      if last.Some? {
        assert init[last.value] == lines[last.value];
      }
      if line != "" {
        HeaderFromKey(HeaderAfter(init, prefixes), line, prefixes, i);
      }
    }
  }

  /** The same for the parser's header prefixes, whose fields are distinct. */
  lemma HeaderFieldLastWins(lines: seq<string>, i: nat)
    requires i < |HeaderPrefixes|
    ensures var last := LastStarting(lines, HeaderPrefixes[i].0);
      MapGet(HeaderAfter(lines, HeaderPrefixes), HeaderPrefixes[i].1) ==
        if last.Some? then Some(lines[last.value][|HeaderPrefixes[i].0|..]) else None
  {
    HeaderKeysDistinct();
    HeaderLastWins(lines, HeaderPrefixes, i);
  }

  /** The scan after `lines` is the scan after all but the last, stepped by the last. */
  lemma RunLast(lines: seq<string>, classify: string -> Kind, table: seq<Mapping>, search: Search)
    requires lines != []
    ensures Run(lines, classify, table, search) ==
      Step(Run(lines[..|lines| - 1], classify, table, search), lines[|lines| - 1], classify(lines[|lines| - 1]), table, search)
  {
  }

  lemma RunLine(lines: seq<string>, k: nat, classify: string -> Kind, table: seq<Mapping>, search: Search)
    requires k < |lines|
    ensures Run(lines[..k + 1], classify, table, search) ==
      Step(Run(lines[..k], classify, table, search), lines[k], classify(lines[k]), table, search)
  {
    assert lines[..k + 1][..k] == lines[..k];
    RunLast(lines[..k + 1], classify, table, search);
  }

  /** One turn of the line loop of `ExtractItfData` keeps its invariant. */
  lemma NextLine(ls: seq<string>, k: nat, h: map<string, string>, h': map<string, string>, st: Scan, st': Scan,
                 table: seq<Mapping>, search: Search)
    requires k < |ls|
    requires h == HeaderAfter(ls[..k], HeaderPrefixes) && st == Run(ls[..k], KindOf, table, search)
    requires h' == if ls[k] == "" then h else HeaderFrom(h, ls[k], HeaderPrefixes)
    requires st' == if ls[k] == "" then st else Step(st, ls[k], KindOf(ls[k]), table, search)
    ensures h' == HeaderAfter(ls[..k + 1], HeaderPrefixes) && st' == Run(ls[..k + 1], KindOf, table, search)
  {
    RunLine(ls, k, KindOf, table, search);
    HeaderLine(ls, k, HeaderPrefixes);
    if ls[k] == "" {
      assert KindOf(ls[k]) == Blank;
    }
  }

  /** Only unit boundaries are classified `Boundary`. */
  lemma BoundaryKind(line: string)
    ensures KindOf(line) == Boundary <==> IsBoundary(line)
  {
  }

  /** The number of lines that open a unit. */
  function Boundaries(lines: seq<string>, classify: string -> Kind): nat
  {
    if lines == [] then 0
    else Boundaries(lines[..|lines| - 1], classify) + (if classify(lines[|lines| - 1]) == Boundary then 1 else 0)
  }

  /** How a step changes the number of units and whether a unit is in progress. */
  lemma StepUnits(st: Scan, line: string, kind: Kind, table: seq<Mapping>, search: Search)
    ensures var st' := Step(st, line, kind, table, search);
      |st'.units| == |st.units| + (if kind == Boundary && st.current.Some? then 1 else 0) &&
      (st'.current.Some? <==> st.current.Some? || kind == Boundary)
  {
  }

  /** Every line that opens a unit gives one unit of the result, whatever it holds; no unit
      is returned without one. */
  lemma {:induction false} UnitCount(lines: seq<string>, classify: string -> Kind, table: seq<Mapping>, search: Search)
    ensures |Finish(Run(lines, classify, table, search))| == Boundaries(lines, classify)
  {
    RunUnits(lines, classify, table, search);
  }

  lemma {:induction false} RunUnits(lines: seq<string>, classify: string -> Kind, table: seq<Mapping>, search: Search)
    ensures var st := Run(lines, classify, table, search);
      |st.units| + (if st.current.Some? then 1 else 0) == Boundaries(lines, classify) &&
      (st.current.Some? <==> Boundaries(lines, classify) > 0)
  {
    if lines != [] {
      var n := |lines|;
      RunUnits(lines[..n - 1], classify, table, search);
      RunLast(lines, classify, table, search);
      StepUnits(Run(lines[..n - 1], classify, table, search), lines[n - 1], classify(lines[n - 1]), table, search);
    }
  }

  /** Unit attributes are always among `UnitAttrs`. */
  predicate AttrsWithin(st: Scan)
  {
    (st.current.Some? ==> st.current.value.Keys <= UnitAttrs) &&
    forall u :: u in st.units ==> u.attrs.Keys <= UnitAttrs
  }

  lemma StepAttrs(st: Scan, line: string, kind: Kind, table: seq<Mapping>, search: Search)
    requires AttrsWithin(st)
    ensures AttrsWithin(Step(st, line, kind, table, search))
  {
  }

  lemma {:induction false} RunAttrs(lines: seq<string>, classify: string -> Kind, table: seq<Mapping>, search: Search)
    ensures AttrsWithin(Run(lines, classify, table, search))
    ensures forall u :: u in Finish(Run(lines, classify, table, search)) ==> u.attrs.Keys <= UnitAttrs
  {
    if lines != [] {
      var n := |lines|;
      RunAttrs(lines[..n - 1], classify, table, search);
      RunLast(lines, classify, table, search);
      StepAttrs(Run(lines[..n - 1], classify, table, search), lines[n - 1], classify(lines[n - 1]), table, search);
    }
  }

  /** Lines that leave a pending test name pending: blank lines, `3_` lines other than unit
      boundaries, `2_visualid_` lines, `2_sstr*` lines and lines with no level 2 or 3 prefix. */
  predicate KeepsPending(kind: Kind)
  {
    kind in {Blank, Attr3, Visualid, Sstr, Other}
  }

  lemma StepKeepsPending(st: Scan, line: string, kind: Kind, table: seq<Mapping>, search: Search)
    requires st.current.Some? && KeepsPending(kind)
    ensures var st' := Step(st, line, kind, table, search);
      st'.current.Some? && st'.pending == st.pending && st'.tnames == st.tnames
  {
  }

  /** A boundary, a `2_tname_` line naming no table entry and a generic `2_` line clear the
      pending name. */
  lemma StepClearsPending(st: Scan, line: string, kind: Kind, table: seq<Mapping>, search: Search)
    requires st.current.Some?
    requires kind == Boundary || kind == Level2 ||
      (kind == Tname && FindSsidForTname(Tail(line, 8), table, search).None?)
    ensures Step(st, line, kind, table, search).pending.None?
  {
  }

  /** A `2_tname_` line naming a table entry makes that name pending, with an empty value. */
  lemma StepTname(st: Scan, line: string, table: seq<Mapping>, search: Search)
    requires st.current.Some? && FindSsidForTname(Tail(line, 8), table, search).Some?
    ensures var st' := Step(st, line, Tname, table, search);
      st'.current.Some? && st'.pending == Some(Tail(line, 8)) && st'.tnames == Put(st.tnames, Tail(line, 8), "")
  {
  }

  /** A `2_strgalt_fus_msbF_` line stores its text from column 19 under the pending name. */
  lemma StepStoresValue(st: Scan, line: string, table: seq<Mapping>, search: Search)
    requires st.current.Some? && st.pending.Some? && st.pending.value != ""
    ensures var st' := Step(st, line, Strgalt, table, search);
      st'.pending.None? && st'.tnames == Put(st.tnames, st.pending.value, Tail(line, 19))
  {
  }

  /** Lines that keep the pending name change neither it nor the recorded values. */
  lemma {:induction false} PendingKept(lines: seq<string>, classify: string -> Kind, table: seq<Mapping>, search: Search, i: nat, k: nat)
    requires i <= k <= |lines|
    requires Run(lines[..i], classify, table, search).current.Some?
    requires forall m :: i <= m < k ==> KeepsPending(classify(lines[m]))
    ensures var st, st' := Run(lines[..i], classify, table, search), Run(lines[..k], classify, table, search);
      st'.current.Some? && st'.pending == st.pending && st'.tnames == st.tnames
    decreases k
  {
    if k > i {
      PendingKept(lines, classify, table, search, i, k - 1);
      RunLine(lines, k - 1, classify, table, search);
      StepKeepsPending(Run(lines[..k - 1], classify, table, search), lines[k - 1], classify(lines[k - 1]), table, search);
    }
  }

  /** A `2_tname_` line naming a table entry, followed by lines that keep it pending and then a
      `2_strgalt_fus_msbF_` line, records the text of that line from column 19 as the value. */
  lemma TnameGetsValue(lines: seq<string>, classify: string -> Kind, table: seq<Mapping>, search: Search, i: nat, j: nat)
    requires i < j < |lines|
    requires Run(lines[..i], classify, table, search).current.Some?
    requires classify(lines[i]) == Tname && FindSsidForTname(Tail(lines[i], 8), table, search).Some?
    requires forall k :: i < k < j ==> KeepsPending(classify(lines[k]))
    requires classify(lines[j]) == Strgalt
    ensures Get(Run(lines[..j + 1], classify, table, search).tnames, Tail(lines[i], 8)) == Some(Tail(lines[j], 19))
    ensures Run(lines[..j + 1], classify, table, search).pending.None?
  {
    var t := Tail(lines[i], 8);
    assert t != "";
    RunLine(lines, i, classify, table, search);
    StepTname(Run(lines[..i], classify, table, search), lines[i], table, search);
    PendingKept(lines, classify, table, search, i + 1, j);
    RunLine(lines, j, classify, table, search);
    var st := Run(lines[..j], classify, table, search);
    StepStoresValue(st, lines[j], table, search);
    PutGet(st.tnames, t, Tail(lines[j], 19), t);
  }
}
