/** The line-level parts of `ITFParser`: test-name pattern matching and SSID lookup, the
    `_fdN` fragment suffix, and the ULT (lot, wafer, x, y) location of a unit. */
module ItfLines {
  import opened Text
  import opened Wrappers
  import opened Assoc

  /** `re.search(pattern, tname, re.IGNORECASE)` as a parameter of the model: whether the
      regular expression `pattern` matches somewhere in `tname`; false when `pattern` is not
      a valid regular expression (the `re.error` path). */
  type Search = (string, string) -> bool

  /** One row of the SSID mapping table. */
  datatype Mapping = Mapping(domain: string, register: string, ssid: string, patterns: seq<string>)

  predicate PatternMatches(tname: string, pattern: string, search: Search)
  {
    Contains(tname, pattern) || search(pattern, tname)
  }

  /** `match_tname_patterns`: false for an empty name; otherwise true iff some pattern is
      contained in the name or matches it as a regular expression. */
  function MatchTnamePatterns(tname: string, patterns: seq<string>, search: Search): (r: bool)
    ensures r <==> tname != "" && exists i :: 0 <= i < |patterns| && PatternMatches(tname, patterns[i], search)
  {
    if tname == "" || patterns == [] then false
    else if PatternMatches(tname, patterns[0], search) then true
    else
      var rest := MatchTnamePatterns(tname, patterns[1..], search);
      assert forall i :: 1 <= i < |patterns| ==> patterns[1..][i - 1] == patterns[i];
      rest
  }

  /** The index of the first table row whose patterns match `tname`, `|table|` if none. */
  function FirstMatch(tname: string, table: seq<Mapping>, search: Search): (i: nat)
    ensures i <= |table|
    ensures i < |table| ==> MatchTnamePatterns(tname, table[i].patterns, search)
    ensures forall j :: 0 <= j < i ==> !MatchTnamePatterns(tname, table[j].patterns, search)
  {
    if table == [] then 0
    else if MatchTnamePatterns(tname, table[0].patterns, search) then 0
    else 1 + FirstMatch(tname, table[1..], search)
  }

  /** `find_ssid_for_tname`: (domain, register, SSID) of the first matching row; `None` iff no
      row matches. */
  function FindSsidForTname(tname: string, table: seq<Mapping>, search: Search): (r: Option<(string, string, string)>)
    ensures r.None? <==> forall j :: 0 <= j < |table| ==> !MatchTnamePatterns(tname, table[j].patterns, search)
    ensures r.Some? ==> exists i :: (0 <= i < |table| && MatchTnamePatterns(tname, table[i].patterns, search) &&
      (forall j :: 0 <= j < i ==> !MatchTnamePatterns(tname, table[j].patterns, search)) &&
      r.value == (table[i].domain, table[i].register, table[i].ssid))
  {
    var i := FirstMatch(tname, table, search);
    if i < |table| then Some((table[i].domain, table[i].register, table[i].ssid)) else None
  }

  /** Where the run of ASCII digits that ends `s` starts. */
  function TrailingDigitsStart(s: string): (j: nat)
    ensures j <= |s|
    ensures forall k :: j <= k < |s| ==> IsDigit(s[k])
    ensures j > 0 ==> !IsDigit(s[j - 1])
  {
    if s == [] || !IsDigit(s[|s| - 1]) then |s| else TrailingDigitsStart(s[..|s| - 1])
  }

  /** Where the text matched by `_fd\d+$` starts, if it matches. */
  function FdSuffix(s: string): Option<nat>
  {
    var j := TrailingDigitsStart(s);
    if 3 <= j < |s| && s[j - 3..j] == "_fd" then Some(j - 3) else None
  }

  /** `_fd` followed by one or more digits ends `s` at `i`. */
  predicate FdSuffixAt(s: string, i: nat)
  {
    i + 3 < |s| && s[i..i + 3] == "_fd" && AllDigits(s[i + 3..])
  }

  /** `FdSuffix` finds `i` exactly when the `_fd` suffix is at `i`. */
  lemma FdSuffixSpec(s: string, i: nat)
    ensures FdSuffix(s) == Some(i) <==> FdSuffixAt(s, i)
  {
    var j := TrailingDigitsStart(s);
    if FdSuffixAt(s, i) {
      assert forall k :: i + 3 <= k < |s| ==> IsDigit(s[k]) by {
        forall k | i + 3 <= k < |s| ensures IsDigit(s[k]) {
          assert s[i + 3..][k - i - 3] == s[k];
        }
      }
      assert s[i + 2] == s[i..i + 3][2] == 'd';
      assert j == i + 3;
    }
  }

  /** `extract_base_tname`: the name without its `_fdN` suffix. */
  function ExtractBaseTname(tname: string): string
  {
    match FdSuffix(tname)
      case Some(i) => tname[..i]
      case None => tname
  }

  /** `extract_fd_number`: the number of the `_fdN` suffix, 0 without one. */
  function ExtractFdNumber(tname: string): nat
  {
    match FdSuffix(tname)
      case Some(i) => DecimalValue(tname[i + 3..])
      case None => 0
  }

  /** A name is its base, then `_fd` and the digits of its fragment number. */
  lemma FdSplit(tname: string)
    requires FdSuffix(tname).Some?
    ensures var i := FdSuffix(tname).value;
      tname == ExtractBaseTname(tname) + "_fd" + tname[i + 3..] && AllDigits(tname[i + 3..]) &&
      ExtractFdNumber(tname) == DecimalValue(tname[i + 3..])
  {
    var i := FdSuffix(tname).value;
    FdSuffixSpec(tname, i);
    assert tname == tname[..i] + tname[i..i + 3] + tname[i + 3..];
  }

  /** Naming fragment `n` of `base` and reading it back gives `base` and `n`. */
  lemma FdRoundTrip(base: string, n: nat)
    ensures ExtractBaseTname(base + "_fd" + DecimalString(n)) == base
    ensures ExtractFdNumber(base + "_fd" + DecimalString(n)) == n
  {
    var s := base + "_fd" + DecimalString(n);
    var i := |base|;
    assert s[i..i + 3] == "_fd" && s[i + 3..] == DecimalString(n);
    FdSuffixSpec(s, i);
    DecimalRoundTrip(n);
    assert s[..i] == base;
  }

  /** A name without an `_fdN` suffix is its own base and fragment 0. */
  lemma NoFdSuffix(tname: string)
    requires forall i: nat :: !FdSuffixAt(tname, i)
    ensures ExtractBaseTname(tname) == tname && ExtractFdNumber(tname) == 0
  {
    if FdSuffix(tname).Some? {
      FdSuffixSpec(tname, FdSuffix(tname).value);
    }
  }

  /** What `re.match(r'U1\.U\d+', part)` accepts: `U1.U` and a digit at the start. */
  predicate IsSsidPart(part: string)
  {
    |part| >= 5 && part[..4] == "U1.U" && IsDigit(part[4])
  }

  /** The first index from `k` of an SSID part that has a part after it, `|parts|` if none. */
  function FirstSsidPart(parts: seq<string>, k: nat): (i: nat)
    requires k <= |parts|
    ensures k <= i <= |parts|
    ensures i < |parts| ==> i + 1 < |parts| && IsSsidPart(parts[i])
    ensures forall j :: k <= j < i ==> !(j + 1 < |parts| && IsSsidPart(parts[j]))
    decreases |parts| - k
  {
    if k == |parts| then k
    else if IsSsidPart(parts[k]) && k + 1 < |parts| then k
    else FirstSsidPart(parts, k + 1)
  }

  /** `extract_ssid_and_value_from_line`: for a line of at least three `_` fields, the first
      SSID-like field that is not the last, and everything after it. */
  function ExtractSsidAndValue(line: string): Option<(string, string)>
  {
    if '_' in line then
      var parts := Split(line, '_');
      if |parts| >= 3 then
        var i := FirstSsidPart(parts, 0);
        if i < |parts| then Some((parts[i], Join(parts[i + 1..], "_"))) else None
      else None
    else None
  }

  /** The SSID found is SSID-like and free of `_`, and the line ends with the SSID, `_`, and
      the value. */
  lemma ExtractSsidAndValueSpec(line: string)
    requires ExtractSsidAndValue(line).Some?
    ensures var (ssid, value) := ExtractSsidAndValue(line).value;
      IsSsidPart(ssid) && '_' !in ssid && EndsWith(line, ssid + ("_" + value))
  {
    var parts := Split(line, '_');
    var i := FirstSsidPart(parts, 0);
    JoinSplit(line, '_');
    JoinAround(parts, i, "_");
  }

  /** Joined parts end with part `i`, the separator and the join of the parts after it. */
  lemma JoinAround(parts: seq<string>, i: nat, sep: string)
    requires i + 1 < |parts|
    ensures EndsWith(Join(parts, sep), parts[i] + (sep + Join(parts[i + 1..], sep)))
  {
    var value := Join(parts[i + 1..], sep);
    assert parts == parts[..i] + ([parts[i]] + parts[i + 1..]);
    JoinConcat([parts[i]], parts[i + 1..], sep);
    assert Join([parts[i]], sep) == parts[i];
    if i == 0 {
      assert parts == [parts[i]] + parts[i + 1..];
      assert Join(parts, sep) == parts[i] + (sep + value);
    } else {
      JoinConcat(parts[..i], [parts[i]] + parts[i + 1..], sep);
      var pre := Join(parts[..i], sep) + sep;
      AppendAssoc(Join(parts[..i], sep), sep, parts[i] + (sep + value));
      assert Join(parts, sep) == pre + (parts[i] + (sep + value));
      var t := parts[i] + (sep + value);
      assert Join(parts, sep)[|Join(parts, sep)| - |t|..] == t;
    }
  }

  /** Joining two non-empty lists is joining each and putting the separator between. */
  lemma {:induction false} JoinConcat(a: seq<string>, b: seq<string>, sep: string)
    requires a != [] && b != []
    ensures Join(a + b, sep) == Join(a, sep) + (sep + Join(b, sep))
    decreases |a|
  {
    if |a| == 1 {
      assert (a + b)[1..] == b;
    } else {
      assert (a + b)[1..] == a[1..] + b;
      JoinConcat(a[1..], b, sep);
    }
  }

  /** The ULT field a line sets (0 lot, 1 wafer, 2 x, 3 y) and its value: a line with a
      non-empty value sets the first field whose marker it contains. */
  function Slot(line: string): Option<(nat, string)>
  {
    match ExtractSsidAndValue(line)
      case None => None
      case Some((_, value)) =>
        if value == "" then None
        else if Contains(line, "sstrlot_") then Some((0, value))
        else if Contains(line, "sstrwafer_") then Some((1, value))
        else if Contains(line, "sstrxloc_") then Some((2, value))
        else if Contains(line, "sstryloc_") then Some((3, value))
        else None
  }

  /** The fields `slot` says `lines` set, each by the last line that sets it. */
  function FieldsBy(lines: seq<string>, slot: string -> Option<(nat, string)>): map<nat, string>
  {
    if lines == [] then map[]
    else
      var f := FieldsBy(lines[..|lines| - 1], slot);
      match slot(lines[|lines| - 1])
        case Some((n, v)) => f[n := v]
        case None => f
  }

  /** The ULT fields set by `lines`. */
  function UltFieldsOf(lines: seq<string>): map<nat, string>
  {
    FieldsBy(lines, Slot)
  }

  predicate SetsField(slot: string -> Option<(nat, string)>, line: string, n: nat)
  {
    slot(line).Some? && slot(line).value.0 == n
  }

  /** A field is set iff some line sets it. */
  lemma {:induction false} FieldsByKeys(lines: seq<string>, slot: string -> Option<(nat, string)>, n: nat)
    ensures n in FieldsBy(lines, slot) <==> exists k :: 0 <= k < |lines| && SetsField(slot, lines[k], n)
  {
    if lines != [] {
      var init := lines[..|lines| - 1];
      FieldsByKeys(init, slot, n);
      assert forall k :: 0 <= k < |init| ==> init[k] == lines[k];
    }
  }

  /** A set field has the value the last line setting it gives. */
  lemma {:induction false} FieldsByLastWins(lines: seq<string>, slot: string -> Option<(nat, string)>, n: nat, k: nat)
    requires k < |lines| && SetsField(slot, lines[k], n)
    requires forall j :: k < j < |lines| ==> !SetsField(slot, lines[j], n)
    ensures n in FieldsBy(lines, slot) && FieldsBy(lines, slot)[n] == slot(lines[k]).value.1
  {
    var init := lines[..|lines| - 1];
    if k < |lines| - 1 {
      assert forall j :: k < j < |init| ==> init[j] == lines[j];
      FieldsByLastWins(init, slot, n, k);
    }
  }

  /** The ULT fields: a field is set iff some line sets it, and then to what the last such
      line gives. */
  lemma UltFieldLastWins(lines: seq<string>, n: nat, k: nat)
    requires k < |lines| && SetsField(Slot, lines[k], n)
    requires forall j :: k < j < |lines| ==> !SetsField(Slot, lines[j], n)
    ensures n in UltFieldsOf(lines) && UltFieldsOf(lines)[n] == Slot(lines[k]).value.1
  {
    FieldsByLastWins(lines, Slot, n, k);
  }

  function FieldOr(f: map<nat, string>, n: nat): string
  {
    if n in f then f[n] else ""
  }

  /** The ULT string of one SSID: lot, wafer, x and y joined with `_`, a missing field as `''`;
      `None` when no field is set. */
  function UltString(f: map<nat, string>): Option<string>
  {
    if 0 in f || 1 in f || 2 in f || 3 in f then
      Some(FieldOr(f, 0) + "_" + FieldOr(f, 1) + "_" + FieldOr(f, 2) + "_" + FieldOr(f, 3))
    else None
  }

  /** The ULT string of the lines of one SSID. */
  function UltOf(lines: seq<string>): Option<string>
  {
    UltString(UltFieldsOf(lines))
  }

  /** A unit has a ULT string for an SSID iff one of its lines sets a field. */
  lemma UltOfSome(lines: seq<string>)
    ensures UltOf(lines).Some? <==> exists k :: 0 <= k < |lines| && Slot(lines[k]).Some?
  {
    var f := UltFieldsOf(lines);
    forall n: nat ensures n in f <==> exists k :: 0 <= k < |lines| && SetsField(Slot, lines[k], n) {
      FieldsByKeys(lines, Slot, n);
    }
    if exists k :: 0 <= k < |lines| && Slot(lines[k]).Some? {
      var k :| 0 <= k < |lines| && Slot(lines[k]).Some?;
      assert SetsField(Slot, lines[k], Slot(lines[k]).value.0);
    }
  }

  /** The results `ult` gives for the entries, in entry order, leaving out entries it gives
      nothing for. */
  function ResultsBy(entries: Dict<string, seq<string>>, ult: seq<string> -> Option<string>): Dict<string, string>
  {
    if entries == [] then []
    else
      var init := ResultsBy(entries[..|entries| - 1], ult);
      var (ssid, lines) := entries[|entries| - 1];
      match ult(lines)
        case Some(u) => Put(init, ssid, u)
        case None => init
  }

  /** The ULT strings of the SSIDs in `entries`. */
  function UltResults(entries: Dict<string, seq<string>>): Dict<string, string>
  {
    ResultsBy(entries, UltOf)
  }

  /** The inner loop of `parse_ult_data_for_unit`: the four fields the lines of one SSID set. */
  method ScanUltLines(lines: seq<string>) returns (lot: Option<string>, wafer: Option<string>, xloc: Option<string>, yloc: Option<string>)
    ensures var f := UltFieldsOf(lines);
      lot == FieldOpt(f, 0) && wafer == FieldOpt(f, 1) && xloc == FieldOpt(f, 2) && yloc == FieldOpt(f, 3)
  {
    lot, wafer, xloc, yloc := None, None, None, None;
    var k := 0;
    while k < |lines|
      invariant k <= |lines|
      invariant var f := UltFieldsOf(lines[..k]);
        lot == FieldOpt(f, 0) && wafer == FieldOpt(f, 1) && xloc == FieldOpt(f, 2) && yloc == FieldOpt(f, 3)
    {
      var line := lines[k];
      assert lines[..k + 1][..k] == lines[..k];
      var r := ExtractSsidAndValue(line);
      if r.Some? && r.value.1 != "" {
        var value := r.value.1;
        if Contains(line, "sstrlot_") {
          lot := Some(value);
        } else if Contains(line, "sstrwafer_") {
          wafer := Some(value);
        } else if Contains(line, "sstrxloc_") {
          xloc := Some(value);
        } else if Contains(line, "sstryloc_") {
          yloc := Some(value);
        }
      }
      k := k + 1;
    }
    assert lines[..k] == lines;
  }

  /** Field `n` of `f`, `None` when unset. */
  function FieldOpt(f: map<nat, string>, n: nat): Option<string>
  {
    if n in f then Some(f[n]) else None
  }

  /** `parse_ult_data_for_unit` */
  method ParseUltDataForUnit(ultLinesBySsid: Dict<string, seq<string>>) returns (ultResults: Dict<string, string>)
    ensures ultResults == UltResults(ultLinesBySsid)
  {
    ultResults := [];
    var e := 0;
    while e < |ultLinesBySsid|
      invariant e <= |ultLinesBySsid|
      invariant ultResults == UltResults(ultLinesBySsid[..e])
    {
      var (ssid, lines) := ultLinesBySsid[e];
      assert ultLinesBySsid[..e + 1][..e] == ultLinesBySsid[..e];
      var lot, wafer, xloc, yloc := ScanUltLines(lines);
      if lot.Some? && wafer.Some? && xloc.Some? && yloc.Some? {
        ultResults := Put(ultResults, ssid, lot.value + "_" + wafer.value + "_" + xloc.value + "_" + yloc.value);
      } else if lot.Some? || wafer.Some? || xloc.Some? || yloc.Some? {
        var parts := [OrEmpty(lot), OrEmpty(wafer), OrEmpty(xloc), OrEmpty(yloc)];
        ultResults := Put(ultResults, ssid, parts[0] + "_" + parts[1] + "_" + parts[2] + "_" + parts[3]);
      }
      e := e + 1;
    }
    assert ultLinesBySsid[..e] == ultLinesBySsid;
  }

  function OrEmpty(o: Option<string>): string
  {
    if o.Some? then o.value else ""
  }

  /** An SSID of distinct-keyed input has a result iff `ult` gives one for its lines. */
  lemma {:induction false} ResultsByKeys(entries: Dict<string, seq<string>>, ult: seq<string> -> Option<string>, ssid: string, lines: seq<string>)
    requires DistinctKeys(entries) && (ssid, lines) in entries
    ensures HasKey(ResultsBy(entries, ult), ssid) <==> ult(lines).Some?
  {
    var n := |entries|;
    var init := entries[..n - 1];
    assert DistinctKeys(init);
    var r0 := ResultsBy(init, ult);
    var (s, ls) := entries[n - 1];
    GetSpec(r0, ssid);
    if (ssid, lines) in init {
      ResultsByKeys(init, ult, ssid, lines);
      assert ssid != s by {
        var i :| 0 <= i < |init| && init[i] == (ssid, lines);
        assert entries[i].0 != entries[n - 1].0;
      }
    } else {
      assert entries[n - 1] == (ssid, lines);
      ResultsByMissing(init, ult, ssid);
    }
    if ult(ls).Some? {
      PutGet(r0, s, ult(ls).value, ssid);
      GetSpec(Put(r0, s, ult(ls).value), ssid);
    }
  }

  lemma {:induction false} ResultsByMissing(entries: Dict<string, seq<string>>, ult: seq<string> -> Option<string>, ssid: string)
    requires !HasKey(entries, ssid)
    ensures !HasKey(ResultsBy(entries, ult), ssid)
  {
    if entries != [] {
      var n := |entries|;
      var init := entries[..n - 1];
      assert !HasKey(init, ssid) by {
        assert forall i :: 0 <= i < |init| ==> init[i] == entries[i];
      }
      ResultsByMissing(init, ult, ssid);
      var r0 := ResultsBy(init, ult);
      GetSpec(r0, ssid);
      var (s, ls) := entries[n - 1];
      if ult(ls).Some? {
        PutGet(r0, s, ult(ls).value, ssid);
        GetSpec(Put(r0, s, ult(ls).value), ssid);
      }
    }
  }

  /** `parse_ult_data_for_unit` gives an SSID a ULT string iff one of its lines sets a field. */
  lemma UltResultsKeys(entries: Dict<string, seq<string>>, ssid: string, lines: seq<string>)
    requires DistinctKeys(entries) && (ssid, lines) in entries
    ensures HasKey(UltResults(entries), ssid) <==> exists k :: 0 <= k < |lines| && Slot(lines[k]).Some?
  {
    ResultsByKeys(entries, UltOf, ssid, lines);
    UltOfSome(lines);
  }
}
