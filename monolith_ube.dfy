/** The monolith's `parse_ube_file_optimized`: a state machine over the lines of a UBE file (as
    the line reader yields them, already stripped). A `UNIT,` line opens a unit, a line ending
    in `:` names its ULT, and every other line with a comma is `ref_level,first_socket_upload,`
    followed by `name=value` tokens, one entry per token. */
module MonolithUbe {
  import opened Text
  import opened Wrappers

  /** One entry of `ube_data`. The MDPOSITION is `None` where the source stores Python's
      `None`: a `WFR` row read before any `MDPOSITION=` in its unit. */
  datatype UbeEntry = UbeEntry(visualId: string, ult: string, refLevel: string, firstSocketUpload: string,
                               tokenName: string, tokenValue: string, mdposition: Option<string>)

  /** `current_visual_id`, `current_ult` and `current_mdposition`. */
  datatype ParserState = ParserState(visualId: Option<string>, ult: Option<string>, mdposition: Option<string>)

  const Start := ParserState(None, None, None)

  // ---------------------------------------------------------------------------------------
  // The two regular expressions

  const MdPrefix := "MDPOSITION="

  /** `MDPOSITION=([^,]+)` matches at `p`: the prefix, then at least one character that is not
      a comma. */
  predicate MdAt(s: string, p: nat)
  {
    p + |MdPrefix| < |s| && s[p..p + |MdPrefix|] == MdPrefix && s[p + |MdPrefix|] != ','
  }

  /** The group of a match at `p`: the longest run of non-commas after the prefix. */
  function MdValueAt(s: string, p: nat): string
    requires p + |MdPrefix| <= |s|
  {
    var rest := s[p + |MdPrefix|..];
    rest[..FindChar(rest, ',')]
  }

  /** `MDPOSITION_PATTERN.search(s)` from position `p` on. */
  function MdSearchFrom(s: string, p: nat): Option<string>
    decreases |s| - p
  {
    if p + |MdPrefix| >= |s| then None
    else if MdAt(s, p) then Some(MdValueAt(s, p))
    else MdSearchFrom(s, p + 1)
  }

  /** `MDPOSITION_PATTERN.search(line).group(1)`, if any. */
  function MdSearch(line: string): Option<string>
  {
    MdSearchFrom(line, 0)
  }

  /** The search finds the leftmost match, its group is non-empty and holds no comma, and there
      is no match at all when it finds none. */
  lemma MdSearchFromSpec(s: string, p: nat)
    ensures MdSearchFrom(s, p).Some? ==>
      exists q :: p <= q && MdAt(s, q) && MdSearchFrom(s, p).value == MdValueAt(s, q) &&
        forall q' :: p <= q' < q ==> !MdAt(s, q')
    ensures MdSearchFrom(s, p).None? ==> forall q :: p <= q ==> !MdAt(s, q)
    ensures MdSearchFrom(s, p).Some? ==> MdSearchFrom(s, p).value != "" && ',' !in MdSearchFrom(s, p).value
  {
    MdSearchFound(s, p);
    MdSearchNone(s, p);
  }

  lemma {:induction false} MdSearchFound(s: string, p: nat)
    ensures MdSearchFrom(s, p).Some? ==>
      exists q :: p <= q && MdAt(s, q) && MdSearchFrom(s, p).value == MdValueAt(s, q) &&
        forall q' :: p <= q' < q ==> !MdAt(s, q')
    ensures MdSearchFrom(s, p).Some? ==> MdSearchFrom(s, p).value != "" && ',' !in MdSearchFrom(s, p).value
    decreases |s| - p
  {
    if p + |MdPrefix| < |s| && !MdAt(s, p) {
      MdSearchFound(s, p + 1);
    } else if MdAt(s, p) {
      var rest := s[p + |MdPrefix|..];
      assert rest[0] != ',';
    }
  }

  lemma {:induction false} MdSearchNone(s: string, p: nat)
    ensures MdSearchFrom(s, p).None? ==> forall q :: p <= q ==> !MdAt(s, q)
    decreases |s| - p
  {
    if p + |MdPrefix| < |s| && !MdAt(s, p) {
      MdSearchNone(s, p + 1);
    }
  }

  /** `TOKEN_PATTERN.match(part)` for `([^=]+)=(.+)`: a non-empty run without `=`, then the
      first `=`, then at least one character up to the first newline. */
  function TokenPattern(part: string): Option<(string, string)>
  {
    var i := FindChar(part, '=');
    if i == 0 || i == |part| then None
    else
      var rest := part[i + 1..];
      var value := rest[..FindChar(rest, '\n')];
      if value == "" then None else Some((part[..i], value))
  }

  /** A stripped token part: blank parts and `MDPOSITION=` parts are skipped, the others give
      their stripped name and value when the pattern matches. */
  function TokenOf(part: string): Option<(string, string)>
  {
    if part == "" || StartsWith(part, MdPrefix) then None
    else
      match TokenPattern(part)
      case Some((name, value)) => Some((Strip(name), Strip(value)))
      case None => None
  }

  /** A raw token piece, stripped first. */
  function PieceToken(piece: string): Option<(string, string)>
  {
    TokenOf(Strip(piece))
  }

  /** Without a newline, the pattern matches iff the part has an `=` that is neither its first
      nor its last character, and its groups are the text before and after the first `=`. */
  lemma TokenPatternSpec(part: string)
    requires '\n' !in part
    ensures var i := FindChar(part, '=');
      TokenPattern(part).Some? <==> 0 < i < |part| - 1
    ensures var i := FindChar(part, '=');
      TokenPattern(part).Some? ==> 0 < i < |part| - 1 && TokenPattern(part).value == (part[..i], part[i + 1..])
  {
    var i := FindChar(part, '=');
    if 0 < i < |part| {
      var rest := part[i + 1..];
      FindAbsent(rest, '\n');
      assert rest[..|rest|] == rest;
      assert TokenPattern(part) == if rest == "" then None else Some((part[..i], rest));
    }
  }

  /** The search for an absent character runs to the end. */
  lemma FindAbsent(s: string, c: char)
    requires c !in s
    ensures FindChar(s, c) == |s|
  {
  }

  /** A string whose first and last characters are not whitespace has a non-empty strip. */
  lemma StripNonEmpty(s: string)
    requires s != [] && !IsSpace(s[0])
    ensures Strip(s) != []
  {
    StripKeeps(s, 0);
  }

  /** A stripped part without a newline has a token iff it is not blank, is not an
      `MDPOSITION=` part, and has an `=` that is neither its first nor its last character. */
  lemma TokenOfExists(part: string)
    requires '\n' !in part
    ensures var i := FindChar(part, '=');
      TokenOf(part).Some? <==> part != "" && !StartsWith(part, MdPrefix) && 0 < i < |part| - 1
  {
    TokenPatternSpec(part);
  }

  /** The token of a stripped part without a newline is the stripped text before its first `=`
      and the stripped text after it; neither is empty and the name holds no `=`. */
  lemma TokenOfValue(part: string)
    requires part == [] || (!IsSpace(part[0]) && !IsSpace(part[|part| - 1]))
    requires '\n' !in part
    requires TokenOf(part).Some?
    ensures var i := FindChar(part, '=');
      0 < i < |part| - 1 && TokenOf(part).value == (Strip(part[..i]), Strip(part[i + 1..])) &&
      TokenOf(part).value.0 != "" && TokenOf(part).value.1 != "" && '=' !in part[..i]
  {
    TokenGroups(part);
    var i := FindChar(part, '=');
    NameShape(part, i);
    ValueShape(part, i);
  }

  /** The groups of a matching token: the stripped text around the first `=`. */
  lemma TokenGroups(part: string)
    requires '\n' !in part
    requires TokenOf(part).Some?
    ensures var i := FindChar(part, '=');
      0 < i < |part| - 1 && TokenOf(part).value == (Strip(part[..i]), Strip(part[i + 1..]))
  {
    TokenPatternSpec(part);
  }

  lemma NameShape(part: string, i: nat)
    requires 0 < i <= |part| && !IsSpace(part[0])
    requires i == FindChar(part, '=')
    ensures Strip(part[..i]) != "" && '=' !in part[..i]
  {
    var name := part[..i];
    assert name[0] == part[0];
    StripNonEmpty(name);
  }

  lemma ValueShape(part: string, i: nat)
    requires i < |part| - 1 && !IsSpace(part[|part| - 1])
    ensures Strip(part[i + 1..]) != ""
  {
    var value := part[i + 1..];
    assert value[|value| - 1] == part[|part| - 1];
    StripKeeps(value, |value| - 1);
  }

  // ---------------------------------------------------------------------------------------
  // One line

  datatype LineKind = Blank | UnitLine | HeaderLine | DataLine

  /** The branches of the loop body, in their order. */
  function KindOf(line: string): LineKind
  {
    if line == "" then Blank
    else if StartsWith(line, "UNIT,") then UnitLine
    else if EndsWith(line, ":") then HeaderLine
    else DataLine
  }

  /** The visual id of a `UNIT,` line. */
  function UnitId(line: string): string
  {
    if |line| >= 5 then Strip(line[5..]) else ""
  }

  /** The ULT of a header line. */
  function HeaderUlt(line: string): string
  {
    if line != "" then Strip(line[..|line| - 1]) else ""
  }

  /** `current_ult or 'N/A'` */
  function UltText(ult: Option<string>): string
  {
    if ult.None? || ult.value == "" then "N/A" else ult.value
  }

  /** How a line is read: its kind, the visual id of a unit line, the ULT of a header and the
      MDPOSITION a data line carries. */
  datatype Reader = Reader(classify: string -> LineKind, unitId: string -> string, headerUlt: string -> string,
                           mdOf: string -> Option<string>)

  /** The reader of `parse_ube_file_optimized`. */
  const Ube := Reader(KindOf, UnitId, HeaderUlt, MdSearch)

  /** The state after a line: a `UNIT,` line opens a unit with no ULT and no MDPOSITION, a header
      sets the ULT and clears the MDPOSITION, a data line picks up an `MDPOSITION=` if it has
      one. */
  function Advance(st: ParserState, line: string, r: Reader): ParserState
  {
    match r.classify(line)
    case Blank => st
    case UnitLine => ParserState(Some(r.unitId(line)), None, None)
    case HeaderLine => st.(ult := Some(r.headerUlt(line)), mdposition := None)
    case DataLine => if r.mdOf(line).Some? then st.(mdposition := r.mdOf(line)) else st
  }

  /** The entry of one token, if any: the template with the token's name and value. */
  function TokenRow(template: UbeEntry, token: Option<(string, string)>): seq<UbeEntry>
  {
    match token
    case Some((name, value)) => [template.(tokenName := name, tokenValue := value)]
    case None => []
  }

  /** The entries of the token pieces, each from the template with its name and value. */
  function TokenEntries(pieces: seq<string>, template: UbeEntry, tokenOf: string -> Option<(string, string)>): seq<UbeEntry>
  {
    if pieces == [] then []
    else TokenEntries(pieces[..|pieces| - 1], template, tokenOf) + TokenRow(template, tokenOf(pieces[|pieces| - 1]))
  }

  /** The entries of a data line split at its first two commas, for the unit's visual id, the
      ULT text and the current MDPOSITION: one per token of the third field, the MDPOSITION kept
      only for the level `WFR`. */
  function LineEntries(parts: seq<string>, visualId: string, ult: string, md: Option<string>): seq<UbeEntry>
  {
    if |parts| < 3 then []
    else
      var refLevel := Strip(parts[0]);
      var mdUsed := if refLevel == "WFR" then md else Some("");
      TokenEntries(Split(parts[2], ','), UbeEntry(visualId, ult, refLevel, Strip(parts[1]), "", "", mdUsed), PieceToken)
  }

  /** The entries a line emits in state `st` (the state before the line): none but for a data
      line with a comma inside a unit. */
  function Emitted(st: ParserState, line: string): seq<UbeEntry>
  {
    if KindOf(line) != DataLine || st.visualId.None? || st.visualId.value == "" || ',' !in line then []
    else LineEntries(SplitN(line, ',', 2), st.visualId.value, UltText(st.ult), Advance(st, line, Ube).mdposition)
  }

  // ---------------------------------------------------------------------------------------
  // The whole file

  function StateAfter(lines: seq<string>, r: Reader): ParserState
  {
    if lines == [] then Start
    else Advance(StateAfter(lines[..|lines| - 1], r), lines[|lines| - 1], r)
  }

  /** The entries of the lines, each line's entries emitted from the state before it. */
  function Entries(lines: seq<string>, r: Reader, emit: (ParserState, string) -> seq<UbeEntry>): seq<UbeEntry>
  {
    if lines == [] then []
    else
      var n := |lines| - 1;
      Entries(lines[..n], r, emit) + emit(StateAfter(lines[..n], r), lines[n])
  }

  /** What `parse_ube_file_optimized` returns for the lines of a file. */
  function UbeData(lines: seq<string>): seq<UbeEntry>
  {
    Entries(lines, Ube, Emitted)
  }

  lemma RunNext(lines: seq<string>, r: Reader, emit: (ParserState, string) -> seq<UbeEntry>, i: nat)
    requires i < |lines|
    ensures StateAfter(lines[..i + 1], r) == Advance(StateAfter(lines[..i], r), lines[i], r)
    ensures Entries(lines[..i + 1], r, emit) == Entries(lines[..i], r, emit) + emit(StateAfter(lines[..i], r), lines[i])
  {
    assert lines[..i + 1][..i] == lines[..i];
  }

  // ---------------------------------------------------------------------------------------
  // What the state and the entries are

  /** Line `j` is the last line whose kind is one of `kinds`. */
  predicate LastKind(lines: seq<string>, r: Reader, kinds: set<LineKind>, j: int)
  {
    0 <= j < |lines| && r.classify(lines[j]) in kinds && forall k :: j < k < |lines| ==> r.classify(lines[k]) !in kinds
  }

  /** The current visual id is that of the last `UNIT,` line, and there is none before the
      first. */
  lemma {:induction false} VisualIdSpec(lines: seq<string>, r: Reader)
    ensures StateAfter(lines, r).visualId.None? <==> forall i :: 0 <= i < |lines| ==> r.classify(lines[i]) != UnitLine
    ensures forall j :: LastKind(lines, r, {UnitLine}, j) ==> StateAfter(lines, r).visualId == Some(r.unitId(lines[j]))
  {
    if lines != [] {
      var n := |lines| - 1;
      var init := lines[..n];
      VisualIdSpec(init, r);
      assert forall i :: 0 <= i < n ==> lines[i] == init[i];
      if r.classify(lines[n]) == UnitLine {
        forall j | LastKind(lines, r, {UnitLine}, j) ensures j == n {
        }
      } else {
        forall j | LastKind(lines, r, {UnitLine}, j) ensures LastKind(init, r, {UnitLine}, j) {
        }
      }
    }
  }

  /** There is no ULT before the first `UNIT,` line or header. */
  lemma {:induction false} UltNone(lines: seq<string>, r: Reader)
    requires forall i :: 0 <= i < |lines| ==> r.classify(lines[i]) !in {UnitLine, HeaderLine}
    ensures StateAfter(lines, r).ult == None
  {
    if lines != [] {
      var n := |lines| - 1;
      assert forall i :: 0 <= i < n ==> lines[..n][i] == lines[i];
      UltNone(lines[..n], r);
    }
  }

  /** The current ULT is that of the last header after the last `UNIT,` line, and there is none
      right after a `UNIT,` line. */
  lemma {:induction false} UltSpec(lines: seq<string>, r: Reader)
    ensures forall j :: LastKind(lines, r, {UnitLine, HeaderLine}, j) ==>
      StateAfter(lines, r).ult == if r.classify(lines[j]) == HeaderLine then Some(r.headerUlt(lines[j])) else None
  {
    if lines != [] {
      var n := |lines| - 1;
      var init := lines[..n];
      UltSpec(init, r);
      assert forall i :: 0 <= i < n ==> lines[i] == init[i];
      var st := StateAfter(init, r);
      assert StateAfter(lines, r) == Advance(st, lines[n], r);
      if r.classify(lines[n]) in {UnitLine, HeaderLine} {
        var ult := if r.classify(lines[n]) == HeaderLine then Some(r.headerUlt(lines[n])) else None;
        assert StateAfter(lines, r).ult == ult;
        forall j | LastKind(lines, r, {UnitLine, HeaderLine}, j) ensures j == n {
        }
      } else {
        assert StateAfter(lines, r).ult == st.ult;
        forall j | LastKind(lines, r, {UnitLine, HeaderLine}, j) ensures LastKind(init, r, {UnitLine, HeaderLine}, j) {
        }
      }
    }
  }

  /** A line that sets the current MDPOSITION: a `UNIT,` line or a header clears it, a data line
      with an `MDPOSITION=` replaces it. */
  predicate MdEvent(r: Reader, line: string)
  {
    r.classify(line) == UnitLine || r.classify(line) == HeaderLine || (r.classify(line) == DataLine && r.mdOf(line).Some?)
  }

  predicate LastMdEvent(lines: seq<string>, r: Reader, j: int)
  {
    0 <= j < |lines| && MdEvent(r, lines[j]) && forall k :: j < k < |lines| ==> !MdEvent(r, lines[k])
  }

  /** The current MDPOSITION is that of the last data line with one, unless a `UNIT,` line or a
      header came after it. */
  lemma MdpositionSpec(lines: seq<string>, r: Reader)
    ensures (forall i :: 0 <= i < |lines| ==> !MdEvent(r, lines[i])) ==> StateAfter(lines, r).mdposition == None
    ensures forall j :: LastMdEvent(lines, r, j) ==>
      StateAfter(lines, r).mdposition == if r.classify(lines[j]) == DataLine then r.mdOf(lines[j]) else None
  {
    MdpositionNone(lines, r);
    MdpositionLast(lines, r);
  }

  lemma {:induction false} MdpositionNone(lines: seq<string>, r: Reader)
    ensures (forall i :: 0 <= i < |lines| ==> !MdEvent(r, lines[i])) ==> StateAfter(lines, r).mdposition == None
  {
    if lines != [] {
      var n := |lines| - 1;
      var init := lines[..n];
      MdpositionNone(init, r);
      assert forall i :: 0 <= i < n ==> lines[i] == init[i];
      assert StateAfter(lines, r) == Advance(StateAfter(init, r), lines[n], r);
    }
  }

  lemma {:induction false} MdpositionLast(lines: seq<string>, r: Reader)
    ensures forall j :: LastMdEvent(lines, r, j) ==>
      StateAfter(lines, r).mdposition == if r.classify(lines[j]) == DataLine then r.mdOf(lines[j]) else None
  {
    if lines != [] {
      var n := |lines| - 1;
      var init := lines[..n];
      MdpositionLast(init, r);
      assert forall i :: 0 <= i < n ==> lines[i] == init[i];
      var st := StateAfter(init, r);
      assert StateAfter(lines, r) == Advance(st, lines[n], r);
      if MdEvent(r, lines[n]) {
        var md := if r.classify(lines[n]) == DataLine then r.mdOf(lines[n]) else None;
        assert StateAfter(lines, r).mdposition == md;
        forall j | LastMdEvent(lines, r, j) ensures j == n {
        }
      } else {
        assert StateAfter(lines, r).mdposition == st.mdposition;
        forall j | LastMdEvent(lines, r, j) ensures LastMdEvent(init, r, j) {
        }
      }
    }
  }

  /** Each entry comes from one line. */
  lemma {:induction false} EntryOrigin(lines: seq<string>, r: Reader, emit: (ParserState, string) -> seq<UbeEntry>, e: UbeEntry)
    requires e in Entries(lines, r, emit)
    ensures exists j :: 0 <= j < |lines| && e in emit(StateAfter(lines[..j], r), lines[j])
  {
    var n := |lines| - 1;
    var init := lines[..n];
    if e in Entries(init, r, emit) {
      EntryOrigin(init, r, emit, e);
      var j :| 0 <= j < n && e in emit(StateAfter(init[..j], r), init[j]);
      assert init[..j] == lines[..j];
    } else {
      assert e in emit(StateAfter(lines[..n], r), lines[n]);
    }
  }

  /** An entry of the token pieces is the template with the name and value of one piece. */
  lemma {:induction false} TokenEntriesMember(pieces: seq<string>, template: UbeEntry, tokenOf: string -> Option<(string, string)>, e: UbeEntry)
    requires e in TokenEntries(pieces, template, tokenOf)
    ensures exists k :: 0 <= k < |pieces| && tokenOf(pieces[k]) == Some((e.tokenName, e.tokenValue))
    ensures e == template.(tokenName := e.tokenName, tokenValue := e.tokenValue)
  {
    var n := |pieces| - 1;
    if e in TokenEntries(pieces[..n], template, tokenOf) {
      TokenEntriesMember(pieces[..n], template, tokenOf, e);
      var k :| 0 <= k < n && tokenOf(pieces[..n][k]) == Some((e.tokenName, e.tokenValue));
      assert pieces[..n][k] == pieces[k];
    } else {
      assert tokenOf(pieces[n]).Some?;
    }
  }

  /** A character absent from a string is absent from its strip. */
  lemma StripAbsent(s: string, c: char)
    requires c !in s
    ensures c !in Strip(s)
  {
    if c in Strip(s) {
      StripInside(s, c);
    }
  }

  /** The token of a comma-free piece has a non-empty name without `=`, and neither its name nor
      its value holds a comma. */
  lemma PieceTokenShape(piece: string)
    requires ',' !in piece
    requires PieceToken(piece).Some?
    ensures var (name, value) := PieceToken(piece).value;
      name != "" && '=' !in name && ',' !in name && ',' !in value
  {
    var part := Strip(piece);
    StripAbsent(piece, ',');
    var i := RawGroups(part);
    var name := part[..i];
    var rest := part[i + 1..];
    var value := rest[..FindChar(rest, '\n')];
    assert name[0] == part[0];
    StripNonEmpty(name);
    StripAbsent(name, '=');
    StripAbsent(name, ',');
    forall k | 0 <= k < |value| ensures value[k] != ',' {
      assert value[k] == part[i + 1 + k];
    }
    StripAbsent(value, ',');
  }

  /** The groups of a matching token, newlines allowed: the stripped text before the first `=`
      and the stripped text after it up to the first newline. */
  lemma RawGroups(part: string) returns (i: nat)
    requires TokenOf(part).Some?
    ensures i == FindChar(part, '=') && 0 < i < |part|
    ensures TokenOf(part).value ==
      (Strip(part[..i]), Strip(part[i + 1..][..FindChar(part[i + 1..], '\n')]))
  {
    i := FindChar(part, '=');
  }

  /** A character absent from a string is absent from the pieces of its bounded split. */
  lemma {:induction false} SplitNAbsent(s: string, c: char, n: nat, x: char)
    requires x !in s
    ensures forall k :: 0 <= k < |SplitN(s, c, n)| ==> x !in SplitN(s, c, n)[k]
    decreases n
  {
    var i := FindChar(s, c);
    if i < |s| && n > 0 {
      SliceAbsent(s, x, 0, i);
      SliceAbsent(s, x, i + 1, |s|);
      var rest := SplitN(s[i + 1..], c, n - 1);
      SplitNAbsent(s[i + 1..], c, n - 1, x);
      assert SplitN(s, c, n) == [s[..i]] + rest;
    }
  }

  /** A character absent from a string is absent from each of its slices. */
  lemma SliceAbsent(s: string, x: char, lo: nat, hi: nat)
    requires x !in s && lo <= hi <= |s|
    ensures x !in s[lo..hi]
  {
    assert forall k :: 0 <= k < hi - lo ==> s[lo..hi][k] == s[lo + k];
  }

  /** A character absent from a string is absent from the pieces of its split. */
  lemma {:induction false} SplitAbsent(s: string, c: char, x: char)
    requires x !in s
    ensures forall k :: 0 <= k < |Split(s, c)| ==> x !in Split(s, c)[k]
    decreases |s|
  {
    var i := FindChar(s, c);
    if i < |s| {
      SliceAbsent(s, x, 0, i);
      SliceAbsent(s, x, i + 1, |s|);
      var rest := Split(s[i + 1..], c);
      SplitAbsent(s[i + 1..], c, x);
      assert Split(s, c) == [s[..i]] + rest;
    }
  }

  /** The token value of a piece without a newline is not empty. */
  lemma PieceTokenValue(piece: string)
    requires '\n' !in piece
    requires PieceToken(piece).Some?
    ensures PieceToken(piece).value.1 != ""
  {
    StripAbsent(piece, '\n');
    TokenOfValue(Strip(piece));
  }

  /** An entry of a line: the line is a data line with a comma, read inside a unit with a
      non-empty visual id; the entry has that visual id, the ULT or `N/A`, the MDPOSITION only
      for the level `WFR` and `""` otherwise, and a non-empty token name without `=`; on a line
      without a newline, the token value is not empty either. */
  lemma EmittedFields(st: ParserState, line: string, e: UbeEntry)
    requires e in Emitted(st, line)
    ensures KindOf(line) == DataLine && ',' in line
    ensures st.visualId == Some(e.visualId) && e.visualId != ""
    ensures e.ult == UltText(st.ult) && e.ult != ""
    ensures e.refLevel == "WFR" ==> e.mdposition == Advance(st, line, Ube).mdposition
    ensures e.refLevel != "WFR" ==> e.mdposition == Some("")
    ensures e.tokenName != "" && '=' !in e.tokenName && ',' !in e.tokenName && ',' !in e.tokenValue
    ensures '\n' !in line ==> e.tokenValue != ""
  {
    var parts := SplitN(line, ',', 2);
    var pieces := Split(parts[2], ',');
    var refLevel := Strip(parts[0]);
    var md := if refLevel == "WFR" then Advance(st, line, Ube).mdposition else Some("");
    var template := UbeEntry(st.visualId.value, UltText(st.ult), refLevel, Strip(parts[1]), "", "", md);
    TokenEntriesMember(pieces, template, PieceToken, e);
    var k :| 0 <= k < |pieces| && PieceToken(pieces[k]) == Some((e.tokenName, e.tokenValue));
    PieceTokenShape(pieces[k]);
    if '\n' !in line {
      SplitNAbsent(line, ',', 2, '\n');
      SplitAbsent(parts[2], ',', '\n');
      PieceTokenValue(pieces[k]);
    }
  }

  /** No entry before the first `UNIT,` line. */
  lemma {:induction false} NoEntriesBeforeUnit(lines: seq<string>)
    requires forall i :: 0 <= i < |lines| ==> KindOf(lines[i]) != UnitLine
    ensures UbeData(lines) == []
  {
    if lines != [] {
      var n := |lines| - 1;
      NoEntriesBeforeUnit(lines[..n]);
      VisualIdSpec(lines[..n], Ube);
    }
  }

  /** The last `UNIT,` line at or after `u`, given that `u` is one. */
  lemma {:induction false} LastUnitExists(lines: seq<string>, r: Reader, u: nat)
    requires u < |lines| && r.classify(lines[u]) == UnitLine
    ensures exists last :: u <= last < |lines| && LastKind(lines, r, {UnitLine}, last)
    decreases |lines| - u
  {
    if !LastKind(lines, r, {UnitLine}, u) {
      var k :| u < k < |lines| && r.classify(lines[k]) in {UnitLine};
      LastUnitExists(lines, r, k);
    }
  }

  /** Every entry carries the non-empty visual id of the last `UNIT,` line before its own line. */
  lemma EntryUnit(lines: seq<string>, e: UbeEntry)
    requires e in UbeData(lines)
    ensures e.visualId != ""
    ensures exists j, u :: 0 <= u < j < |lines| && LastKind(lines[..j], Ube, {UnitLine}, u) && e.visualId == UnitId(lines[u])
  {
    EntryOrigin(lines, Ube, Emitted, e);
    var j :| 0 <= j < |lines| && e in Emitted(StateAfter(lines[..j], Ube), lines[j]);
    EmittedFields(StateAfter(lines[..j], Ube), lines[j], e);
    VisualIdSpec(lines[..j], Ube);
    var u :| 0 <= u < j && KindOf(lines[..j][u]) == UnitLine;
    LastUnitExists(lines[..j], Ube, u);
    var last :| u <= last < j && LastKind(lines[..j], Ube, {UnitLine}, last);
    assert lines[..j][last] == lines[last];
  }

  // ---------------------------------------------------------------------------------------
  // The parser

  /** `parse_ube_file_optimized` over the lines of the file. */
  method ParseUbeFileOptimized(lines: seq<string>) returns (ubeData: seq<UbeEntry>)
    ensures ubeData == UbeData(lines)
  {
    ubeData := [];
    var currentVisualId: Option<string> := None;
    var currentUlt: Option<string> := None;
    var currentMdposition: Option<string> := None;
    for i := 0 to |lines|
      invariant ParserState(currentVisualId, currentUlt, currentMdposition) == StateAfter(lines[..i], Ube)
      invariant ubeData == Entries(lines[..i], Ube, Emitted)
    {
      ubeData, currentVisualId, currentUlt, currentMdposition :=
        ParseLine(lines, i, ubeData, currentVisualId, currentUlt, currentMdposition);
    }
    assert lines[..|lines|] == lines;
  }

  /** The body of the loop for the `i`-th line: a blank line is skipped, a `UNIT,` line starts a
      unit, a line ending in `:` starts a section, and any other line is a data line. */
  method ParseLine(lines: seq<string>, i: nat, ubeData: seq<UbeEntry>,
                   currentVisualId: Option<string>, currentUlt: Option<string>, currentMdposition: Option<string>)
    returns (ubeData': seq<UbeEntry>, currentVisualId': Option<string>, currentUlt': Option<string>, currentMdposition': Option<string>)
    requires i < |lines|
    requires ParserState(currentVisualId, currentUlt, currentMdposition) == StateAfter(lines[..i], Ube)
    requires ubeData == Entries(lines[..i], Ube, Emitted)
    ensures ParserState(currentVisualId', currentUlt', currentMdposition') == StateAfter(lines[..i + 1], Ube)
    ensures ubeData' == Entries(lines[..i + 1], Ube, Emitted)
  {
    RunNext(lines, Ube, Emitted, i);
    ubeData', currentVisualId', currentUlt', currentMdposition' := ubeData, currentVisualId, currentUlt, currentMdposition;
    var line := lines[i];
    if line == "" {
      return;
    }
    if StartsWith(line, "UNIT,") {
      currentVisualId' := Some(UnitId(line));
      currentUlt' := None;
      currentMdposition' := None;
      return;
    }
    if EndsWith(line, ":") {
      currentUlt' := Some(HeaderUlt(line));
      currentMdposition' := None;
      return;
    }
    ghost var before := ParserState(currentVisualId, currentUlt, currentMdposition);
    var mdpositionMatch := MdSearch(line);
    if mdpositionMatch.Some? {
      currentMdposition' := mdpositionMatch;
    }
    ubeData' := ParseDataLine(ubeData, line, currentVisualId, currentUlt, currentMdposition', before);
  }

  /** The entries of one data line, added to `ubeData`; `currentMdposition` is the state after
      the line's own `MDPOSITION=`. */
  method ParseDataLine(ubeData: seq<UbeEntry>, line: string, currentVisualId: Option<string>, currentUlt: Option<string>,
                       currentMdposition: Option<string>, ghost before: ParserState)
    returns (ubeData': seq<UbeEntry>)
    requires KindOf(line) == DataLine
    requires before.visualId == currentVisualId && before.ult == currentUlt
    requires currentMdposition == Advance(before, line, Ube).mdposition
    ensures ubeData' == ubeData + Emitted(before, line)
  {
    ubeData' := ubeData;
    if currentVisualId.Some? && currentVisualId.value != "" && ',' in line {
      var parts := SplitN(line, ',', 2);
      ubeData' := ParseParts(ubeData, parts, currentVisualId.value, UltText(currentUlt), currentMdposition);
    }
  }

  /** The entries of a data line split at its first two commas, added to `ubeData`. */
  method ParseParts(ubeData: seq<UbeEntry>, parts: seq<string>, visualId: string, ult: string, currentMdposition: Option<string>)
    returns (ubeData': seq<UbeEntry>)
    ensures ubeData' == ubeData + LineEntries(parts, visualId, ult, currentMdposition)
  {
    ubeData' := ubeData;
    if |parts| >= 2 {
      var refLevel := Strip(parts[0]);
      var firstSocketUpload := Strip(parts[1]);
      var needsMdposition := refLevel == "WFR";
      var mdpositionToUse := if needsMdposition then currentMdposition else Some("");
      if |parts| > 2 {
        var tokenParts := Split(parts[2], ',');
        ubeData' := AppendTokens(ubeData, tokenParts,
          UbeEntry(visualId, ult, refLevel, firstSocketUpload, "", "", mdpositionToUse));
      }
    }
  }

  lemma TokenEntriesNext(pieces: seq<string>, template: UbeEntry, tokenOf: string -> Option<(string, string)>, k: nat)
    requires k < |pieces|
    ensures TokenEntries(pieces[..k + 1], template, tokenOf) ==
      TokenEntries(pieces[..k], template, tokenOf) + TokenRow(template, tokenOf(pieces[k]))
  {
    assert pieces[..k + 1][..k] == pieces[..k];
  }

  /** The loop over the token parts of a line. */
  method AppendTokens(ubeData: seq<UbeEntry>, tokenParts: seq<string>, template: UbeEntry) returns (ubeData': seq<UbeEntry>)
    ensures ubeData' == ubeData + TokenEntries(tokenParts, template, PieceToken)
  {
    ubeData' := ubeData;
    for k := 0 to |tokenParts|
      invariant ubeData' == ubeData + TokenEntries(tokenParts[..k], template, PieceToken)
    {
      ubeData' := AppendTokenPart(ubeData, ubeData', tokenParts, template, k);
    }
    assert tokenParts[..|tokenParts|] == tokenParts;
  }

  /** The body of the token loop: the entry of the `k`-th part, if any, is added. */
  method AppendTokenPart(ghost ubeData: seq<UbeEntry>, ubeData': seq<UbeEntry>, tokenParts: seq<string>, template: UbeEntry, k: nat)
    returns (ubeData'': seq<UbeEntry>)
    requires k < |tokenParts|
    requires ubeData' == ubeData + TokenEntries(tokenParts[..k], template, PieceToken)
    ensures ubeData'' == ubeData + TokenEntries(tokenParts[..k + 1], template, PieceToken)
  {
    TokenEntriesNext(tokenParts, template, PieceToken, k);
    var token := ParseTokenPart(tokenParts[k]);
    ubeData'' := AppendToken(ubeData', template, token);
  }

  /** The entry of a matched token, added to `ubeData`. */
  method AppendToken(ubeData: seq<UbeEntry>, template: UbeEntry, token: Option<(string, string)>) returns (ubeData': seq<UbeEntry>)
    ensures ubeData' == ubeData + TokenRow(template, token)
  {
    ubeData' := ubeData;
    if token.Some? {
      ubeData' := ubeData + [template.(tokenName := token.value.0, tokenValue := token.value.1)];
    }
  }

  /** One token part: skipped when blank or an `MDPOSITION=` part, else its stripped groups. */
  method ParseTokenPart(piece: string) returns (token: Option<(string, string)>)
    ensures token == PieceToken(piece)
  {
    var tokenPart := Strip(piece);
    if tokenPart == "" || StartsWith(tokenPart, MdPrefix) {
      return None;
    }
    var tokenMatch := TokenPattern(tokenPart);
    if tokenMatch.Some? {
      var tokenName := Strip(tokenMatch.value.0);
      var tokenValue := Strip(tokenMatch.value.1);
      return Some((tokenName, tokenValue));
    }
    return None;
  }
}
