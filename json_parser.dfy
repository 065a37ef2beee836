/** The fuse-definition table: the parsed `fuseDef.json` structure flattened into one row per
    register-data entry and fuse. Keys the JSON leaves out are given their defaults (`''`, `[]`)
    when the structure is built. */
module JsonParser {
  import opened Text
  import opened Wrappers
  import Sanitizer

  /** A fuse: its name and its start and end address arrays, each element as `str()` gives it,
      `None` for a JSON `null`. */
  datatype Fuse = Fuse(name: string, startAddress: seq<Option<string>>, endAddress: seq<Option<string>>)

  datatype FuseGroup = FuseGroup(name: string, fuses: seq<Fuse>)

  /** A register: the `RegisterName` of each of its `RegistersData` entries, and its fuse groups. */
  datatype Register = Register(registerNames: seq<string>, fuseGroups: seq<FuseGroup>)

  /** One row of the fuse-definition table. */
  datatype FuseDefRow = FuseDefRow(registerName: string, fuseGroupName: string, fuseName: string,
                                   startAddress: string, endAddress: string)

  // ---------------------------------------------------------------------------------------
  // Address arrays

  /** Each address sanitised. */
  function SanitizedAll(addrs: seq<Option<string>>): (r: seq<string>)
    ensures |r| == |addrs|
  {
    seq(|addrs|, i requires 0 <= i < |addrs| => Sanitizer.SanitizeCsvField(addrs[i]))
  }

  /** `_format_address_array` */
  function FormatAddressArray(addrs: seq<Option<string>>): string
  {
    if addrs == [] then "" else Join(SanitizedAll(addrs), ",")
  }

  /** Every character of a join is a character of a part or of the separator. */
  lemma {:induction false} JoinChars(parts: seq<string>, sep: string, k: nat)
    requires k < |Join(parts, sep)|
    ensures Join(parts, sep)[k] in sep || exists i :: 0 <= i < |parts| && Join(parts, sep)[k] in parts[i]
  {
    if |parts| > 1 {
      var rest := Join(parts[1..], sep);
      var s := Join(parts, sep);
      if k < |parts[0]| {
        assert s[k] == parts[0][k];
      } else if k < |parts[0]| + |sep| {
        assert s[k] == sep[k - |parts[0]|];
      } else {
        var k' := k - |parts[0]| - |sep|;
        assert s[k] == rest[k'];
        JoinChars(parts[1..], sep, k');
        if s[k] !in sep {
          var i :| 0 <= i < |parts| - 1 && rest[k'] in parts[1..][i];
          assert parts[1..][i] == parts[i + 1];
        }
      }
    } else if |parts| == 1 {
      assert Join(parts, sep)[k] in parts[0];
    }
  }

  /** An empty array gives `''`; otherwise the sanitised addresses joined with `','` in order:
      splitting on `','` gives them back when none holds a comma, and the result holds no raw
      markup character. */
  lemma FormatAddressArraySpec(addrs: seq<Option<string>>)
    ensures addrs == [] ==> FormatAddressArray(addrs) == ""
    ensures addrs != [] && (forall i :: 0 <= i < |addrs| ==> ',' !in SanitizedAll(addrs)[i]) ==>
      Split(FormatAddressArray(addrs), ',') == SanitizedAll(addrs)
    ensures Sanitizer.NoMarkup(FormatAddressArray(addrs))
  {
    var r := FormatAddressArray(addrs);
    if addrs != [] {
      var parts := SanitizedAll(addrs);
      if forall i :: 0 <= i < |addrs| ==> ',' !in parts[i] {
        SplitJoin(parts, ',');
      }
      forall k | 0 <= k < |r| ensures !Sanitizer.IsMarkup(r[k]) {
        JoinChars(parts, ",", k);
        if r[k] !in "," {
          var i :| 0 <= i < |parts| && r[k] in parts[i];
          Sanitizer.SanitizeCsvFieldSpec(addrs[i]);
          var j :| 0 <= j < |parts[i]| && parts[i][j] == r[k];
        }
      }
    }
  }

  // ---------------------------------------------------------------------------------------
  // Flattening

  /** The rows `rowsOf` gives each element, in turn. */
  function ConcatMap<X>(xs: seq<X>, rowsOf: X -> seq<FuseDefRow>): seq<FuseDefRow>
  {
    if xs == [] then [] else ConcatMap(xs[..|xs| - 1], rowsOf) + rowsOf(xs[|xs| - 1])
  }

  lemma ConcatMapNext<X>(xs: seq<X>, rowsOf: X -> seq<FuseDefRow>, k: nat)
    requires k < |xs|
    ensures ConcatMap(xs[..k + 1], rowsOf) == ConcatMap(xs[..k], rowsOf) + rowsOf(xs[k])
  {
    assert xs[..k + 1][..k] == xs[..k];
  }

  /** Row `j` of element `i` sits after the rows of the elements before it: the order of the
      elements is the order of their rows. */
  lemma {:induction false} ConcatMapAt<X>(xs: seq<X>, rowsOf: X -> seq<FuseDefRow>, i: nat, j: nat)
    requires i < |xs| && j < |rowsOf(xs[i])|
    ensures |ConcatMap(xs[..i], rowsOf)| + j < |ConcatMap(xs, rowsOf)|
    ensures ConcatMap(xs, rowsOf)[|ConcatMap(xs[..i], rowsOf)| + j] == rowsOf(xs[i])[j]
  {
    var n := |xs| - 1;
    if i < n {
      ConcatMapAt(xs[..n], rowsOf, i, j);
      assert xs[..n][..i] == xs[..i];
      assert xs[..n][i] == xs[i];
    } else {
      assert xs[..n] == xs[..i];
    }
  }

  /** When every element gives `n` rows, there are `|xs| * n` of them. */
  lemma {:induction false} ConcatMapUniform<X>(xs: seq<X>, rowsOf: X -> seq<FuseDefRow>, n: nat)
    requires forall i :: 0 <= i < |xs| ==> |rowsOf(xs[i])| == n
    ensures |ConcatMap(xs, rowsOf)| == |xs| * n
  {
    if xs != [] {
      var m := |xs| - 1;
      assert forall i :: 0 <= i < m ==> xs[..m][i] == xs[i];
      ConcatMapUniform(xs[..m], rowsOf, n);
      assert (m + 1) * n == m * n + n;
    }
  }

  /** The row of one fuse. */
  function FuseRow(registerName: string, groupName: string, f: Fuse): FuseDefRow
  {
    FuseDefRow(registerName, groupName, f.name, FormatAddressArray(f.startAddress), FormatAddressArray(f.endAddress))
  }

  /** The rows of one fuse group, one per fuse. */
  function GroupRows(registerName: string, g: FuseGroup): (r: seq<FuseDefRow>)
    ensures |r| == |g.fuses|
  {
    seq(|g.fuses|, k requires 0 <= k < |g.fuses| => FuseRow(registerName, g.name, g.fuses[k]))
  }

  function GroupRowMaker(registerName: string): FuseGroup -> seq<FuseDefRow>
  {
    g => GroupRows(registerName, g)
  }

  /** The row of an entry of a register without fuse groups. */
  function BlankRow(registerName: string): FuseDefRow
  {
    FuseDefRow(registerName, "", "", "", "")
  }

  /** The rows of one `RegistersData` entry: a row per fuse of every group of the register, or
      one blank row when the register has no groups. */
  function EntryRows(r: Register, registerName: string): seq<FuseDefRow>
  {
    if r.fuseGroups != [] then ConcatMap(r.fuseGroups, GroupRowMaker(registerName)) else [BlankRow(registerName)]
  }

  function EntryRowMaker(r: Register): string -> seq<FuseDefRow>
  {
    name => EntryRows(r, name)
  }

  function RegisterRows(r: Register): seq<FuseDefRow>
  {
    ConcatMap(r.registerNames, EntryRowMaker(r))
  }

  /** The whole table; no rows when the `Registers` key is missing. */
  function FuseDefRows(registers: Option<seq<Register>>): seq<FuseDefRow>
  {
    if registers.None? then [] else ConcatMap(registers.value, RegisterRows)
  }

  /** The number of fuses across the groups. */
  function FuseCount(groups: seq<FuseGroup>): nat
  {
    if groups == [] then 0 else FuseCount(groups[..|groups| - 1]) + |groups[|groups| - 1].fuses|
  }

  lemma {:induction false} GroupsRowsCount(registerName: string, groups: seq<FuseGroup>)
    ensures |ConcatMap(groups, GroupRowMaker(registerName))| == FuseCount(groups)
  {
    if groups != [] {
      GroupsRowsCount(registerName, groups[..|groups| - 1]);
    }
  }

  /** A missing `Registers` key gives no rows. */
  lemma MissingRegisters()
    ensures FuseDefRows(None) == []
  {
  }

  /** Each entry repeats the register's fuse rows, so a register gives one row per entry and
      fuse, or one per entry without groups; no entries or no fuses give no rows. */
  lemma RegisterRowsCount(r: Register)
    ensures |RegisterRows(r)| == |r.registerNames| * (if r.fuseGroups == [] then 1 else FuseCount(r.fuseGroups))
  {
    var n := if r.fuseGroups == [] then 1 else FuseCount(r.fuseGroups);
    forall i | 0 <= i < |r.registerNames| ensures |EntryRowMaker(r)(r.registerNames[i])| == n {
      if r.fuseGroups != [] {
        GroupsRowsCount(r.registerNames[i], r.fuseGroups);
      }
    }
    ConcatMapUniform(r.registerNames, EntryRowMaker(r), n);
  }

  /** Without fuse groups, entry `e` gives the blank row of its register name at position `e`. */
  lemma NoGroupsRows(r: Register, e: nat)
    requires r.fuseGroups == [] && e < |r.registerNames|
    ensures |RegisterRows(r)| == |r.registerNames|
    ensures RegisterRows(r)[e] == FuseDefRow(r.registerNames[e], "", "", "", "")
  {
    RegisterRowsCount(r);
    ConcatMapAt(r.registerNames, EntryRowMaker(r), e, 0);
    ConcatMapUniform(r.registerNames[..e], EntryRowMaker(r), 1);
  }

  /** The fuse `k` of group `g` of entry `e` sits at its place in register, entry, group, fuse
      order, with the entry's register name, the group's name and the fuse's formatted addresses. */
  lemma FuseRowAt(r: Register, e: nat, g: nat, k: nat)
    requires e < |r.registerNames| && g < |r.fuseGroups| && k < |r.fuseGroups[g].fuses|
    ensures var pos := e * FuseCount(r.fuseGroups) + FuseCount(r.fuseGroups[..g]) + k;
      pos < |RegisterRows(r)| &&
      RegisterRows(r)[pos] == FuseRow(r.registerNames[e], r.fuseGroups[g].name, r.fuseGroups[g].fuses[k])
  {
    var name := r.registerNames[e];
    var groups := r.fuseGroups;
    GroupsRowsCount(name, groups[..g]);
    ConcatMapAt(groups, GroupRowMaker(name), g, k);
    var j := FuseCount(groups[..g]) + k;
    GroupsRowsCount(name, groups);
    ConcatMapAt(r.registerNames, EntryRowMaker(r), e, j);
    forall i | 0 <= i < e ensures |EntryRowMaker(r)(r.registerNames[..e][i])| == FuseCount(groups) {
      GroupsRowsCount(r.registerNames[..e][i], groups);
    }
    ConcatMapUniform(r.registerNames[..e], EntryRowMaker(r), FuseCount(groups));
  }

  // ---------------------------------------------------------------------------------------
  // The parser's loops

  /** The fuse loop of one group. */
  method AppendGroupRows(rows0: seq<FuseDefRow>, registerName: string, g: FuseGroup) returns (rows: seq<FuseDefRow>)
    ensures rows == rows0 + GroupRows(registerName, g)
  {
    rows := rows0;
    for k := 0 to |g.fuses|
      invariant rows == rows0 + GroupRows(registerName, g)[..k]
    {
      var fuse := g.fuses[k];
      var row := FuseDefRow(registerName, g.name, fuse.name,
                            FormatAddressArray(fuse.startAddress), FormatAddressArray(fuse.endAddress));
      assert GroupRows(registerName, g)[..k + 1] == GroupRows(registerName, g)[..k] + [row];
      rows := rows + [row];
    }
    assert GroupRows(registerName, g)[..|g.fuses|] == GroupRows(registerName, g);
  }

  /** The body of the entry loop. */
  method AppendEntryRows(rows0: seq<FuseDefRow>, r: Register, registerName: string) returns (rows: seq<FuseDefRow>)
    ensures rows == rows0 + EntryRows(r, registerName)
  {
    rows := rows0;
    var fuseGroups := r.fuseGroups;
    if fuseGroups != [] {
      for g := 0 to |fuseGroups|
        invariant rows == rows0 + ConcatMap(fuseGroups[..g], GroupRowMaker(registerName))
      {
        ConcatMapNext(fuseGroups, GroupRowMaker(registerName), g);
        rows := AppendGroupRows(rows, registerName, fuseGroups[g]);
      }
      assert fuseGroups[..|fuseGroups|] == fuseGroups;
    } else {
      rows := rows + [FuseDefRow(registerName, "", "", "", "")];
    }
  }

  /** `parse_json_optimized` over the parsed structure; `registers` is `None` when the
      `Registers` key is missing. */
  method ParseFuseDef(registers: Option<seq<Register>>) returns (rows: seq<FuseDefRow>)
    ensures rows == FuseDefRows(registers)
  {
    if registers.None? {
      return [];
    }
    var regs := registers.value;
    rows := [];
    for i := 0 to |regs|
      invariant rows == ConcatMap(regs[..i], RegisterRows)
    {
      ConcatMapNext(regs, RegisterRows, i);
      rows := AppendRegisterRows(rows, regs[i]);
    }
    assert regs[..|regs|] == regs;
  }

  /** The loop over the register names of one register. */
  method AppendRegisterRows(rows0: seq<FuseDefRow>, register: Register) returns (rows: seq<FuseDefRow>)
    ensures rows == rows0 + RegisterRows(register)
  {
    rows := rows0;
    for e := 0 to |register.registerNames|
      invariant rows == rows0 + ConcatMap(register.registerNames[..e], EntryRowMaker(register))
    {
      var name := register.registerNames[e];
      ConcatMapNext(register.registerNames, EntryRowMaker(register), e);
      assert EntryRowMaker(register)(name) == EntryRows(register, name);
      rows := AppendEntryRows(rows, register, name);
    }
    assert register.registerNames[..|register.registerNames|] == register.registerNames;
  }
}
