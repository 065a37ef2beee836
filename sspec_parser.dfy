/** `SspecParser.parse_sspec_file_optimized` over the lines of an sspec file, each already
    stripped of surrounding whitespace as the line reader yields them. */
module SspecParser {
  import opened Text
  import opened Wrappers
  import opened Ordering

  /** One `FUSEDATA:` record kept for a target QDF; `lineNumber` is its 1-based file line. */
  datatype SspecEntry = SspecEntry(registerName: string, qdf: string, fuseString: string, lineNumber: nat)

  /** The entry the `n`-th line yields: a `FUSEDATA:` line with at least five `:` fields
      (split at most four times) whose trimmed QDF field is a target. */
  function EntryOf(line: string, n: nat, targets: set<string>): (r: Option<SspecEntry>)
    ensures r.Some? ==> StartsWith(line, "FUSEDATA:") && r.value.lineNumber == n && r.value.qdf in targets
  {
    if line == "" || !StartsWith(line, "FUSEDATA:") then None
    else
      var parts := SplitN(line, ':', 4);
      if |parts| >= 5 && Strip(parts[2]) in targets then
        Some(SspecEntry(Strip(parts[1]), Strip(parts[2]), Strip(parts[4]), n))
      else None
  }

  /** `EntryOf` for a fixed target set, as a function of the line and its number. */
  function LineEntry(targets: set<string>): (string, nat) -> Option<SspecEntry>
  {
    (line: string, n: nat) => EntryOf(line, n, targets)
  }

  /** What `entryOf` makes of each line, numbered from 1, in file order. */
  function EntriesOf(lines: seq<string>, entryOf: (string, nat) -> Option<SspecEntry>): seq<SspecEntry>
  {
    if lines == [] then []
    else
      var n := |lines|;
      EntriesOf(lines[..n - 1], entryOf) +
        (match entryOf(lines[n - 1], n) case Some(e) => [e] case None => [])
  }

  /** The entries of a file, in file order. */
  function SspecEntries(lines: seq<string>, targets: set<string>): seq<SspecEntry>
  {
    EntriesOf(lines, LineEntry(targets))
  }

  /** `parse_sspec_file_optimized`: the entries, and the target QDFs as a list. */
  method ParseSspecLines(lines: seq<string>, targets: set<string>)
    returns (entries: seq<SspecEntry>, qdfList: seq<string>)
    ensures entries == SspecEntries(lines, targets)
    ensures forall q :: q in qdfList <==> q in targets
    ensures |qdfList| == |targets|
  {
    qdfList := ListOfSet(targets);
    entries := [];
    var lineCount := 0;
    while lineCount < |lines|
      invariant lineCount <= |lines|
      invariant entries == EntriesOf(lines[..lineCount], LineEntry(targets))
    {
      entries := ParseSspecLine(lines, lineCount, targets, entries);
      lineCount := lineCount + 1;
    }
    assert lines[..lineCount] == lines;
  }

  /** The body of the loop for the line numbered `lineCount + 1`. */
  method ParseSspecLine(lines: seq<string>, lineCount: nat, targets: set<string>, entries: seq<SspecEntry>)
    returns (entries': seq<SspecEntry>)
    requires lineCount < |lines|
    requires entries == EntriesOf(lines[..lineCount], LineEntry(targets))
    ensures entries' == EntriesOf(lines[..lineCount + 1], LineEntry(targets))
  {
    var line := lines[lineCount];
    assert lines[..lineCount + 1][..lineCount] == lines[..lineCount];
    assert LineEntry(targets)(line, lineCount + 1) == EntryOf(line, lineCount + 1, targets);
    entries' := entries;
    if line == "" || !StartsWith(line, "FUSEDATA:") {
      return;
    }
    var parts := SplitN(line, ':', 4);
    if |parts| >= 5 {
      var registerName := Strip(parts[1]);
      var qdf := Strip(parts[2]);
      var fuseString := Strip(parts[4]);
      if qdf in targets {
        entries' := entries + [SspecEntry(registerName, qdf, fuseString, lineCount + 1)];
      }
    }
  }

  /** Every entry is what its own line, the one its number names, yields, and the entries are
      in file order. */
  lemma EntriesFromTheirLines(lines: seq<string>, targets: set<string>)
    ensures Numbered(lines, SspecEntries(lines, targets), LineEntry(targets))
  {
    var entryOf := LineEntry(targets);
    forall line: string, n: nat | entryOf(line, n).Some? ensures entryOf(line, n).value.lineNumber == n {
      assert entryOf(line, n) == EntryOf(line, n, targets);
    }
    EntriesNumbered(lines, entryOf);
  }

  /** Each entry of `es` is what `entryOf` makes of the line its number names, and the
      numbers increase. */
  predicate Numbered(lines: seq<string>, es: seq<SspecEntry>, entryOf: (string, nat) -> Option<SspecEntry>)
  {
    (forall i :: 0 <= i < |es| ==> (1 <= es[i].lineNumber <= |lines| &&
      entryOf(lines[es[i].lineNumber - 1], es[i].lineNumber) == Some(es[i]))) &&
    (forall i, j :: 0 <= i < j < |es| ==> es[i].lineNumber < es[j].lineNumber)
  }

  lemma {:induction false} EntriesNumbered(lines: seq<string>, entryOf: (string, nat) -> Option<SspecEntry>)
    requires forall line: string, n: nat :: entryOf(line, n).Some? ==> entryOf(line, n).value.lineNumber == n
    ensures Numbered(lines, EntriesOf(lines, entryOf), entryOf)
  {
    if lines != [] {
      var n := |lines|;
      var init := lines[..n - 1];
      EntriesNumbered(init, entryOf);
      var es0 := EntriesOf(init, entryOf);
      assert forall i :: 0 <= i < |es0| ==> init[es0[i].lineNumber - 1] == lines[es0[i].lineNumber - 1];
    }
  }

  /** Conversely, every line that yields an entry contributes it. */
  lemma LinesYieldEntries(lines: seq<string>, targets: set<string>, k: int)
    requires 0 <= k < |lines| && EntryOf(lines[k], k + 1, targets).Some?
    ensures EntryOf(lines[k], k + 1, targets).value in SspecEntries(lines, targets)
  {
    var entryOf := LineEntry(targets);
    assert entryOf(lines[k], k + 1) == EntryOf(lines[k], k + 1, targets);
    LinesContribute(lines, entryOf, k);
  }

  lemma {:induction false} LinesContribute(lines: seq<string>, entryOf: (string, nat) -> Option<SspecEntry>, k: int)
    requires 0 <= k < |lines| && entryOf(lines[k], k + 1).Some?
    ensures entryOf(lines[k], k + 1).value in EntriesOf(lines, entryOf)
  {
    var n := |lines|;
    if k < n - 1 {
      var init := lines[..n - 1];
      assert init[k] == lines[k];
      LinesContribute(init, entryOf, k);
    }
  }

  /** A `FUSEDATA:` line splits into exactly five fields: four free of `:`, and the fuse
      string field, which is everything after the fourth `:` (the fourth field itself plays
      no part in an entry). */
  lemma FuseStringAfterFourthColon(line: string)
    requires |SplitN(line, ':', 4)| >= 5
    ensures var parts := SplitN(line, ':', 4);
      |parts| == 5 && (forall k :: 0 <= k < 4 ==> ':' !in parts[k]) &&
      line == parts[0] + ":" + (parts[1] + ":" + (parts[2] + ":" + (parts[3] + ":" + parts[4])))
  {
    SplitNSpec(line, ':', 4);
    JoinFive(SplitN(line, ':', 4), ':');
  }

  lemma JoinFive(parts: seq<string>, c: char)
    requires |parts| == 5
    ensures Join(parts, [c]) == parts[0] + [c] + (parts[1] + [c] + (parts[2] + [c] + (parts[3] + [c] + parts[4])))
  {
    var sep := [c];
    assert parts[3..][1..] == [parts[4]];
    assert Join(parts[3..], sep) == parts[3] + sep + parts[4];
    assert parts[2..][1..] == parts[3..];
    assert Join(parts[2..], sep) == parts[2] + sep + Join(parts[3..], sep);
    assert parts[1..][1..] == parts[2..];
    assert Join(parts[1..], sep) == parts[1] + sep + Join(parts[2..], sep);
  }
}
