/** The QDF selection of `FFRProcessor`: parsing the `sspec_qdf` option and resolving a `*`
    wildcard against the `FUSEDATA:` lines of an sspec file (lines as the line reader yields
    them, already stripped). */
module FfrProcessor {
  import opened Text
  import opened Wrappers
  import opened Ordering

  /** The option is absent, blank, or the wildcard `*`. */
  predicate NoExplicitQdfs(sspecQdf: Option<string>)
  {
    sspecQdf.None? || sspecQdf.value == "" || Strip(sspecQdf.value) == "*"
  }

  /** `_parse_target_qdfs`: the trimmed, non-blank comma pieces. */
  function ParseTargetQdfs(sspecQdf: Option<string>): (r: set<string>)
    ensures NoExplicitQdfs(sspecQdf) ==> r == {}
  {
    if NoExplicitQdfs(sspecQdf) then {}
    else
      var pieces := Split(sspecQdf.value, ',');
      set k | 0 <= k < |pieces| && Strip(pieces[k]) != "" :: Strip(pieces[k])
  }

  /** Every QDF parsed is non-blank, already trimmed and free of commas, and every non-blank
      comma piece of an explicit option is one of them. */
  lemma ParseTargetQdfsSpec(sspecQdf: Option<string>)
    ensures forall q :: q in ParseTargetQdfs(sspecQdf) ==> q != "" && Strip(q) == q && ',' !in q
    ensures !NoExplicitQdfs(sspecQdf) ==> forall k ::
      (0 <= k < |Split(sspecQdf.value, ',')| && Strip(Split(sspecQdf.value, ',')[k]) != "") ==>
      Strip(Split(sspecQdf.value, ',')[k]) in ParseTargetQdfs(sspecQdf)
  {
    if !NoExplicitQdfs(sspecQdf) {
      var pieces := Split(sspecQdf.value, ',');
      forall q | q in ParseTargetQdfs(sspecQdf) ensures q != "" && Strip(q) == q && ',' !in q {
        var k :| 0 <= k < |pieces| && Strip(pieces[k]) != "" && Strip(pieces[k]) == q;
        StripIdempotent(pieces[k]);
        if ',' in q {
          StripInside(pieces[k], ',');
        }
      }
    }
  }

  /** The third `:` field, trimmed, of a `FUSEDATA:` line that has at least three fields. */
  function QdfField(line: string): Option<string>
  {
    if StartsWith(line, "FUSEDATA:") then
      var parts := SplitN(line, ':', 4);
      if |parts| >= 3 then Some(Strip(parts[2])) else None
    else None
  }

  /** The values `pick` finds in the lines. */
  function Collect(lines: seq<string>, pick: string -> Option<string>): set<string>
  {
    if lines == [] then {}
    else
      var last := lines[|lines| - 1];
      Collect(lines[..|lines| - 1], pick) + (match pick(last) case Some(q) => {q} case None => {})
  }

  /** A value is collected exactly when some line yields it. */
  lemma {:induction false} CollectSpec(lines: seq<string>, pick: string -> Option<string>, q: string)
    ensures q in Collect(lines, pick) <==> exists i :: 0 <= i < |lines| && pick(lines[i]) == Some(q)
  {
    if lines != [] {
      var init := lines[..|lines| - 1];
      CollectSpec(init, pick, q);
      if exists i :: 0 <= i < |lines| && pick(lines[i]) == Some(q) {
        var i :| 0 <= i < |lines| && pick(lines[i]) == Some(q);
        if i < |lines| - 1 {
          assert init[i] == lines[i];
        }
      }
      if exists i :: 0 <= i < |init| && pick(init[i]) == Some(q) {
        var i :| 0 <= i < |init| && pick(init[i]) == Some(q);
        assert lines[i] == init[i];
      }
    }
  }

  /** The QDFs a wildcard discovers: the third field of every `FUSEDATA:` line, even blank. */
  function DiscoveredQdfs(lines: seq<string>): set<string>
  {
    Collect(lines, QdfField)
  }

  /** `resolve_target_qdfs`: a wildcard option discovers the QDFs of the file and lists them
      sorted; otherwise the QDFs already parsed from the option are returned as they are.
      The constructor is the only writer of `targetQdfSet`, and it parses the same option. */
  method ResolveTargetQdfs(sspecQdf: Option<string>, targetQdfSet: set<string>, lines: seq<string>)
    returns (qdfs: set<string>, qdfList: seq<string>)
    requires targetQdfSet == ParseTargetQdfs(sspecQdf)
    ensures sspecQdf.Some? && sspecQdf.value != "" && Strip(sspecQdf.value) == "*" ==>
      qdfs == DiscoveredQdfs(lines) && StrictlySorted(qdfList)
    ensures !(sspecQdf.Some? && sspecQdf.value != "" && Strip(sspecQdf.value) == "*") ==> qdfs == ParseTargetQdfs(sspecQdf)
    ensures forall q :: q in qdfList <==> q in qdfs
    ensures |qdfList| == |qdfs|
  {
    if sspecQdf.Some? && sspecQdf.value != "" && Strip(sspecQdf.value) == "*" {
      qdfs := DiscoverQdfs(lines);
      qdfList := SortedStrings(qdfs);
    } else {
      qdfs := targetQdfSet;
      qdfList := ListOfSet(qdfs);
    }
  }

  /** The discovery loop of `resolve_target_qdfs` over the lines of the file. */
  method DiscoverQdfs(lines: seq<string>) returns (qdfs: set<string>)
    ensures qdfs == DiscoveredQdfs(lines)
  {
    qdfs := {};
    var k := 0;
    while k < |lines|
      invariant k <= |lines|
      invariant qdfs == Collect(lines[..k], QdfField)
    {
      assert lines[..k + 1][..k] == lines[..k];
      var qdf := QdfOfFuseLine(lines[k]);
      if qdf.Some? {
        qdfs := qdfs + {qdf.value};
      }
      k := k + 1;
    }
    assert lines[..k] == lines;
  }

  /** The body of the discovery loop: the trimmed third field of a `FUSEDATA:` line with
      three or more fields. */
  method QdfOfFuseLine(line: string) returns (qdf: Option<string>)
    ensures qdf == QdfField(line)
  {
    qdf := None;
    if StartsWith(line, "FUSEDATA:") {
      var parts := SplitN(line, ':', 4);
      if |parts| >= 3 {
        qdf := Some(Strip(parts[2]));
      }
    }
  }

  /** A QDF is discovered exactly when some `FUSEDATA:` line with three or more fields has it,
      trimmed, as its third field. */
  lemma DiscoveredQdfsSpec(lines: seq<string>, q: string)
    ensures q in DiscoveredQdfs(lines) <==> exists i :: 0 <= i < |lines| && QdfField(lines[i]) == Some(q)
  {
    CollectSpec(lines, QdfField, q);
  }
}
