/** The QDF selection of the monolith's `FFRChecker`: the `target_qdf_set` property,
    `discover_all_qdfs_from_sspec` and `resolve_target_qdfs`, set beside their counterparts in
    `FFRProcessor`. The sspec lines are taken as the line reader yields them, already
    stripped. */
module MonolithQdf {
  import opened Text
  import opened Wrappers
  import opened Ordering
  import FfrProcessor

  /** `target_qdf_set`: every trimmed comma piece of a non-blank option, blank pieces included;
      no option gives the empty set. */
  function TargetQdfSet(targetQdf: Option<string>): set<string>
  {
    if targetQdf.None? || targetQdf.value == "" then {}
    else
      var pieces := Split(targetQdf.value, ',');
      set k | 0 <= k < |pieces| :: Strip(pieces[k])
  }

  /** A string without a comma is a single piece. */
  lemma SplitWithoutSeparator(s: string, c: char)
    requires c !in s
    ensures Split(s, c) == [s]
  {
    assert FindChar(s, c) == |s|;
  }

  /** Against `_parse_target_qdfs`: apart from the wildcard, the package parses the same trimmed
      pieces but drops the blank one, which the monolith keeps; no option gives no QDF in both. */
  lemma TargetQdfSetAgainstPackage(targetQdf: Option<string>)
    ensures !FfrProcessor.NoExplicitQdfs(targetQdf) ==>
      FfrProcessor.ParseTargetQdfs(targetQdf) == TargetQdfSet(targetQdf) - {""}
    ensures targetQdf.None? || targetQdf.value == "" ==>
      TargetQdfSet(targetQdf) == {} && FfrProcessor.ParseTargetQdfs(targetQdf) == {}
  {
  }

  /** `target_qdf_set` itself has no wildcard: a `*` option is the one QDF named `*` (the
      wildcard is handled where the targets are resolved). */
  lemma TargetQdfSetWildcard(s: string)
    requires Strip(s) == "*"
    ensures TargetQdfSet(Some(s)) == {"*"}
  {
    if ',' in s {
      StripKeeps(s, FindChar(s, ','));
      assert false;
    }
    SplitWithoutSeparator(s, ',');
    var pieces := Split(s, ',');
    assert pieces == [s];
    forall q ensures q in TargetQdfSet(Some(s)) <==> q == "*" {
      if q == "*" {
        assert Strip(pieces[0]) == q;
      }
    }
  }

  /** The third field of a `FUSEDATA:` line, trimmed, when there is one and it is not blank. */
  function NonBlankQdfField(line: string): Option<string>
  {
    match FfrProcessor.QdfField(line)
    case Some(q) => if q != "" then Some(q) else None
    case None => None
  }

  /** What `discover_all_qdfs_from_sspec` returns. */
  function DiscoveredNonBlank(lines: seq<string>): set<string>
  {
    FfrProcessor.Collect(lines, NonBlankQdfField)
  }

  /** `discover_all_qdfs_from_sspec` over the lines of the file. */
  method DiscoverAllQdfsFromSspec(lines: seq<string>) returns (discoveredQdfs: set<string>)
    ensures discoveredQdfs == DiscoveredNonBlank(lines)
  {
    discoveredQdfs := {};
    for k := 0 to |lines|
      invariant discoveredQdfs == FfrProcessor.Collect(lines[..k], NonBlankQdfField)
    {
      assert lines[..k + 1][..k] == lines[..k];
      var qdf := QdfOfLine(lines[k]);
      if qdf.Some? {
        discoveredQdfs := discoveredQdfs + {qdf.value};
      }
    }
    assert lines[..|lines|] == lines;
  }

  /** The body of the line loop of `discover_all_qdfs_from_sspec`: the non-blank QDF a line
      names, if any. */
  method QdfOfLine(line: string) returns (qdf: Option<string>)
    ensures qdf == NonBlankQdfField(line)
  {
    qdf := None;
    if line != "" && StartsWith(line, "FUSEDATA:") {
      var parts := SplitN(line, ':', 4);
      if |parts| >= 3 {
        var q := Strip(parts[2]);
        if q != "" {
          qdf := Some(q);
        }
      }
    }
  }

  /** The monolith discovers what the package's wildcard resolution discovers, without the
      blank QDF. */
  lemma DiscoverAgainstPackage(lines: seq<string>)
    ensures DiscoveredNonBlank(lines) == FfrProcessor.DiscoveredQdfs(lines) - {""}
    ensures "" !in DiscoveredNonBlank(lines)
  {
    forall q
      ensures q in DiscoveredNonBlank(lines) <==> q in FfrProcessor.DiscoveredQdfs(lines) && q != ""
    {
      FfrProcessor.CollectSpec(lines, NonBlankQdfField, q);
      FfrProcessor.CollectSpec(lines, FfrProcessor.QdfField, q);
    }
  }

  /** The option is missing or empty, which `resolve_target_qdfs` answers with no QDF. */
  predicate Blank(targetQdf: Option<string>)
  {
    targetQdf.None? || targetQdf.value == ""
  }

  /** The option is the wildcard `*`, surrounding whitespace allowed. */
  predicate Wildcard(targetQdf: Option<string>)
  {
    !Blank(targetQdf) && Strip(targetQdf.value) == "*"
  }

  /** What `resolve_target_qdfs` returns on a checker whose `target_qdf_set` was never read:
      nothing for a blank option, the non-blank discovered QDFs for the wildcard, the option's
      pieces (a blank piece included) otherwise. */
  function ResolvedQdfs(targetQdf: Option<string>, lines: seq<string>): set<string>
  {
    if Blank(targetQdf) then {}
    else if Wildcard(targetQdf) then DiscoveredNonBlank(lines)
    else TargetQdfSet(targetQdf)
  }

  /** Against the package's `resolve_target_qdfs`: the two agree up to the blank QDF, which
      the monolith never discovers for a wildcard and keeps as a piece of an explicit option,
      and which the package keeps as a discovered QDF and drops from an option. */
  lemma ResolveAgainstPackage(targetQdf: Option<string>, lines: seq<string>)
    ensures Wildcard(targetQdf) ==>
      ResolvedQdfs(targetQdf, lines) == FfrProcessor.DiscoveredQdfs(lines) - {""}
    ensures !Wildcard(targetQdf) ==>
      ResolvedQdfs(targetQdf, lines) - {""} == FfrProcessor.ParseTargetQdfs(targetQdf)
    ensures Blank(targetQdf) ==> ResolvedQdfs(targetQdf, lines) == {}
  {
    DiscoverAgainstPackage(lines);
    TargetQdfSetAgainstPackage(targetQdf);
  }

  /** An explicit option with a blank piece, such as `"A,,B"`, resolves to the blank QDF in
      the monolith and not in the package. */
  lemma ExplicitKeepsBlankPiece(s: string, lines: seq<string>, k: nat)
    requires s != "" && Strip(s) != "*"
    requires k < |Split(s, ',')| && Strip(Split(s, ',')[k]) == ""
    ensures "" in ResolvedQdfs(Some(s), lines)
    ensures "" !in FfrProcessor.ParseTargetQdfs(Some(s))
  {
    FfrProcessor.ParseTargetQdfsSpec(Some(s));
  }

  /** The part of the monolith's `FFRChecker` that selects QDFs: the `target_qdf` option and
      the `_target_qdf_set` cache behind the `target_qdf_set` property. */
  class QdfSelection {
    var targetQdf: Option<string>
    var cache: Option<set<string>>

    /** A checker starts with the option it was given and nothing cached. */
    constructor(targetQdf: Option<string>)
      ensures this.targetQdf == targetQdf && cache.None?
    {
      this.targetQdf := targetQdf;
      cache := None;
    }

    /** The `target_qdf_set` property: the cached set once there is one; before that the
        option's pieces, which are cached unless the option is blank. */
    method ReadTargetQdfSet() returns (qdfs: set<string>)
      modifies this
      ensures targetQdf == old(targetQdf)
      ensures old(cache).Some? ==> cache == old(cache) && qdfs == old(cache).value
      ensures old(cache).None? ==> qdfs == TargetQdfSet(targetQdf)
      ensures old(cache).None? ==> cache == if Blank(targetQdf) then None else Some(qdfs)
    {
      if cache.None? && !Blank(targetQdf) {
        cache := Some(TargetQdfSet(targetQdf));
      }
      qdfs := if cache.Some? then cache.value else {};
    }

    /** `resolve_target_qdfs`: no QDF for a blank option; for the wildcard, the non-blank
        QDFs of the file, sorted, which then replace both the option and the cache; otherwise
        what `target_qdf_set` reads. A later read of `target_qdf_set` after a wildcard
        therefore gives the discovered QDFs, not `{"*"}`. */
    method ResolveTargetQdfs(lines: seq<string>) returns (qdfs: set<string>, qdfList: seq<string>)
      modifies this
      ensures old(cache).None? ==> qdfs == ResolvedQdfs(old(targetQdf), lines)
      ensures Blank(old(targetQdf)) ==>
        qdfs == {} && qdfList == [] && targetQdf == old(targetQdf) && cache == old(cache)
      ensures Wildcard(old(targetQdf)) ==>
        qdfs == DiscoveredNonBlank(lines) && StrictlySorted(qdfList) &&
        targetQdf == Some(Join(qdfList, ",")) && cache == Some(qdfs)
      ensures !Blank(old(targetQdf)) && !Wildcard(old(targetQdf)) ==>
        targetQdf == old(targetQdf) && cache == Some(qdfs) &&
        qdfs == if old(cache).Some? then old(cache).value else TargetQdfSet(targetQdf)
      ensures forall q :: q in qdfList <==> q in qdfs
      ensures |qdfList| == |qdfs|
    {
      if Blank(targetQdf) {
        return {}, [];
      }
      if Strip(targetQdf.value) == "*" {
        var discovered := DiscoverAllQdfsFromSspec(lines);
        qdfList := SortedStrings(discovered);
        qdfs := discovered;
        targetQdf := Some(Join(qdfList, ","));
        cache := Some(qdfs);
      } else {
        qdfs := ReadTargetQdfSet();
        qdfList := ListOfSet(qdfs);
      }
    }
  }
}
