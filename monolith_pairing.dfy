/** The monolith's `_process_paired_fuse_data_fast`: the same pairing of comma-separated fuse
    names with comma-separated fuse registers as the package's XML parser, behind an early
    return for two blank strings. */
module MonolithPairing {
  import opened XmlParser

  /** Two blank strings pair as one pair of empty strings. */
  lemma BlankPairing()
    ensures Pairing(CleanList(""), CleanList("")) == [("", "")]
  {
    var p := Pairing([""], [""]);
    assert |p| == 1 && p[0] == ("", "");
  }

  /** `_process_paired_fuse_data_fast`: whatever the strings, the result is the package's
      pairing of the cleaned lists, so the early return changes nothing. */
  method ProcessPairedFuseDataFast(fuseNameOriginal: string, fuseRegisterOriginal: string)
    returns (paired: seq<(string, string)>)
    ensures paired == Pairing(CleanList(fuseNameOriginal), CleanList(fuseRegisterOriginal))
    ensures |paired| >= 1
  {
    if fuseNameOriginal == "" && fuseRegisterOriginal == "" {
      BlankPairing();
      return [("", "")];
    }
    var fuseNames := CleanList(fuseNameOriginal);
    var fuseRegisters := CleanList(fuseRegisterOriginal);
    paired := PairLists(fuseNames, fuseRegisters);
    PairingCases(fuseNames, fuseRegisters);
  }
}
