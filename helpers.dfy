/** The stand-alone fuse-string helpers: the fast binary-to-hex converter, multi-range bit
    extraction, bit-kind counting and the register/QDF lookup over parsed sspec entries. */
module Helpers {
  import opened Text
  import opened Radix
  import opened Wrappers
  import opened UnitDataSspec
  import opened SspecParser

  // ---------------------------------------------------------------------------------------
  // binary_to_hex_fast

  /** `binary_to_hex_fast`: `Q` marks input that is not a binary number. */
  function BinaryToHexFast(b: string): string
  {
    if b == "" || b == "N/A" then "Q"
    else if Strip(b) == "" || !AllBits(Strip(b)) then "Q"
    else PyHexUpper(BinValue(Strip(b)))
  }

  /** The fast converter and `binary_to_hex` agree everywhere, except that the fast one says
      `Q` where the other says `''` (which includes `N/A`). */
  lemma BinaryToHexFastAgrees(b: string)
    ensures BinaryToHexFast(b) == (if BinaryToHex(b) == "" then "Q" else BinaryToHex(b))
  {
    if b == "N/A" {
      StripKeeps(b, 0);
      assert !IsBit(b[0]);
    }
  }

  /** `Q` exactly for `''`, `N/A`, blank input or a non-binary character; otherwise `0X` and
      upper-case hexadecimal digits without leading zeros, of the value of the stripped bits. */
  lemma BinaryToHexFastSpec(b: string)
    ensures var r := BinaryToHexFast(b);
      (r == "Q" <==> b == "" || b == "N/A" || Strip(b) == "" || !AllBits(Strip(b))) &&
      (r != "Q" ==> StartsWith(r, "0X") && IsCanonicalHex(r[2..]) && HexValue(r[2..]) == BinValue(Strip(b)))
  {
    BinaryToHexFastAgrees(b);
    BinaryToHexSpec(b);
    if b == "N/A" {
      StripKeeps(b, 0);
      assert !IsBit(b[0]);
    }
  }

  /** On input that is already a trimmed, non-empty bit string the fast converter is `hex`. */
  lemma BinaryToHexFastOfBits(b: string)
    requires b != "" && Strip(b) == b && AllBits(b)
    ensures BinaryToHexFast(b) == PyHexUpper(BinValue(b))
  {
    assert !IsBit('N');
    assert b != "N/A";
  }

  /** Four equal bits read in base 2. */
  lemma FourBitsValue(b: string, c: char)
    requires IsBit(c) && |b| == 4 && b[0] == c && b[1] == c && b[2] == c && b[3] == c
    ensures AllBits(b) && BinValue(b) == (if c == '1' then 15 else 0)
  {
    var b1, b2, b3 := b[..1], b[..2], b[..3];
    assert b1[..0] == [];
    assert b2[..1] == b1;
    assert b3[..2] == b2;
    assert b[..3] == b3;
    assert BinValue(b1) == (if c == '1' then 1 else 0);
    assert BinValue(b2) == (if c == '1' then 3 else 0);
    assert BinValue(b3) == (if c == '1' then 7 else 0);
  }

  /** `0000` becomes `0X0`: leading zeros go. */
  lemma BinaryToHexFastZeros(b: string)
    requires |b| == 4 && b[0] == '0' && b[1] == '0' && b[2] == '0' && b[3] == '0'
    ensures BinaryToHexFast(b) == "0X0"
  {
    FourBitsValue(b, '0');
    StripKeepsUnspaced(b);
    BinaryToHexFastOfBits(b);
  }

  /** Whitespace around a bit string is ignored: `" " + b + "\n"` converts as `b` does. */
  lemma BinaryToHexFastPadded(b: string)
    requires b != "" && Strip(b) == b && AllBits(b)
    ensures BinaryToHexFast(" " + b + "\n") == BinaryToHexFast(b) == PyHexUpper(BinValue(b))
  {
    var padded := " " + b + "\n";
    assert padded[1..] == b + "\n";
    assert LStrip(padded) == LStrip(b + "\n") == b + "\n";
    assert (b + "\n")[..|b|] == b;
    assert RStrip(b + "\n") == RStrip(b);
    assert RStrip(b) == b;
    assert Strip(padded) == b;
    assert padded != "N/A" by {
      assert padded[0] == ' ';
    }
    BinaryToHexFastOfBits(b);
  }

  // ---------------------------------------------------------------------------------------
  // breakdown_fuse_string_fast

  /** `[parse(x) for x in pieces]`, or `None` where one `parse` raises. */
  function ParseAll(pieces: seq<string>, parse: string -> IntParse): (r: Option<seq<nat>>)
    ensures r.Some? <==> forall k :: 0 <= k < |pieces| ==> parse(pieces[k]).Parsed?
    ensures r.Some? ==> (|r.value| == |pieces| &&
      forall k :: 0 <= k < |pieces| ==> r.value[k] == parse(pieces[k]).value)
  {
    if pieces == [] then Some([])
    else match (ParseAll(pieces[..|pieces| - 1], parse), parse(pieces[|pieces| - 1]))
      case (Some(vs), Parsed(v)) => Some(vs + [v])
      case _ => None
  }

  /** A comma-separated address list read with `int()` piece by piece. */
  function ParseAddressList(s: string): Option<seq<nat>>
  {
    ParseAll(Split(s, ','), PyInt)
  }

  /** Python's `zip`: pairs up to the shorter length, extra entries of the longer list dropped. */
  function Zip<A, B>(a: seq<A>, b: seq<B>): (r: seq<(A, B)>)
    ensures |r| == Min(|a|, |b|)
    ensures forall k :: 0 <= k < |r| ==> r[k] == (a[k], b[k])
  {
    if a == [] || b == [] then [] else [(a[0], b[0])] + Zip(a[1..], b[1..])
  }

  /** The pieces `extract` takes for each pair, concatenated in the order of the pairs. */
  function ConcatPieces(pairs: seq<(nat, nat)>, extract: (nat, nat) -> string): string
  {
    if pairs == [] then ""
    else
      var last := pairs[|pairs| - 1];
      ConcatPieces(pairs[..|pairs| - 1], extract) + extract(last.0, last.1)
  }

  /** One address pair's bits of `full`. */
  function PairExtractor(full: string): (nat, nat) -> string
  {
    (a: nat, b: nat) => ExtractFuseBits(full, a, b)
  }

  /** The per-pair slices of `full`, concatenated in the order of the pairs. */
  function Slices(full: string, pairs: seq<(nat, nat)>): string
  {
    ConcatPieces(pairs, PairExtractor(full))
  }

  /** What `breakdown_fuse_string_fast` returns. */
  function BreakdownFuseString(full: string, startAddr: string, endAddr: string): string
  {
    if full == "" || startAddr == "" || endAddr == "" then ""
    else match (ParseAddressList(startAddr), ParseAddressList(endAddr))
      case (Some(starts), Some(ends)) => Slices(full, Zip(starts, ends))
      case _ => ""
  }

  /** `breakdown_fuse_string_fast` */
  method BreakdownFuseStringFast(full: string, startAddr: string, endAddr: string) returns (r: string)
    ensures r == BreakdownFuseString(full, startAddr, endAddr)
  {
    if full == "" || startAddr == "" || endAddr == "" {
      return "";
    }
    var starts := ParseAddressList(startAddr);
    var ends := ParseAddressList(endAddr);
    if starts.None? || ends.None? {
      return "";
    }
    r := JoinSlices(full, Zip(starts.value, ends.value));
  }

  /** The loop of `breakdown_fuse_string_fast` over the zipped address pairs. */
  method JoinSlices(full: string, pairs: seq<(nat, nat)>) returns (r: string)
    ensures r == Slices(full, pairs)
  {
    ghost var extract := PairExtractor(full);
    var len := |full|;
    r := "";
    var k := 0;
    while k < |pairs|
      invariant k <= |pairs|
      invariant r == ConcatPieces(pairs[..k], extract)
    {
      var (start, end) := pairs[k];
      ConcatStep(pairs, k, extract);
      ExtractAsLoop(full, start, end);
      if start > end {
        start, end := end, start;
      }
      var lsbStart := Max(0, len - 1 - end);
      var lsbEnd := Min(len - 1, len - 1 - start);
      if lsbStart <= lsbEnd {
        r := r + full[lsbStart..lsbEnd + 1];
      }
      k := k + 1;
    }
    assert pairs[..k] == pairs;
  }

  lemma ConcatStep(pairs: seq<(nat, nat)>, k: nat, extract: (nat, nat) -> string)
    requires k < |pairs|
    ensures ConcatPieces(pairs[..k + 1], extract) == ConcatPieces(pairs[..k], extract) + extract(pairs[k].0, pairs[k].1)
  {
    assert pairs[..k + 1][..k] == pairs[..k];
  }

  /** The slice the loop of `breakdown_fuse_string_fast` takes for one pair, after putting
      the smaller address first. */
  lemma ExtractAsLoop(full: string, a: nat, b: nat)
    ensures var lsbStart := Max(0, |full| - 1 - Max(a, b));
      var lsbEnd := Min(|full| - 1, |full| - 1 - Min(a, b));
      PairExtractor(full)(a, b) == (if lsbStart <= lsbEnd then full[lsbStart..lsbEnd + 1] else "")
  {
  }

  /** Sum over the pairs of |[lo, hi] ∩ [0, len - 1]|. */
  function OverlapTotal(pairs: seq<(nat, nat)>, len: nat): nat
  {
    if pairs == [] then 0
    else
      var last := pairs[|pairs| - 1];
      OverlapTotal(pairs[..|pairs| - 1], len) + OverlapSize(Min(last.0, last.1), Max(last.0, last.1), len)
  }

  /** The result is as long as the pairs' overlaps with the string together; a pair wholly
      outside the string adds nothing. */
  lemma {:induction false} SlicesLength(full: string, pairs: seq<(nat, nat)>)
    ensures |Slices(full, pairs)| == OverlapTotal(pairs, |full|)
  {
    if pairs != [] {
      var last := pairs[|pairs| - 1];
      SlicesLength(full, pairs[..|pairs| - 1]);
      ExtractFuseBitsSpec(full, last.0, last.1);
      assert PairExtractor(full)(last.0, last.1) == ExtractFuseBits(full, last.0, last.1);
    }
  }

  /** The pieces come in the order the pairs are given: the first pairs' bits are a prefix. */
  lemma {:induction false} ConcatInOrder(pairs: seq<(nat, nat)>, more: seq<(nat, nat)>, extract: (nat, nat) -> string)
    ensures ConcatPieces(pairs + more, extract) == ConcatPieces(pairs, extract) + ConcatPieces(more, extract)
    decreases |more|
  {
    if more == [] {
      assert pairs + more == pairs;
    } else {
      var last := more[|more| - 1];
      var init := more[..|more| - 1];
      assert (pairs + more)[..|pairs + more| - 1] == pairs + init;
      ConcatInOrder(pairs, init, extract);
      AppendAssoc(ConcatPieces(pairs, extract), ConcatPieces(init, extract), extract(last.0, last.1));
    }
  }

  /** Reversing the two addresses of one pair changes nothing. */
  lemma SlicesSwap(full: string, pairs: seq<(nat, nat)>, i: int)
    requires 0 <= i < |pairs|
    ensures Slices(full, pairs[i := (pairs[i].1, pairs[i].0)]) == Slices(full, pairs)
  {
    var extract := PairExtractor(full);
    var swapped := pairs[i := (pairs[i].1, pairs[i].0)];
    var one: seq<(nat, nat)>, other: seq<(nat, nat)> := [pairs[i]], [swapped[i]];
    assert pairs == pairs[..i] + one + pairs[i + 1..];
    assert swapped == pairs[..i] + other + pairs[i + 1..];
    ConcatInOrder(pairs[..i] + one, pairs[i + 1..], extract);
    ConcatInOrder(pairs[..i], one, extract);
    ConcatInOrder(pairs[..i] + other, pairs[i + 1..], extract);
    ConcatInOrder(pairs[..i], other, extract);
    assert one[..0] == [] && other[..0] == [];
    ExtractSwap(full, pairs[i].0, pairs[i].1);
    assert extract(pairs[i].0, pairs[i].1) == extract(pairs[i].1, pairs[i].0);
  }

  /** Nothing comes out for an empty fuse string or address field, or when any piece of
      either address list is not an integer (a blank piece included). */
  lemma BreakdownEmptyCases(full: string, startAddr: string, endAddr: string)
    requires full == "" || startAddr == "" || endAddr == "" ||
      (exists k :: 0 <= k < |Split(startAddr, ',')| && PyInt(Split(startAddr, ',')[k]).NotAnInt?) ||
      (exists k :: 0 <= k < |Split(endAddr, ',')| && PyInt(Split(endAddr, ',')[k]).NotAnInt?)
    ensures BreakdownFuseString(full, startAddr, endAddr) == ""
  {
  }

  /** Otherwise the result is the slices of the zipped pairs: entries of the longer list
      beyond the shorter one's length are ignored, and the length is the pairs' total overlap. */
  lemma BreakdownIsZippedSlices(full: string, startAddr: string, endAddr: string, starts: seq<nat>, ends: seq<nat>)
    requires full != "" && startAddr != "" && endAddr != ""
    requires ParseAddressList(startAddr) == Some(starts) && ParseAddressList(endAddr) == Some(ends)
    ensures var m := Min(|starts|, |ends|);
      BreakdownFuseString(full, startAddr, endAddr) == Slices(full, Zip(starts[..m], ends[..m])) &&
      |BreakdownFuseString(full, startAddr, endAddr)| == OverlapTotal(Zip(starts, ends), |full|)
  {
    var r := BreakdownFuseString(full, startAddr, endAddr);
    assert r == Slices(full, Zip(starts, ends));
    ZipIgnoresExtras(starts, ends);
    SlicesLength(full, Zip(starts, ends));
  }

  /** `zip` looks at the first `min(|a|, |b|)` entries only. */
  lemma ZipIgnoresExtras<A, B>(a: seq<A>, b: seq<B>)
    ensures var m := Min(|a|, |b|); Zip(a[..m], b[..m]) == Zip(a, b)
  {
    var m := Min(|a|, |b|);
    assert |Zip(a[..m], b[..m])| == |Zip(a, b)|;
  }

  // ---------------------------------------------------------------------------------------
  // analyze_fuse_string_bits

  datatype BitCounts = BitCounts(registerSize: nat, staticBits: nat, dynamicBits: nat, sortBits: nat)

  predicate IsDynamicBit(c: char) { LowerChar(c) == 'm' }

  predicate IsSortBit(c: char) { LowerChar(c) == 's' }

  function StaticCount(s: string): (n: nat)
    ensures n <= |s|
  {
    if s == [] then 0 else StaticCount(s[..|s| - 1]) + (if IsBit(s[|s| - 1]) then 1 else 0)
  }

  function DynamicCount(s: string): (n: nat)
  {
    if s == [] then 0 else DynamicCount(s[..|s| - 1]) + (if IsDynamicBit(s[|s| - 1]) then 1 else 0)
  }

  function SortCount(s: string): (n: nat)
  {
    if s == [] then 0 else SortCount(s[..|s| - 1]) + (if IsSortBit(s[|s| - 1]) then 1 else 0)
  }

  /** No character is counted twice: the three counts together never exceed the length. */
  lemma {:induction false} CountsFit(s: string)
    ensures StaticCount(s) + DynamicCount(s) + SortCount(s) <= |s|
  {
    if s != [] {
      CountsFit(s[..|s| - 1]);
    }
  }

  /** `analyze_fuse_string_bits` */
  function AnalyzeFuseStringBits(s: string): (r: Option<BitCounts>)
    ensures r.None? <==> s == ""
    ensures r.Some? ==> (r.value.registerSize == |s| &&
      r.value.staticBits + r.value.dynamicBits + r.value.sortBits <= r.value.registerSize)
  {
    if s == "" then None
    else
      CountsFit(s);
      Some(BitCounts(|s|, StaticCount(s), DynamicCount(s), SortCount(s)))
  }

  /** A string of `0`s and `1`s is all static bits. */
  lemma {:induction false} AllBitsAreStatic(s: string)
    requires AllBits(s)
    ensures StaticCount(s) == |s|
  {
    if s != [] {
      AllBitsAreStatic(s[..|s| - 1]);
    }
  }

  /** A string has a sort bit exactly when it carries the sort-skip marker (`s` in any case). */
  lemma {:induction false} SortBitsIffMarker(s: string)
    ensures SortCount(s) > 0 <==> 's' in Lower(s)
  {
    if s != [] {
      var init := s[..|s| - 1];
      SortBitsIffMarker(init);
      assert Lower(s) == Lower(init) + [LowerChar(s[|s| - 1])];
    }
  }

  // ---------------------------------------------------------------------------------------
  // get_register_fuse_string

  predicate EntryMatches(e: SspecEntry, registerName: string, qdf: string)
  {
    e.registerName == registerName && e.qdf == qdf
  }

  /** `get_register_fuse_string`: the fuse string of the first entry for the register and QDF. */
  method GetRegisterFuseString(registerName: string, qdf: string, entries: seq<SspecEntry>)
    returns (r: Option<string>)
    ensures r.None? <==> forall i :: 0 <= i < |entries| ==> !EntryMatches(entries[i], registerName, qdf)
    ensures r.Some? ==> (exists i :: (0 <= i < |entries| && EntryMatches(entries[i], registerName, qdf) &&
      r.value == entries[i].fuseString &&
      forall j :: 0 <= j < i ==> !EntryMatches(entries[j], registerName, qdf)))
  {
    var k := 0;
    while k < |entries|
      invariant k <= |entries|
      invariant forall j :: 0 <= j < k ==> !EntryMatches(entries[j], registerName, qdf)
    {
      if entries[k].registerName == registerName && entries[k].qdf == qdf {
        return Some(entries[k].fuseString);
      }
      k := k + 1;
    }
    return None;
  }
}
