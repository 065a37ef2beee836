/** The bit codec and the per-unit maps of `UnitDataSspecProcessor`: run-length decoding of
    fuse strings, the binary-or-RLE normaliser, MSB-first address extraction, binary to
    hexadecimal, and the maps loaded from the ITF full-string and DFF unit-data tables. */
module UnitDataSspec {
  import opened Text
  import opened Radix
  import opened Wrappers

  // ---------------------------------------------------------------------------------------
  // Run-length decoding

  /** `c.upper() == 'A'`: the marker for a run of zeros. */
  predicate IsZeroMark(c: char)
  {
    c == 'A' || c == 'a'
  }

  /** `c.upper() == 'B'`: the marker for a run of ones. */
  predicate IsOneMark(c: char)
  {
    c == 'B' || c == 'b'
  }

  /** The length of the maximal run of digits at the front of `s`. */
  function DigitRun(s: string): (n: nat)
    ensures n <= |s|
    ensures forall i :: 0 <= i < n ==> IsDigit(s[i])
    ensures n < |s| ==> !IsDigit(s[n])
  {
    if s != [] && IsDigit(s[0]) then 1 + DigitRun(s[1..]) else 0
  }

  /** `c * n` */
  function Repeat(c: char, n: nat): (r: string)
    ensures |r| == n && forall i :: 0 <= i < n ==> r[i] == c
  {
    if n == 0 then [] else [c] + Repeat(c, n - 1)
  }

  /** `int(num_str) if num_str else 1` */
  function RunCount(digits: string): nat
    requires forall i :: 0 <= i < |digits| ==> IsDigit(digits[i])
  {
    if digits == [] then 1 else DecimalValue(digits)
  }

  /** What `decode_rle` produces: each marker emits its bit as many times as the digits after
      it say (once when there are none); every other character is skipped. */
  function RleDecode(s: string): (r: string)
    ensures AllBits(r)
    decreases |s|
  {
    if s == [] then []
    else if IsZeroMark(s[0]) || IsOneMark(s[0]) then
      var k := DigitRun(s[1..]);
      Repeat(if IsZeroMark(s[0]) then '0' else '1', RunCount(s[1..1 + k])) + RleDecode(s[1 + k..])
    else RleDecode(s[1..])
  }

  /** The digits after a marker at `start - 1`: their count value and where they end. */
  method ReadCount(s: string, start: nat) returns (count: nat, next: nat)
    requires start <= |s|
    ensures next == start + DigitRun(s[start..]) && next <= |s|
    ensures count == RunCount(s[start..next])
  {
    var numStr := "";
    next := start;
    while next < |s| && IsDigit(s[next])
      invariant start <= next <= |s|
      invariant numStr == s[start..next]
      invariant DigitRun(s[start..]) == (next - start) + DigitRun(s[next..])
    {
      DigitRunStep(s, next);
      numStr := numStr + [s[next]];
      next := next + 1;
    }
    count := if numStr == "" then 1 else DecimalValue(numStr);
  }

  /** A digit at `k` lengthens the digit run from `k` by one. */
  lemma DigitRunStep(s: string, k: nat)
    requires k < |s| && IsDigit(s[k])
    ensures DigitRun(s[k..]) == 1 + DigitRun(s[k + 1..])
  {
    assert s[k..][1..] == s[k + 1..];
  }

  /** One step of `RleDecode` on the suffix of `s` from `i`. */
  lemma RleDecodeFrom(s: string, i: nat)
    requires i < |s|
    ensures var next := i + 1 + DigitRun(s[i + 1..]);
      next <= |s| &&
      RleDecode(s[i..]) ==
        if IsZeroMark(s[i]) || IsOneMark(s[i]) then
          Repeat(if IsZeroMark(s[i]) then '0' else '1', RunCount(s[i + 1..next])) + RleDecode(s[next..])
        else RleDecode(s[i + 1..])
  {
    var k := DigitRun(s[i + 1..]);
    assert s[i..][0] == s[i] && s[i..][1..] == s[i + 1..];
    assert s[i..][1..1 + k] == s[i + 1..i + 1 + k];
    assert s[i..][1 + k..] == s[i + 1 + k..];
  }

  /** `decode_rle`, scanning `s` once with an index. */
  method DecodeRle(s: string) returns (r: string)
    ensures r == RleDecode(s)
  {
    r := "";
    var i := 0;
    while i < |s|
      invariant 0 <= i <= |s|
      invariant r + RleDecode(s[i..]) == RleDecode(s)
      decreases |s| - i
    {
      r, i := DecodeRun(s, i, r);
    }
    assert s[|s|..] == [];
  }

  /** The body of the loop at index `i`: a marker emits its run and moves past its count, any
      other character is skipped. */
  method DecodeRun(s: string, i: nat, r: string) returns (r': string, i': nat)
    requires i < |s|
    requires r + RleDecode(s[i..]) == RleDecode(s)
    ensures i < i' <= |s|
    ensures r' + RleDecode(s[i'..]) == RleDecode(s)
  {
    var c := s[i];
    if IsZeroMark(c) || IsOneMark(c) {
      var count, next := ReadCount(s, i + 1);
      var run := Repeat(if IsZeroMark(c) then '0' else '1', count);
      RleMarkerAt(s, i, next, count);
      Regroup(r, RleDecode(s[i..]), run, RleDecode(s[next..]), RleDecode(s));
      r' := r + run;
      i' := next;
    } else {
      RleDecodeFrom(s, i);
      r', i' := r, i + 1;
    }
  }

  /** A marker at `i` with its count read up to `next` decodes to its run, then the rest. */
  lemma RleMarkerAt(s: string, i: nat, next: nat, count: nat)
    requires i < |s| && (IsZeroMark(s[i]) || IsOneMark(s[i]))
    requires next == i + 1 + DigitRun(s[i + 1..]) && next <= |s|
    requires count == RunCount(s[i + 1..next])
    ensures RleDecode(s[i..]) == Repeat(if IsZeroMark(s[i]) then '0' else '1', count) + RleDecode(s[next..])
  {
    RleDecodeFrom(s, i);
  }

  /** Moving the front of the undecoded part onto the decoded part keeps the whole. */
  lemma Regroup(done: string, todo: string, front: string, rest: string, whole: string)
    requires done + todo == whole && todo == front + rest
    ensures (done + front) + rest == whole
  {
    AppendAssoc(done, front, rest);
  }

  /** A marker followed by its maximal digit run emits its bit that many times (once when
      there are no digits), then decoding carries on after the digits. */
  lemma {:induction false} RleMarker(c: char, digits: string, rest: string)
    requires IsZeroMark(c) || IsOneMark(c)
    requires forall i :: 0 <= i < |digits| ==> IsDigit(digits[i])
    requires rest == [] || !IsDigit(rest[0])
    ensures RleDecode([c] + digits + rest) ==
      Repeat(if IsZeroMark(c) then '0' else '1', RunCount(digits)) + RleDecode(rest)
  {
    var s := [c] + digits + rest;
    assert s[1..] == digits + rest;
    DigitRunOfDigits(digits, rest);
    assert s[1..1 + |digits|] == digits;
    assert s[1 + |digits|..] == rest;
  }

  /** `RleMarker` at position `i` of `s`, with the digits ending at `j`. */
  lemma RleStep(s: string, i: nat, j: nat)
    requires i < j <= |s| && (IsZeroMark(s[i]) || IsOneMark(s[i]))
    requires forall k :: i < k < j ==> IsDigit(s[k])
    requires j == |s| || !IsDigit(s[j])
    ensures RleDecode(s[i..]) == Repeat(if IsZeroMark(s[i]) then '0' else '1', RunCount(s[i + 1..j])) + RleDecode(s[j..])
  {
    assert s[i..] == [s[i]] + s[i + 1..j] + s[j..];
    RleMarker(s[i], s[i + 1..j], s[j..]);
  }

  /** The last run of the docstring's example: `B3` is `111`. */
  lemma RleDocstringLastRun(s: string)
    requires |s| == 7 && s[5] == 'B' && s[6] == '3'
    ensures RleDecode(s[5..]) == Repeat('1', 3)
  {
    RleStep(s, 5, 7);
    DigitIsItsValue(s[6..7]);
    assert s[7..] == [];
  }

  /** The last three runs of the docstring's example: `BA2B3` is `1`, `00`, `111`. */
  lemma RleDocstringSuffix(s: string)
    requires |s| == 7 && s[2] == 'B' && s[3] == 'A' && s[4] == '2' && s[5] == 'B' && s[6] == '3'
    ensures RleDecode(s[2..]) == Repeat('1', 1) + (Repeat('0', 2) + Repeat('1', 3))
  {
    assert RleDecode(s[3..]) == Repeat('0', 2) + Repeat('1', 3) by {
      RleDocstringLastRun(s);
      RleStep(s, 3, 5);
      DigitIsItsValue(s[4..5]);
    }
    RleStep(s, 2, 3);
  }

  /** The docstring's example: `A5BA2B3` is `00000`, `1`, `00`, `111`. */
  lemma RleDocstringExample(s: string)
    requires |s| == 7 && s[0] == 'A' && s[1] == '5' && s[2] == 'B' && s[3] == 'A'
    requires s[4] == '2' && s[5] == 'B' && s[6] == '3'
    ensures RleDecode(s) == Repeat('0', 5) + (Repeat('1', 1) + (Repeat('0', 2) + Repeat('1', 3)))
  {
    RleDocstringSuffix(s);
    DigitIsItsValue(s[1..2]);
    assert s[0..] == s;
    RleStep(s, 0, 2);
  }

  /** A single digit counts as its own value. */
  lemma DigitIsItsValue(d: string)
    requires |d| == 1 && IsDigit(d[0])
    ensures RunCount(d) == DigitValue(d[0])
  {
    assert d[..|d| - 1] == [];
    assert DecimalValue(d) == DecimalValue([]) * 10 + DigitValue(d[0]);
  }

  /** The length of the run of equal characters at the front of `s`. */
  function LeadRun(s: string): (n: nat)
    requires s != []
    ensures 1 <= n <= |s|
    ensures forall i :: 0 <= i < n ==> s[i] == s[0]
    ensures n < |s| ==> s[n] != s[0]
  {
    if |s| > 1 && s[1] == s[0] then 1 + LeadRun(s[1..]) else 1
  }

  /** A run-length encoding of a bit string: one marker and a decimal count per maximal run. */
  function RleEncode(bits: string): (e: string)
    requires AllBits(bits)
    ensures e == [] || IsZeroMark(e[0]) || IsOneMark(e[0])
    decreases |bits|
  {
    if bits == [] then []
    else
      var n := LeadRun(bits);
      [if bits[0] == '0' then 'A' else 'B'] + DecimalString(n) + RleEncode(bits[n..])
  }

  lemma {:induction false} DigitRunOfDigits(d: string, rest: string)
    requires forall i :: 0 <= i < |d| ==> IsDigit(d[i])
    requires rest == [] || !IsDigit(rest[0])
    ensures DigitRun(d + rest) == |d|
    decreases |d|
  {
    if d != [] {
      assert (d + rest)[1..] == d[1..] + rest;
      DigitRunOfDigits(d[1..], rest);
    } else {
      assert d + rest == rest;
    }
  }

  /** Decoding undoes the run-length encoding. */
  lemma {:induction false} RleRoundTrip(bits: string)
    requires AllBits(bits)
    ensures RleDecode(RleEncode(bits)) == bits
    decreases |bits|
  {
    if bits != [] {
      var n := LeadRun(bits);
      var mark := if bits[0] == '0' then 'A' else 'B';
      var bit := if IsZeroMark(mark) then '0' else '1';
      var d := DecimalString(n);
      var tail := RleEncode(bits[n..]);
      assert RleEncode(bits) == [mark] + d + tail;
      assert RleDecode([mark] + d + tail) == Repeat(bit, n) + RleDecode(tail) by {
        RleMarker(mark, d, tail);
        DecimalRoundTrip(n);
      }
      assert RleDecode(tail) == bits[n..] by {
        RleRoundTrip(bits[n..]);
      }
      LeadRunRepeats(bits);
    }
  }

  /** The leading run of a bit string is its first bit repeated, and the rest follows it. */
  lemma LeadRunRepeats(bits: string)
    requires AllBits(bits) && bits != []
    ensures var n := LeadRun(bits);
      Repeat(if bits[0] == '0' then '0' else '1', n) == bits[..n] && bits == bits[..n] + bits[n..]
  {
    var n := LeadRun(bits);
    assert IsBit(bits[0]);
    RunIsRepeat(bits, n, bits[0]);
  }

  /** A prefix of `n` copies of `c` is `c` repeated `n` times. */
  lemma RunIsRepeat(s: string, n: nat, c: char)
    requires n <= |s| && forall i :: 0 <= i < n ==> s[i] == c
    ensures Repeat(c, n) == s[..n] && s == s[..n] + s[n..]
  {
    var r := Repeat(c, n);
    forall i | 0 <= i < n ensures r[i] == s[..n][i] {
    }
  }

  // ---------------------------------------------------------------------------------------
  // Normalising a TNAME value

  /** `is_binary_string`: false for `''`, true when the trimmed text is only `0`s and `1`s
      (so a whitespace-only value counts as binary). */
  predicate IsBinaryString(v: string)
  {
    v != "" && AllBits(Strip(v))
  }

  /** `normalize_tname_value`: binary input comes back trimmed, anything else is RLE-decoded. */
  function NormalizeTnameValue(v: string): (r: string)
    ensures AllBits(r)
    ensures IsBinaryString(v) ==> r == Strip(v)
    ensures v != "" && !IsBinaryString(v) ==> r == RleDecode(v)
  {
    if v == "" then ""
    else if IsBinaryString(v) then Strip(v)
    else RleDecode(v)
  }

  lemma BitsAreUnspaced(b: string)
    requires AllBits(b)
    ensures Strip(b) == b
  {
    StripKeepsUnspaced(b);
  }

  /** Normalising twice is normalising once. */
  lemma NormalizeIdempotent(v: string)
    ensures NormalizeTnameValue(NormalizeTnameValue(v)) == NormalizeTnameValue(v)
  {
    var r := NormalizeTnameValue(v);
    BitsAreUnspaced(r);
  }

  lemma BinaryStringEdgeCases()
    ensures !IsBinaryString("")
    ensures IsBinaryString(" ") && NormalizeTnameValue(" ") == ""
  {
    assert LStrip(" ") == LStrip("");
  }

  // ---------------------------------------------------------------------------------------
  // Address extraction

  /** Bit `b` of a register string stored MSB first: bit 0 is the last character. */
  function BitAt(full: string, b: nat): char
    requires b < |full|
  {
    full[|full| - 1 - b]
  }

  function Min(a: int, b: int): int { if a <= b then a else b }
  function Max(a: int, b: int): int { if a <= b then b else a }

  /** |[lo, hi] ∩ [0, len - 1]| */
  function OverlapSize(lo: int, hi: int, len: nat): nat
  {
    Max(0, Min(hi, len - 1) - Max(lo, 0) + 1)
  }

  /** `extract_fuse_bits` */
  function ExtractFuseBits(full: string, startAddr: int, endAddr: int): string
  {
    if full == [] then ""
    else
      var lo := Min(startAddr, endAddr);
      var hi := Max(startAddr, endAddr);
      var lsbStart := Max(0, |full| - 1 - hi);
      var lsbEnd := Min(|full| - 1, |full| - 1 - lo);
      if lsbStart <= lsbEnd then full[lsbStart..lsbEnd + 1] else ""
  }

  /** The extracted bits are bits `min(hi, len-1)` down to `max(lo, 0)` of `full`, where `lo`
      and `hi` are the two addresses in either order: |[lo, hi] ∩ [0, len-1]| of them. */
  lemma ExtractFuseBitsSpec(full: string, startAddr: int, endAddr: int)
    ensures var r := ExtractFuseBits(full, startAddr, endAddr);
      |r| == OverlapSize(Min(startAddr, endAddr), Max(startAddr, endAddr), |full|) &&
      forall j :: 0 <= j < |r| ==>
        0 <= Min(Max(startAddr, endAddr), |full| - 1) - j < |full| &&
        r[j] == BitAt(full, Min(Max(startAddr, endAddr), |full| - 1) - j)
  {
  }

  /** Extracting from a bit string gives a bit string. */
  lemma ExtractKeepsBits(full: string, startAddr: int, endAddr: int)
    requires AllBits(full)
    ensures AllBits(ExtractFuseBits(full, startAddr, endAddr))
  {
  }

  /** Swapping the addresses does not change the extracted bits. */
  lemma ExtractSwap(full: string, a: int, b: int)
    ensures ExtractFuseBits(full, a, b) == ExtractFuseBits(full, b, a)
  {
  }

  /** A range wholly outside the string, or an empty string, extracts nothing. */
  lemma ExtractOutside(full: string, a: int, b: int)
    requires full == [] || Max(a, b) < 0 || Min(a, b) >= |full|
    ensures ExtractFuseBits(full, a, b) == ""
  {
  }

  // ---------------------------------------------------------------------------------------
  // Binary to hexadecimal

  /** `binary_to_hex` */
  function BinaryToHex(b: string): string
  {
    if b == "" then ""
    else if Strip(b) != "" && AllBits(Strip(b)) then PyHexUpper(BinValue(Strip(b)))
    else ""
  }

  /** `binary_to_hex` gives `''` for empty input or when `int(s, 2)` fails; otherwise `0X` and
      upper-case hexadecimal digits without leading zeros, of the same value as the bits. */
  lemma BinaryToHexSpec(b: string)
    ensures var r := BinaryToHex(b);
      (b == "" ==> r == "") &&
      (r != "" <==> b != "" && Strip(b) != "" && AllBits(Strip(b))) &&
      (r != "" ==> StartsWith(r, "0X") && IsCanonicalHex(r[2..]) && HexValue(r[2..]) == BinValue(Strip(b)))
  {
    if b != "" && Strip(b) != "" && AllBits(Strip(b)) {
      HexRoundTrip(BinValue(Strip(b)));
      HexDigitsCanonical(BinValue(Strip(b)));
    }
  }

  // ---------------------------------------------------------------------------------------
  // Address fields

  /** `int(s) if s else 0`, or `None` where `int` raises. */
  function AddressOrZero(s: string): (r: Option<nat>)
    ensures s == "" ==> r == Some(0)
    ensures s != "" ==> (r.Some? <==> AllDigits(Strip(s)))
  {
    if s == "" then Some(0)
    else match PyInt(s)
      case Parsed(v) => Some(v)
      case NotAnInt => None
  }

  /** The two address fields of a breakdown row; if either fails to parse both become 0. */
  function ParseAddressPair(startStr: string, endStr: string): (r: (nat, nat))
    ensures AddressOrZero(startStr).None? || AddressOrZero(endStr).None? ==> r == (0, 0)
    ensures AddressOrZero(startStr).Some? && AddressOrZero(endStr).Some? ==>
      r == (AddressOrZero(startStr).value, AddressOrZero(endStr).value)
  {
    match (AddressOrZero(startStr), AddressOrZero(endStr))
      case (Some(s), Some(e)) => (s, e)
      case _ => (0, 0)
  }

  /** A comma-separated multi-range address is not an integer: both addresses drop to 0, so
      only bit 0 of the register is extracted. */
  lemma MultiRangeExtractsBitZero(full: string, startStr: string, endStr: string)
    requires ',' in startStr && full != []
    ensures ParseAddressPair(startStr, endStr) == (0, 0)
    ensures ExtractFuseBits(full, 0, 0) == [BitAt(full, 0)]
  {
    var i :| 0 <= i < |startStr| && startStr[i] == ',';
    StripKeeps(startStr, i);
    ExtractBitZero(full);
  }

  /** The addresses 0 and 0 extract the last character, bit 0. */
  lemma ExtractBitZero(full: string)
    requires full != []
    ensures ExtractFuseBits(full, 0, 0) == [BitAt(full, 0)]
  {
    var last := |full| - 1;
    assert Min(0, 0) == 0 && Max(0, 0) == 0;
    assert Max(0, last) == last && Min(last, last) == last;
    assert ExtractFuseBits(full, 0, 0) == full[last..last + 1];
  }

  // ---------------------------------------------------------------------------------------
  // ITF full-string unit data

  /** A row of the ITF full-string table: `visualid`, `Register`, `TNAME_VALUE` (absent
      columns read as `''`). */
  datatype FullstringRow = FullstringRow(visualId: string, register: string, tnameValue: string)

  predicate IsCompleteRow(row: FullstringRow)
  {
    row.visualId != "" && row.register != "" && row.tnameValue != ""
  }

  /** The unit data after reading `rows`: the last complete row for a visual id and register
      decides its bits. */
  function UnitDataOf(rows: seq<FullstringRow>): map<string, map<string, string>>
  {
    if rows == [] then map[]
    else
      var units := UnitDataOf(rows[..|rows| - 1]);
      var row := rows[|rows| - 1];
      if IsCompleteRow(row) then
        var inner := if row.visualId in units then units[row.visualId] else map[];
        units[row.visualId := inner[row.register := NormalizeTnameValue(row.tnameValue)]]
      else units
  }

  /** `load_itf_fullstring_data` over the rows of the table. */
  method LoadItfFullstringData(rows: seq<FullstringRow>) returns (units: map<string, map<string, string>>)
    ensures units == UnitDataOf(rows)
  {
    units := map[];
    var k := 0;
    while k < |rows|
      invariant 0 <= k <= |rows|
      invariant units == UnitDataOf(rows[..k])
    {
      assert rows[..k + 1][..k] == rows[..k];
      var row := rows[k];
      var visualId, register, tnameValue := row.visualId, row.register, row.tnameValue;
      if visualId != "" && register != "" && tnameValue != "" {
        var binaryData := NormalizeTnameValue(tnameValue);
        var inner := if visualId in units then units[visualId] else map[];
        units := units[visualId := inner[register := binaryData]];
      }
      k := k + 1;
    }
    assert rows[..k] == rows;
  }

  /** A visual id and register have unit data exactly when some complete row names them. */
  lemma {:induction false} UnitDataKeys(rows: seq<FullstringRow>, v: string, reg: string)
    ensures v in UnitDataOf(rows) <==>
      exists i :: 0 <= i < |rows| && IsCompleteRow(rows[i]) && rows[i].visualId == v
    ensures v in UnitDataOf(rows) && reg in UnitDataOf(rows)[v] <==>
      exists i :: 0 <= i < |rows| && IsCompleteRow(rows[i]) && rows[i].visualId == v && rows[i].register == reg
  {
    if rows != [] {
      var front := rows[..|rows| - 1];
      UnitDataKeys(front, v, reg);
      assert forall i :: 0 <= i < |front| ==> front[i] == rows[i];
      assert rows == front + [rows[|rows| - 1]];
    }
  }

  /** The last complete row for a visual id and register decides its bits. */
  lemma {:induction false} UnitDataLastRowWins(rows: seq<FullstringRow>, i: int)
    requires 0 <= i < |rows| && IsCompleteRow(rows[i])
    requires forall j :: i < j < |rows| && IsCompleteRow(rows[j]) ==>
      (rows[j].visualId, rows[j].register) != (rows[i].visualId, rows[i].register)
    ensures rows[i].visualId in UnitDataOf(rows)
    ensures rows[i].register in UnitDataOf(rows)[rows[i].visualId]
    ensures UnitDataOf(rows)[rows[i].visualId][rows[i].register] == NormalizeTnameValue(rows[i].tnameValue)
  {
    var row, v, reg := rows[|rows| - 1], rows[i].visualId, rows[i].register;
    var front := rows[..|rows| - 1];
    if i < |rows| - 1 {
      assert front[i] == rows[i];
      assert UnitDataOf(front)[v][reg] == NormalizeTnameValue(rows[i].tnameValue) by {
        assert forall j :: 0 <= j < |front| ==> front[j] == rows[j];
        UnitDataLastRowWins(front, i);
      }
      assert !IsCompleteRow(row) || (row.visualId, row.register) != (v, reg);
    }
  }

  // ---------------------------------------------------------------------------------------
  // DFF unit data

  /** A row of the DFF unit-data table: `fuse_name_MTL`, `fuse_register_MTL` and the cells of
      the remaining columns, keyed by column name. */
  datatype DffRow = DffRow(fuseName: string, register: string, cells: map<string, string>)

  /** `f"{fuse_name}|{register}"` */
  function DffKey(name: string, register: string): string
  {
    name + "|" + register
  }

  predicate HasDffKey(row: DffRow)
  {
    row.fuseName != "" && row.register != ""
  }

  /** One DFF row applied to the per-visual-id maps. */
  function AddDffRow(dff: map<string, map<string, string>>, row: DffRow): map<string, map<string, string>>
  {
    if HasDffKey(row) then
      map v | v in dff :: if v in row.cells then dff[v][DffKey(row.fuseName, row.register) := row.cells[v]] else dff[v]
    else dff
  }

  /** The DFF data after reading `rows` for the requested visual ids. */
  function DffDataOf(rows: seq<DffRow>, visualIds: seq<string>): map<string, map<string, string>>
  {
    if rows == [] then map v | v in visualIds :: map[]
    else AddDffRow(DffDataOf(rows[..|rows| - 1], visualIds), rows[|rows| - 1])
  }

  /** `load_dff_data` over the rows of the table. */
  method LoadDffData(rows: seq<DffRow>, visualIds: seq<string>) returns (dff: map<string, map<string, string>>)
    ensures dff == DffDataOf(rows, visualIds)
  {
    dff := map v | v in visualIds :: map[];
    var k := 0;
    while k < |rows|
      invariant 0 <= k <= |rows|
      invariant dff == DffDataOf(rows[..k], visualIds)
      invariant dff.Keys == set v | v in visualIds
    {
      assert rows[..k + 1][..k] == rows[..k];
      var row := rows[k];
      if HasDffKey(row) {
        dff := AddDffCells(dff, row, visualIds);
      }
      k := k + 1;
    }
    assert rows[..k] == rows;
  }

  /** The visual-id loop of one row with both names: each requested visual id with a cell in
      the row takes the cell under `name|register`. */
  method AddDffCells(before: map<string, map<string, string>>, row: DffRow, visualIds: seq<string>)
    returns (dff: map<string, map<string, string>>)
    requires HasDffKey(row)
    requires before.Keys == set v | v in visualIds
    ensures dff == AddDffRow(before, row)
  {
    var key := DffKey(row.fuseName, row.register);
    dff := before;
    var n := 0;
    while n < |visualIds|
      invariant 0 <= n <= |visualIds|
      invariant dff.Keys == before.Keys
      invariant forall v :: v in dff ==>
        dff[v] == if v in visualIds[..n] && v in row.cells then before[v][key := row.cells[v]] else before[v]
    {
      var vid := visualIds[n];
      if vid in row.cells {
        dff := dff[vid := dff[vid][key := row.cells[vid]]];
      }
      assert visualIds[..n + 1] == visualIds[..n] + [vid];
      n := n + 1;
    }
    assert visualIds[..n] == visualIds;
  }

  /** Every requested visual id has a map, and `name|register` is in it exactly when some row
      with both names has a cell in that visual id's column. */
  lemma {:induction false} DffKeys(rows: seq<DffRow>, visualIds: seq<string>, v: string, key: string)
    ensures v in DffDataOf(rows, visualIds) <==> v in visualIds
    ensures v in DffDataOf(rows, visualIds) && key in DffDataOf(rows, visualIds)[v] <==>
      v in visualIds &&
      (exists i :: 0 <= i < |rows| && HasDffKey(rows[i]) && v in rows[i].cells &&
         DffKey(rows[i].fuseName, rows[i].register) == key)
  {
    if rows != [] {
      var front := rows[..|rows| - 1];
      var row := rows[|rows| - 1];
      DffKeys(front, visualIds, v, key);
      assert forall i :: 0 <= i < |front| ==> front[i] == rows[i];
      var before := DffDataOf(front, visualIds);
      if v in before {
        assert key in DffDataOf(rows, visualIds)[v] <==>
          key in before[v] || (HasDffKey(row) && v in row.cells && DffKey(row.fuseName, row.register) == key);
      }
      if exists i :: 0 <= i < |rows| && HasDffKey(rows[i]) && v in rows[i].cells &&
          DffKey(rows[i].fuseName, rows[i].register) == key {
        var i :| 0 <= i < |rows| && HasDffKey(rows[i]) && v in rows[i].cells &&
          DffKey(rows[i].fuseName, rows[i].register) == key;
        if i < |front| {
          assert front[i] == rows[i];
        }
      }
    }
  }

  /** The last row that has a cell for a visual id under a key decides that cell's value. */
  lemma {:induction false} DffLastRowWins(rows: seq<DffRow>, visualIds: seq<string>, v: string, i: int)
    requires v in visualIds && 0 <= i < |rows| && HasDffKey(rows[i]) && v in rows[i].cells
    requires forall j :: i < j < |rows| && HasDffKey(rows[j]) && v in rows[j].cells ==>
      DffKey(rows[j].fuseName, rows[j].register) != DffKey(rows[i].fuseName, rows[i].register)
    ensures v in DffDataOf(rows, visualIds)
    ensures DffKey(rows[i].fuseName, rows[i].register) in DffDataOf(rows, visualIds)[v]
    ensures DffDataOf(rows, visualIds)[v][DffKey(rows[i].fuseName, rows[i].register)] == rows[i].cells[v]
  {
    DffKeys(rows, visualIds, v, DffKey(rows[i].fuseName, rows[i].register));
    if i < |rows| - 1 {
      var front := rows[..|rows| - 1];
      assert forall j :: 0 <= j < |front| ==> front[j] == rows[j];
      DffLastRowWins(front, visualIds, v, i);
    }
  }
}
