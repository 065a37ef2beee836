# Fuse-bit reconciliation engine (FFRCheck), modelled in Dafny

This project models the part of FFRCheck that reconciles a chip's fuse values across four sources:

- the S-spec breakdown, which gives the expected bit pattern per register and QDF;
- the XML token-to-fuse mapping and the JSON fuse definitions;
- the per-unit DFF/UBE manufacturing data;
- the ITF production test log.

Each module follows one source file. The FFRCheck.py monolith shares much of its logic with the package. The `Monolith*` modules model its own versions of the UBE parser, the matcher, the paired fuse data, the DFF check and the QDF selection, and set them beside the package's; its own XML parser is listed under "## Left out". Every file is read from a sequence of lines or from rows that are already parsed. No file is opened.

- `Text`, `Radix`, `Ordering`, `Assoc`, `Wrappers`: support modules.
  - Python's `strip`, `split`, `join`, `replace`, `upper` and `lower`, restricted to the characters the model needs.
  - `int()` over ASCII digits, and `hex()`.
  - `sorted` over strings and naturals.
  - Insertion-ordered dicts, as association lists.
- `UnitDataSspec`: run-length decoding, binary detection and normalisation, MSB-first bit extraction, `binary_to_hex`, address parsing, and the ITF full-string and DFF table loaders (`processors/unit_data_sspec.py`).
- `UnitDataStatus`: the per-row, per-unit loop of `create_unit_data_sspec_csv`, which assigns `sort`, `FLE`, `dynamic`, `static` or `!mismatch!`.
- `Helpers`: `binary_to_hex_fast`, the multi-range `breakdown_fuse_string_fast`, `analyze_fuse_string_bits` and `get_register_fuse_string` (`utils/helpers.py`).
- `ItfLines`, `ItfExtract`, `ItfRows`: the ITF parser (`parsers/itf_parser.py`). `ItfLines` covers pattern lookup, `_fdN` names and ULT strings. `ItfExtract` is the line state machine. `ItfRows` covers the per-visual-ID merge, fragment reassembly and the visual-ID filter.
- `CsvMatch`, `CsvDffCheck`: the index-based XML↔fuse-definition matcher, and the DFF/MTL-OLF check with its lookup tables (`processors/csv_processor.py`).
- `XmlParser`, `JsonParser`, `SspecParser`: token/field row shaping with name/register pairing; fuse-definition flattening; `FUSEDATA:` line parsing.
- `FfrProcessor`: the target-QDF option and its wildcard resolution.
- `Config`: dotted-path `get`/`set`, the deep merge of a user file, the defaults and the `get_config` singleton. A user file is taken as it is written, repeated keys included, and `Collapse` turns it into the dict `json.load` returns. A JSON number with a fraction or exponent is a `real`, which the settings only store and return.
- `Sanitizer`: the package's CSV/HTML field sanitiser.
- `DataSanitizer`: the monolith's sanitiser.
- `MonolithUbe`: the monolith's UBE line parser.
- `MonolithMatch`: its nested-loop matcher.
- `MonolithPairing`: its paired fuse data.
- `MonolithDff`: its lookup tables and DFF check.
- `MonolithQdf`: its QDF set, discovery and resolution, with the option and cache they update.

Conventions used throughout:

- A Python `dict` whose iteration order reaches an output is an association list (`Assoc.Dict`). Any other `dict` is a Dafny `map`.
- Python's `int()`, `str.isdigit` and `\d` are modelled over ASCII digits.
- A Python exception that the source catches becomes an `Option`, an `IntParse` or a `false` flag.
- The regex search inside `match_tname_patterns` is the parameter `search`.

## Model

| member | source | states |
|---|---|---|
| `UnitDataSspec.DigitRun` | FFRCheck_Project/src/processors/unit_data_sspec.py:44-48 | the count after a marker is the maximal run of digits that follows it: all of them are digits and the next character is not |
| `UnitDataSspec.RleDecode` | FFRCheck_Project/src/processors/unit_data_sspec.py:18-69 | the decoded text is made only of `0` and `1` |
| `UnitDataSspec.ReadCount` | FFRCheck_Project/src/processors/unit_data_sspec.py:43-51 | the inner digit loop stops after the maximal digit run, and the count is its decimal value, or 1 when there are no digits |
| `UnitDataSspec.DecodeRle` | FFRCheck_Project/src/processors/unit_data_sspec.py:32-69 | the index loop of `decode_rle` produces exactly `RleDecode` of its input |
| `UnitDataSspec.DecodeRun` | FFRCheck_Project/src/processors/unit_data_sspec.py:39-67 | one turn of the loop advances the index and keeps decoded-so-far plus decode-of-rest equal to the whole decoding |
| `UnitDataSspec.RleMarker` | FFRCheck_Project/src/processors/unit_data_sspec.py:41-65 | an `A`/`a` emits n `0`s and a `B`/`b` emits n `1`s, where n is the value of the maximal digit run that follows (1 if none); decoding then carries on after the digits |
| `UnitDataSspec.RleDocstringExample` | FFRCheck_Project/src/processors/unit_data_sspec.py:22 | the docstring example `A5BA2B3` decodes to `00000` `1` `00` `111` |
| `UnitDataSspec.RleRoundTrip` | FFRCheck_Project/src/processors/unit_data_sspec.py:18-69 | decoding inverts a run-length encoding (one marker and a decimal count per maximal run): `RleDecode(RleEncode(b)) == b` for every bit string |
| `UnitDataSspec.NormalizeTnameValue` | FFRCheck_Project/src/processors/unit_data_sspec.py:78-96 | the result is always a 0/1 string; a value that `is_binary_string` accepts comes back stripped, and any other non-empty value is RLE-decoded |
| `UnitDataSspec.NormalizeIdempotent` | FFRCheck_Project/src/processors/unit_data_sspec.py:78-96 | normalising twice gives the same result as normalising once |
| `UnitDataSspec.BinaryStringEdgeCases` | FFRCheck_Project/src/processors/unit_data_sspec.py:71-76 | `is_binary_string('')` is false, yet a whitespace-only value counts as binary and normalises to `''` |
| `UnitDataSspec.ExtractFuseBits` | FFRCheck_Project/src/processors/unit_data_sspec.py:98-125 | no contract of its own: the bits between two addresses of an MSB-first register string. `ExtractFuseBitsSpec`, `ExtractKeepsBits`, `ExtractSwap` and `ExtractOutside` state what it gives |
| `UnitDataSspec.ExtractFuseBitsSpec` | FFRCheck_Project/src/processors/unit_data_sspec.py:98-125 | the result is the MSB-first slice from bit `min(hi,len-1)` down to bit `max(lo,0)`, where lo and hi are the addresses in either order; its length is the number of addresses in [lo,hi] that lie within the string |
| `UnitDataSspec.ExtractKeepsBits` | FFRCheck_Project/src/processors/unit_data_sspec.py:119-123 | a slice of a 0/1 string is a 0/1 string |
| `UnitDataSspec.ExtractSwap` | FFRCheck_Project/src/processors/unit_data_sspec.py:116-117 | swapping start and end leaves the result unchanged |
| `UnitDataSspec.ExtractOutside` | FFRCheck_Project/src/processors/unit_data_sspec.py:110-125 | the result is `''` for an empty register string or for a range wholly outside it |
| `UnitDataSspec.BinaryToHex` | FFRCheck_Project/src/processors/unit_data_sspec.py:127-135 | no contract of its own: `binary_to_hex`. `BinaryToHexSpec` states what it gives |
| `UnitDataSspec.BinaryToHexSpec` | FFRCheck_Project/src/processors/unit_data_sspec.py:127-135 | `''` for empty input or when `int(s,2)` fails; otherwise `0X` plus canonical upper-case hex digits whose value is the binary value of the trimmed input |
| `UnitDataSspec.AddressOrZero` | FFRCheck_Project/src/processors/unit_data_sspec.py:241-242 | an empty field reads as 0; a non-empty field parses exactly when its trimmed text is all digits |
| `UnitDataSspec.ParseAddressPair` | FFRCheck_Project/src/processors/unit_data_sspec.py:239-245 | when either field fails to parse, both addresses become 0; otherwise they are the two parsed values |
| `UnitDataSspec.MultiRangeExtractsBitZero` | FFRCheck_Project/src/processors/unit_data_sspec.py:239-256 | a comma-separated multi-range start address resets both addresses to 0, so only bit 0 (the last character) is extracted |
| `UnitDataSspec.LoadItfFullstringData` | FFRCheck_Project/src/processors/unit_data_sspec.py:137-161 | the row loop builds exactly `UnitDataOf(rows)`: each complete row stores its normalised value under its visual id and register |
| `UnitDataSspec.UnitDataKeys` | FFRCheck_Project/src/processors/unit_data_sspec.py:156-159 | a visual id (and a register under it) has data iff some row with all three fields non-empty names it |
| `UnitDataSspec.UnitDataLastRowWins` | FFRCheck_Project/src/processors/unit_data_sspec.py:159 | the last complete row for a visual id and register decides the stored bits |
| `UnitDataSspec.LoadDffData` | FFRCheck_Project/src/processors/unit_data_sspec.py:388-416 | the row loop builds exactly `DffDataOf(rows, visualIds)` |
| `UnitDataSspec.AddDffCells` | FFRCheck_Project/src/processors/unit_data_sspec.py:412-414 | the inner loop over the visual ids copies the row's cell under the key made of fuse name and register for every requested id that the row has |
| `UnitDataSspec.DffKeys` | FFRCheck_Project/src/processors/unit_data_sspec.py:399-414 | every requested visual id has a map, and it holds a key iff some row with both name and register non-empty has a cell for that id under that key |
| `UnitDataSspec.DffLastRowWins` | FFRCheck_Project/src/processors/unit_data_sspec.py:414 | the last such row decides the value of a cell |
| `UnitDataStatus.BinaryReading` | FFRCheck_Project/src/processors/unit_data_sspec.py:315-320 | the binary reading of a DFF value is present only for a non-empty 0/1 value, and it is `0X`-prefixed |
| `UnitDataStatus.HexadecimalReading` | FFRCheck_Project/src/processors/unit_data_sspec.py:322-326 | there is at most one hexadecimal reading, and it is `0X`-prefixed |
| `UnitDataStatus.DecimalReading` | FFRCheck_Project/src/processors/unit_data_sspec.py:328-333 | there is at most one decimal reading (all-digit values only), and it is `0X`-prefixed |
| `UnitDataStatus.HexCandidates` | FFRCheck_Project/src/processors/unit_data_sspec.py:313-333 | at most three candidates, tried as binary, then hex, then decimal, each `0X`-prefixed |
| `UnitDataStatus.PickCandidate` | FFRCheck_Project/src/processors/unit_data_sspec.py:336-343 | the choice equals the ITF hex iff some candidate does; otherwise it is the first candidate, or `'N/A'` when there are none |
| `UnitDataStatus.DffAsHex` | FFRCheck_Project/src/processors/unit_data_sspec.py:305-345 | `dff_as_hex` equals the ITF hex iff the DFF value yields it, read as-is if `0X`-prefixed in any case or else by one of its candidate readings; any other result is `'N/A'` or a reading of the value |
| `UnitDataStatus.LookupDffValue` | FFRCheck_Project/src/processors/unit_data_sspec.py:263-288 | the DFF column is `sort-skip` under a sort-skip marker; otherwise it is the group-key cell, else the name-key cell, else `'N/A'`; `'N/A'` becomes `FLE` when the group or fuse name is an FLE name |
| `UnitDataStatus.Classify` | FFRCheck_Project/src/processors/unit_data_sspec.py:290-371 | no contract of its own: the status a row gets. `StatusCheck` ties the status chain to it; `DynamicIffDffYields` and `NoDynamicWithoutBoth` state when each status is given |
| `UnitDataStatus.StatusCheck` | FFRCheck_Project/src/processors/unit_data_sspec.py:290-371 | the status chain computes `Classify` of the DFF column, QDF hex and ITF hex |
| `UnitDataStatus.FillUnitCell` | FFRCheck_Project/src/processors/unit_data_sspec.py:248-371 | the loop body for one visual id fills the binary, hex, DFF and status columns exactly as `CellFor` defines them |
| `UnitDataStatus.FillRowCells` | FFRCheck_Project/src/processors/unit_data_sspec.py:248-371 | the visual-id loop produces one cell group per visual id, in order |
| `UnitDataStatus.FillCellAt` | FFRCheck_Project/src/processors/unit_data_sspec.py:248-371 | one turn of the visual-id loop appends that id's cell group |
| `UnitDataStatus.CreateUnitDataRows` | FFRCheck_Project/src/processors/unit_data_sspec.py:183-373 | it fails iff there is no unit data; otherwise the visual ids are the sorted keys of the unit data, and there is one output row per breakdown row, in order, each with its unit cells |
| `UnitDataStatus.FillRows` | FFRCheck_Project/src/processors/unit_data_sspec.py:224-373 | the breakdown-row loop produces exactly `UnitRows` |
| `UnitDataStatus.MapCellsAt` | FFRCheck_Project/src/processors/unit_data_sspec.py:248 | there is one cell per visual id, and cell j belongs to visual id j |
| `UnitDataStatus.RowCellsAt` | FFRCheck_Project/src/processors/unit_data_sspec.py:248-371 | a row's cell j is the cell group of visual id j |
| `UnitDataStatus.UnitRowsAt` | FFRCheck_Project/src/processors/unit_data_sspec.py:224-373 | output row i is breakdown row i with its cells |
| `UnitDataStatus.SortSkipForcesSort` | FFRCheck_Project/src/processors/unit_data_sspec.py:236-237 | with DFF data, a QDF binary containing `s`/`S` gives DFF value `sort-skip` and status `sort`, whatever the hex values are |
| `UnitDataStatus.NoDffOnlyStaticOrMismatch` | FFRCheck_Project/src/processors/unit_data_sspec.py:363-369 | without DFF data there is no DFF column; the status is `static` iff both hexes are present, not `'N/A'` and equal ignoring case, and `!mismatch!` otherwise (never `sort`, `FLE` or `dynamic`) |
| `UnitDataStatus.DffLookupOrder` | FFRCheck_Project/src/processors/unit_data_sspec.py:268-271 | the group key is tried before the name key, and the lookup gives `'N/A'` exactly when the key it reaches is absent or holds `'N/A'` |
| `UnitDataStatus.FleOnlyWhenLookupFails` | FFRCheck_Project/src/processors/unit_data_sspec.py:273-286 | the DFF column is `FLE` iff there is no sort-skip marker and either the cell says `FLE` or the lookup gave `'N/A'` and the group or fuse name (raw, lowercased, or lowercased with `/`→`_`) is in the FLE set |
| `UnitDataStatus.DynamicIffDffYields` | FFRCheck_Project/src/processors/unit_data_sspec.py:301-356 | for a DFF value other than `sort-skip`/`FLE`/`'N/A'` and a present ITF hex, the status is `dynamic` iff the DFF value yields the ITF hex; otherwise it is `static` iff the QDF hex matches the ITF hex, else `!mismatch!` |
| `UnitDataStatus.NoDynamicWithoutBoth` | FFRCheck_Project/src/processors/unit_data_sspec.py:357-362 | with DFF value `'N/A'` (not FLE) or no ITF hex, the status comes from the QDF/ITF comparison alone |
| `UnitDataStatus.YieldsMeansSameValue` | FFRCheck_Project/src/processors/unit_data_sspec.py:313-343 | an unprefixed DFF value that yields `hex(n)` has value n in binary, hexadecimal or decimal |
| `UnitDataStatus.AmbiguousDffValue` | FFRCheck_Project/src/processors/unit_data_sspec.py:313-333 | the DFF text `10` yields `0X2`, `0X10` and `0XA`, so all three ITF values count as `dynamic` |
| `Helpers.BinaryToHexFast` | FFRCheck_Project/src/utils/helpers.py:6-27 | no contract of its own: `binary_to_hex_fast`. `BinaryToHexFastAgrees`, `BinaryToHexFastSpec` and `BinaryToHexFastOfBits` state what it gives |
| `Helpers.BinaryToHexFastAgrees` | FFRCheck_Project/src/utils/helpers.py:6-27 | `binary_to_hex_fast` agrees with `binary_to_hex` everywhere, except that it says `Q` where `binary_to_hex` says `''` (which covers `N/A`) |
| `Helpers.BinaryToHexFastSpec` | FFRCheck_Project/src/utils/helpers.py:16-24 | the result is `Q` exactly for `''`, `N/A`, blank input or a non-0/1 character after trimming; otherwise it is `0X` plus canonical upper-case hex of the value of the trimmed bits |
| `Helpers.BinaryToHexFastOfBits` | FFRCheck_Project/src/utils/helpers.py:24 | on a trimmed non-empty bit string the result is Python's `hex()` of its value, upper-cased |
| `Helpers.BinaryToHexFastZeros` | FFRCheck_Project/src/utils/helpers.py:24 | `0000` becomes `0X0`: leading zeros are dropped |
| `Helpers.BinaryToHexFastPadded` | FFRCheck_Project/src/utils/helpers.py:20-24 | whitespace around a bit string is stripped before conversion, so the padded string converts as the bare one does |
| `Helpers.ParseAll` | FFRCheck_Project/src/utils/helpers.py:46-47 | the list comprehension of `int()` succeeds iff every piece parses, and then holds the pieces' values in order |
| `Helpers.Zip` | FFRCheck_Project/src/utils/helpers.py:52 | `zip` pairs entry k with entry k up to the shorter length |
| `Helpers.BreakdownFuseStringFast` | FFRCheck_Project/src/utils/helpers.py:30-65 | the method returns exactly `BreakdownFuseString`: `''` on an empty argument or on any non-integer address, otherwise the slices of the zipped pairs |
| `Helpers.JoinSlices` | FFRCheck_Project/src/utils/helpers.py:49-62 | the pair loop, with its swap and clipping, joins the per-pair slices in the order the pairs are given |
| `Helpers.ExtractAsLoop` | FFRCheck_Project/src/utils/helpers.py:53-60 | one pair's swap and clipping give the same slice as `extract_fuse_bits` |
| `Helpers.SlicesLength` | FFRCheck_Project/src/utils/helpers.py:49-62 | the result length is the sum over the pairs of the size of [lo,hi] ∩ [0,len-1]; a pair wholly outside contributes nothing |
| `Helpers.ConcatInOrder` | FFRCheck_Project/src/utils/helpers.py:52-62 | the slices are concatenated in the order supplied: the first pairs' bits form a prefix of the result, so the pairs are never sorted |
| `Helpers.SlicesSwap` | FFRCheck_Project/src/utils/helpers.py:53-54 | reversing the two addresses of any one pair leaves the result unchanged |
| `Helpers.BreakdownEmptyCases` | FFRCheck_Project/src/utils/helpers.py:42-47 | the result is `''` for an empty fuse string or address field, or when any address piece (a blank one included) is not an integer |
| `Helpers.BreakdownIsZippedSlices` | FFRCheck_Project/src/utils/helpers.py:46-62 | otherwise it is the slices of the pairs up to the shorter list's length, and its length is the pairs' total overlap |
| `Helpers.ZipIgnoresExtras` | FFRCheck_Project/src/utils/helpers.py:52 | extra entries in the longer list are ignored |
| `Helpers.StaticCount` | FFRCheck_Project/src/utils/helpers.py:82 | the count of `0`/`1` characters is at most the length |
| `Helpers.CountsFit` | FFRCheck_Project/src/utils/helpers.py:82-84 | no character counts twice: static + dynamic + sort is at most the length |
| `Helpers.AnalyzeFuseStringBits` | FFRCheck_Project/src/utils/helpers.py:68-91 | None exactly for `''`; otherwise `register_size` is the length, and the three counts sum to at most it |
| `Helpers.AllBitsAreStatic` | FFRCheck_Project/src/utils/helpers.py:82 | every character of a 0/1 string counts as static |
| `Helpers.SortBitsIffMarker` | FFRCheck_Project/src/utils/helpers.py:84 | the sort count is positive iff the string carries `s` in either case, the same test as the sort-skip marker in the unit data processor |
| `Helpers.GetRegisterFuseString` | FFRCheck_Project/src/utils/helpers.py:94-109 | None iff no entry matches both register and QDF; otherwise the fuse string of the first entry that does |
| `Radix.HexDigits` | FFRCheck_Project/src/utils/helpers.py:24 | the digits of `hex(n)[2:]` are at least one hexadecimal digit |
| `Radix.PyHexUpper` | FFRCheck_Project/src/utils/helpers.py:24 | `hex(n).upper()` is `0X` followed by the digits of n |
| `Radix.HexRoundTrip` | FFRCheck_Project/src/utils/helpers.py:24 | reading back the hex digits of n gives n |
| `Radix.HexDigitsCanonical` | FFRCheck_Project/src/utils/helpers.py:24 | the hex digits of n are upper case with no leading zero, and they are `0` exactly for n = 0 |
| `Radix.HexDigitsInjective` | FFRCheck_Project/src/processors/unit_data_sspec.py:337 | distinct values have distinct hex forms, so comparing hex text compares values |
| `Radix.ParseHex` | FFRCheck_Project/src/processors/unit_data_sspec.py:324 | `int(s, 16)` succeeds exactly on hex-digit strings and gives their value |
| `Radix.TenInThreeBases` | FFRCheck_Project/src/processors/unit_data_sspec.py:313-333 | the text `10` is binary 2, hexadecimal 16 and decimal 10 |
| `ItfLines.MatchTnamePatterns` | FFRCheck_Project/src/parsers/itf_parser.py:167-179 | true iff the name is non-empty and some pattern is a substring of it or regex-matches it; false for an empty name or pattern list |
| `ItfLines.FirstMatch` | FFRCheck_Project/src/parsers/itf_parser.py:183-186 | the index of the first table row whose patterns match, with no earlier row matching |
| `ItfLines.FindSsidForTname` | FFRCheck_Project/src/parsers/itf_parser.py:181-186 | None iff no table entry matches; otherwise the domain, register and SSID of the first entry that matches |
| `ItfLines.TrailingDigitsStart` | FFRCheck_Project/src/parsers/itf_parser.py:190-194 | the start of the maximal run of ASCII digits ending the name |
| `ItfLines.FdSuffixSpec` | FFRCheck_Project/src/parsers/itf_parser.py:190-194 | the `_fd\d+$` suffix is found at i exactly when `_fd` and one or more digits end the name at i |
| `ItfLines.FdSplit` | FFRCheck_Project/src/parsers/itf_parser.py:188-195 | a suffixed name is its base, `_fd` and digits whose value is the fd number |
| `ItfLines.ExtractBaseTname` | FFRCheck_Project/src/parsers/itf_parser.py:188-190 | no contract of its own: the name without its `_fdN` suffix. `FdRoundTrip` and `NoFdSuffix` state what it gives |
| `ItfLines.ExtractFdNumber` | FFRCheck_Project/src/parsers/itf_parser.py:192-195 | no contract of its own: the `N` of an `_fdN` suffix, 0 without one. `FdRoundTrip` and `NoFdSuffix` state what it gives |
| `ItfLines.FdRoundTrip` | FFRCheck_Project/src/parsers/itf_parser.py:188-195 | naming fragment n of a base and reading it back gives the base and n |
| `ItfLines.NoFdSuffix` | FFRCheck_Project/src/parsers/itf_parser.py:188-195 | a name with no `_fdN` suffix is its own base and fragment 0 |
| `ItfLines.FirstSsidPart` | FFRCheck_Project/src/parsers/itf_parser.py:202-204 | the first `U1.U<digit>` field that has a field after it |
| `ItfLines.ExtractSsidAndValue` | FFRCheck_Project/src/parsers/itf_parser.py:197-205 | no contract of its own: the SSID and value at the end of a line. `ExtractSsidAndValueSpec` states what it gives |
| `ItfLines.ExtractSsidAndValueSpec` | FFRCheck_Project/src/parsers/itf_parser.py:197-205 | a found SSID is SSID-like and free of `_`, and the line ends with the SSID, `_` and the value |
| `ItfLines.FieldsByKeys` | FFRCheck_Project/src/parsers/itf_parser.py:214-224 | a ULT field is set iff some line sets it |
| `ItfLines.FieldsByLastWins` | FFRCheck_Project/src/parsers/itf_parser.py:214-224 | a set field has the value of the last line that sets it |
| `ItfLines.UltFieldLastWins` | FFRCheck_Project/src/parsers/itf_parser.py:216-224 | a later line overwrites an earlier one for the same lot/wafer/x/y field |
| `ItfLines.UltOfSome` | FFRCheck_Project/src/parsers/itf_parser.py:226-231 | an SSID has a ULT string iff one of its lines yields a non-empty value for some field |
| `ItfLines.ScanUltLines` | FFRCheck_Project/src/parsers/itf_parser.py:212-224 | the line loop leaves lot, wafer, x and y as the fields the lines set, and None where none does |
| `ItfLines.ParseUltDataForUnit` | FFRCheck_Project/src/parsers/itf_parser.py:207-233 | the result is `UltResults`: for each SSID with a field set, in order, `lot_wafer_xloc_yloc` with missing parts as `''` |
| `ItfLines.ResultsByKeys` | FFRCheck_Project/src/parsers/itf_parser.py:211-231 | an SSID of the input has a result iff its lines give a ULT string |
| `ItfLines.ResultsByMissing` | FFRCheck_Project/src/parsers/itf_parser.py:211 | an SSID that is not in the input has no result |
| `ItfLines.UltResultsKeys` | FFRCheck_Project/src/parsers/itf_parser.py:207-233 | an SSID is in the result iff one of its lines yields a non-empty value |
| `ItfExtract.SetAttr` | FFRCheck_Project/src/parsers/itf_parser.py:279-281 | a `key_value` body sets only keys of the fixed attribute set |
| `ItfExtract.FallThrough` | FFRCheck_Project/src/parsers/itf_parser.py:278-312 | the branch order is sound: a line taken by an attribute, visualid, tname or strgalt branch is never an `sstr` line, and a strgalt line falls through to the generic `2_` branch |
| `ItfExtract.Tail` | FFRCheck_Project/src/parsers/itf_parser.py:284-295 | Python's `s[n:]`, empty when `s` is shorter than n |
| `ItfExtract.StripAll` | FFRCheck_Project/src/parsers/itf_parser.py:251 | each line is taken stripped |
| `ItfExtract.ScanLine` | FFRCheck_Project/src/parsers/itf_parser.py:262-312 | the source's chain of prefix tests computes `Step` for the line's kind |
| `ItfExtract.ExtractItfData` | FFRCheck_Project/src/parsers/itf_parser.py:235-324 | the header is `HeaderAfter` of the stripped lines, and the units are the scan's finished units, with the last unit appended at end of input |
| `ItfExtract.ExtractLine` | FFRCheck_Project/src/parsers/itf_parser.py:250-312 | one turn of the line loop extends both the header and the scan by one line |
| `ItfExtract.HeaderFromKey` | FFRCheck_Project/src/parsers/itf_parser.py:256-259 | each header prefix sets its own field to the rest of the line, and no other field |
| `ItfExtract.HeaderFromAbsent` | FFRCheck_Project/src/parsers/itf_parser.py:256-259 | a field named by no prefix is unchanged |
| `ItfExtract.HeaderKeysDistinct` | FFRCheck_Project/src/parsers/itf_parser.py:256-257 | the seven header prefixes set seven distinct fields |
| `ItfExtract.LastStarting` | FFRCheck_Project/src/parsers/itf_parser.py:258-259 | the index of the last line that starts with the prefix; no later line does |
| `ItfExtract.HeaderLastWins` | FFRCheck_Project/src/parsers/itf_parser.py:256-259 | for distinct fields, a header field is the rest of the last line starting with its prefix, or unset when there is none |
| `ItfExtract.HeaderFieldLastWins` | FFRCheck_Project/src/parsers/itf_parser.py:256-259 | the same for the parser's own header prefixes `6_lotid_` … `4_tempr_` |
| `ItfExtract.BoundaryKind` | FFRCheck_Project/src/parsers/itf_parser.py:262 | only `3_lsep`/`3_lbeg` lines count as unit boundaries |
| `ItfExtract.StepUnits` | FFRCheck_Project/src/parsers/itf_parser.py:262-276 | a boundary appends the unit in progress, if any, and opens a fresh one; no other line changes the number of units |
| `ItfExtract.UnitCount` | FFRCheck_Project/src/parsers/itf_parser.py:262-318 | the parser returns one unit per boundary line, units without a visualid included |
| `ItfExtract.RunUnits` | FFRCheck_Project/src/parsers/itf_parser.py:262-276 | after any prefix of the lines, the finished units plus the unit in progress are the boundaries seen so far |
| `ItfExtract.StepAttrs` | FFRCheck_Project/src/parsers/itf_parser.py:278-309 | no step adds an attribute outside the fixed set |
| `ItfExtract.RunAttrs` | FFRCheck_Project/src/parsers/itf_parser.py:268-309 | every returned unit's attributes lie in the fixed attribute set |
| `ItfExtract.StepKeepsPending` | FFRCheck_Project/src/parsers/itf_parser.py:278-305 | `3_` attribute lines, `2_visualid_` lines, `2_sstr*` lines and lines at other levels leave the pending name and the recorded values unchanged |
| `ItfExtract.StepClearsPending` | FFRCheck_Project/src/parsers/itf_parser.py:262-312 | a boundary, a `2_tname_` line naming no table entry, and a generic `2_` line each clear the pending name |
| `ItfExtract.StepTname` | FFRCheck_Project/src/parsers/itf_parser.py:286-290 | a `2_tname_` line that maps to a table entry records the name with value `''`, overwriting any earlier value, and makes it pending |
| `ItfExtract.StepStoresValue` | FFRCheck_Project/src/parsers/itf_parser.py:294-296 | a `2_strgalt_fus_msbF_` line while a name is pending stores the line from column 19 as that name's value and clears pending |
| `ItfExtract.PendingKept` | FFRCheck_Project/src/parsers/itf_parser.py:278-312 | any run of lines that keep the pending name changes neither it nor the recorded values |
| `ItfExtract.TnameGetsValue` | FFRCheck_Project/src/parsers/itf_parser.py:286-296 | a matching `2_tname_` line followed, after lines that keep it pending, by a `2_strgalt_fus_msbF_` line gets that line's text as its value, and pending is then empty |
| `ItfRows.WithVisualidIn` | FFRCheck_Project/src/parsers/itf_parser.py:332-336 | a unit in a visual id's group is one of the input units and has that visual id |
| `ItfRows.WithVisualidHas` | FFRCheck_Project/src/parsers/itf_parser.py:332-336 | every unit with that visual id is in its group |
| `ItfRows.WithVisualidEmpty` | FFRCheck_Project/src/parsers/itf_parser.py:332-336 | a group is empty only when no unit has that visual id |
| `ItfRows.WithVisualidFirst` | FFRCheck_Project/src/parsers/itf_parser.py:341 | a group starts with the first unit that has its visual id |
| `ItfRows.GroupByGet` | FFRCheck_Project/src/parsers/itf_parser.py:332-336 | the group of v holds exactly the units with visual id v, in input order; units without a visual id are dropped |
| `ItfRows.GroupByShape` | FFRCheck_Project/src/parsers/itf_parser.py:332-338 | each visual id has one group, and no group is empty |
| `ItfRows.CombinedTnames` | FFRCheck_Project/src/parsers/itf_parser.py:343-344 | the merged test names have distinct keys |
| `ItfRows.CombinedTnamesLast` | FFRCheck_Project/src/parsers/itf_parser.py:343-344 | a test name repeated across the units of one visual id keeps the value from the later unit |
| `ItfRows.CombinedUlt` | FFRCheck_Project/src/parsers/itf_parser.py:345-348 | the merged ULT data holds every SSID that any unit of the group has |
| `ItfRows.CombinedUltFirst` | FFRCheck_Project/src/parsers/itf_parser.py:345-347 | an SSID repeated across the units of one visual id keeps the first unit's ULT string |
| `ItfRows.TnameRowsSound` | FFRCheck_Project/src/parsers/itf_parser.py:350-366 | each row carries one merged entry, the SSID, domain and register that the lookup gives its test name, that SSID's ULT string (`''` if none), and the group's attributes, header and file name |
| `ItfRows.TnameRowsComplete` | FFRCheck_Project/src/parsers/itf_parser.py:350-366 | every entry whose test name the mapping table knows has its row |
| `ItfRows.RowsWithHas` | FFRCheck_Project/src/parsers/itf_parser.py:338-366 | the rows of the groups are exactly the rows of each group |
| `ItfRows.VisualidRowsSound` | FFRCheck_Project/src/parsers/itf_parser.py:326-369 | every row has the mapping of its TNAME as its SSID, domain and register, the merged value and ULT over all units of its visual id, and the attributes of the first of those units |
| `ItfRows.VisualidRowsComplete` | FFRCheck_Project/src/parsers/itf_parser.py:326-369 | every known test name among a visual id's merged values has a row with the merged value |
| `ItfRows.GroupRowsComplete` | FFRCheck_Project/src/parsers/itf_parser.py:350-366 | the same within the rows of one group |
| `ItfRows.AllSsidsOfUnits` | FFRCheck_Project/src/parsers/itf_parser.py:345-348 | the SSIDs collected are exactly those with ULT data in some unit that has a visual id |
| `ItfRows.AllSsidsIn` | FFRCheck_Project/src/parsers/itf_parser.py:338-348 | an SSID is collected iff some group has ULT data for it |
| `ItfRows.UltSsidsIn` | FFRCheck_Project/src/parsers/itf_parser.py:345 | an SSID is in a group's ULT SSIDs iff some unit of the group has it |
| `ItfRows.GroupUnits` | FFRCheck_Project/src/parsers/itf_parser.py:332-336 | the grouping loop builds exactly `GroupBy` |
| `ItfRows.CombineUnits` | FFRCheck_Project/src/parsers/itf_parser.py:339-348 | the merge loop builds the merged ULT data and test names, and adds the group's SSIDs to the collected set |
| `ItfRows.CreateVisualidRows` | FFRCheck_Project/src/parsers/itf_parser.py:326-369 | the rows are `VisualidRows` and the SSID set is `AllSsids` of the groups |
| `ItfRows.VisualidGroup` | FFRCheck_Project/src/parsers/itf_parser.py:338-366 | the loop body for one visual id gives that group's rows and adds its ULT SSIDs |
| `ItfRows.GroupFragsBase` | FFRCheck_Project/src/parsers/itf_parser.py:383-386 | a (visualid, SSID, base tname) group exists iff some row falls in it, and its output starts from the group's first row with TNAME set to the base name |
| `ItfRows.GroupFragsValue` | FFRCheck_Project/src/parsers/itf_parser.py:375-381 | each fragment of a group holds the last value given for its fd number in that group |
| `ItfRows.GroupFragsDistinct` | FFRCheck_Project/src/parsers/itf_parser.py:373-386 | each group appears once |
| `ItfRows.JoinFragsAt` | FFRCheck_Project/src/parsers/itf_parser.py:394 | the joined value holds each fragment in turn at its offset, and its length is the sum of the fragment lengths |
| `ItfRows.FragmentShift` | FFRCheck_Project/src/parsers/itf_parser.py:394 | a fragment of the rest sits, in the whole, behind the first fragment |
| `ItfRows.JoinFragsLength` | FFRCheck_Project/src/parsers/itf_parser.py:394 | the output length is the sum of the fragment lengths |
| `ItfRows.FullRowShape` | FFRCheck_Project/src/parsers/itf_parser.py:393-401 | `FD_Count` is the number of distinct fd numbers, and the value is as long as all the fragments together |
| `ItfRows.FullRowFragment` | FFRCheck_Project/src/parsers/itf_parser.py:393-394 | fragments are concatenated in ascending fd order: fragment i sits at its offset, after every fragment with a smaller number |
| `ItfRows.UnsuffixedRow` | FFRCheck_Project/src/parsers/itf_parser.py:188-195 | a name without an `_fdN` suffix is fragment 0 of its own group, giving `FD_Count` 1 and `FD_Numbers` `0` |
| `ItfRows.GroupFragments` | FFRCheck_Project/src/parsers/itf_parser.py:373-386 | the grouping loop builds exactly `GroupFrags` |
| `ItfRows.CreateFullstringRows` | FFRCheck_Project/src/parsers/itf_parser.py:371-405 | the output is `FullstringRows`: one row per group, in group order |
| `ItfRows.FullRowsFor` | FFRCheck_Project/src/parsers/itf_parser.py:388-403 | one output row per group, with row j built from group j |
| `ItfRows.FullRowFor` | FFRCheck_Project/src/parsers/itf_parser.py:390-401 | the loop body for one group joins its fragments in fd-number order |
| `ItfRows.FilterFromArgumentSpec` | FFRCheck_Project/src/parsers/itf_parser.py:85-91 | for an argument other than blank or `*`, the filter holds exactly the stripped, non-blank comma pieces |
| `ItfRows.SelectUnitsSpec` | FFRCheck_Project/src/parsers/itf_parser.py:445-452 | a unit is kept iff it has a visual id that the filter, when set and non-empty, contains; order is kept |
| `ItfRows.ItfParser.constructor` | FFRCheck_Project/src/parsers/itf_parser.py:61-76 | the configured filter list applies only when filtering is enabled and the list is non-empty |
| `ItfRows.ItfParser.SetVisualidFilter` | FFRCheck_Project/src/parsers/itf_parser.py:78-93 | no argument, a blank argument or `*` lifts the filter; otherwise the filter is the set of non-blank stripped ids |
| `CsvMatch.FirstIndexSpec` | FFRCheck_Project/src/processors/csv_processor.py:68-75 | a non-empty key is indexed iff some fuse-definition row has it, and it maps to the first such row (the register index) |
| `CsvMatch.LastIndexSpec` | FFRCheck_Project/src/processors/csv_processor.py:77-83 | a non-empty key is indexed iff some row has it, and it maps to the last such row (the fuse-group and fuse-name indexes) |
| `CsvMatch.LastIndexKeys` | FFRCheck_Project/src/processors/csv_processor.py:77-83 | the keys of a last-wins index are the non-empty keys of the rows |
| `CsvMatch.LastIndexValue` | FFRCheck_Project/src/processors/csv_processor.py:77-83 | an indexed key maps to a row with that key and no later row has it |
| `CsvMatch.IndexesNext` | FFRCheck_Project/src/processors/csv_processor.py:68-83 | one more row adds its key to the first-wins index only when the key is new, and always overwrites it in the last-wins index |
| `CsvMatch.BuildIndexes` | FFRCheck_Project/src/processors/csv_processor.py:64-83 | the loop builds the three indexes on the stripped register, fuse-group and fuse name |
| `CsvMatch.MatchKeys` | FFRCheck_Project/src/processors/csv_processor.py:110-133 | no contract of its own: the three index lookups for one token row. `MatchFlags`, `MatchFuseColumns` and `MatchAddresses` state what they give |
| `CsvMatch.MatchFlags` | FFRCheck_Project/src/processors/csv_processor.py:110-133 | a flag is `match` iff the stripped key is non-empty and in its index; the token row is carried unchanged |
| `CsvMatch.MatchFuseColumns` | FFRCheck_Project/src/processors/csv_processor.py:125-133 | the fuse columns are `N/A` without a match; a fuse-name match overrides a fuse-group match for the row the fuse group is read from (see also lines 182-183 and lines 218-225 of the same file) |
| `CsvMatch.MatchAddresses` | FFRCheck_Project/src/processors/csv_processor.py:181-185 | the register name comes from the register row, empty without one; the addresses come from the fuse row, else the register row, else are empty (see also lines 227-234 of the same file) |
| `CsvMatch.TallyStepTokens` | FFRCheck_Project/src/processors/csv_processor.py:149-164 | a register mismatch always lists the token row under its register; a group or name mismatch lists it only when it is not already listed |
| `CsvMatch.ReportNext` | FFRCheck_Project/src/processors/csv_processor.py:106-192 | the report over one more token row is one loop step further |
| `CsvMatch.ReportEmpty` | FFRCheck_Project/src/processors/csv_processor.py:87-100 | no token rows give no combined rows, empty mismatch lists and no registers |
| `CsvMatch.ListedAll` | FFRCheck_Project/src/processors/csv_processor.py:106-147 | every token row is counted once under its register bucket, in input order |
| `CsvMatch.ListedMembers` | FFRCheck_Project/src/processors/csv_processor.py:149-164 | a record is in a global mismatch list iff some token row has that mismatch and that record |
| `CsvMatch.TallyStepCount` | FFRCheck_Project/src/processors/csv_processor.py:147-164 | each counter grows by one exactly when the token row has that mismatch |
| `CsvMatch.ReportBuckets` | FFRCheck_Project/src/processors/csv_processor.py:146-147 | a register bucket exists iff some token row has that stripped register, or `N/A` for a blank one |
| `CsvMatch.ReportTallies` | FFRCheck_Project/src/processors/csv_processor.py:146-164 | each bucket's counter equals the number of token rows in that bucket with that mismatch |
| `CsvMatch.TallySumRemove` | FFRCheck_Project/src/processors/csv_processor.py:146-164 | the sum of a counter over the buckets splits off any one bucket |
| `CsvMatch.TallySumUpdate` | FFRCheck_Project/src/processors/csv_processor.py:146-164 | replacing one bucket's tally changes the sum by the difference |
| `CsvMatch.ReportSums` | FFRCheck_Project/src/processors/csv_processor.py:146-164 | a counter summed over all buckets equals the length of its global mismatch list |
| `CsvMatch.MatchOne` | FFRCheck_Project/src/processors/csv_processor.py:106-192 | the loop body for one token row is one report step |
| `CsvMatch.LookupOne` | FFRCheck_Project/src/processors/csv_processor.py:110-133 | the three lookups give the matched register row and fuse row, with `match` flags that agree with them |
| `CsvMatch.RecordOne` | FFRCheck_Project/src/processors/csv_processor.py:135-192 | the bookkeeping for one looked-up token row is one report step |
| `CsvMatch.AppendMismatches` | FFRCheck_Project/src/processors/csv_processor.py:149-164 | each global list gains the token row's record exactly when it has that mismatch |
| `CsvMatch.CombineRow` | FFRCheck_Project/src/processors/csv_processor.py:166-190 | the combined row is the token row's columns plus the matched fuse-definition columns and the three flags |
| `CsvMatch.CountTally` | FFRCheck_Project/src/processors/csv_processor.py:147-164 | the bucket's tally takes exactly one step |
| `CsvMatch.CreateMatchedCsv` | FFRCheck_Project/src/processors/csv_processor.py:42-216 | the rows returned, the mismatch lists and the per-register tallies are those of the specified report over all token rows |
| `CsvDffCheck.VisualIdsSpec` | FFRCheck_Project/src/processors/csv_processor.py:399-402 | the visual ids are exactly those of the UBE rows |
| `CsvDffCheck.NestedIndexNext` | FFRCheck_Project/src/processors/csv_processor.py:399-416 | one more UBE row records its value under its key, if it has one |
| `CsvDffCheck.CreateLookupTables` | FFRCheck_Project/src/processors/csv_processor.py:390-418 | the loop builds the primary table, the WFR table and the visual-id set |
| `CsvDffCheck.AddToTable` | FFRCheck_Project/src/processors/csv_processor.py:405-415 | recording a value creates the key's entry when missing and sets the visual id's cell |
| `CsvDffCheck.NestedIndexKeys` | FFRCheck_Project/src/processors/csv_processor.py:404-415 | a key is in a table iff some UBE row has that key, and its entry is never empty |
| `CsvDffCheck.NestedIndexLastWins` | FFRCheck_Project/src/processors/csv_processor.py:404-415 | a cell exists iff some row writes it, and it holds the value of the last row that does |
| `CsvDffCheck.EntryInsert` | FFRCheck_Project/src/processors/csv_processor.py:404-415 | recording a row changes only its own key's entry, and there only its visual id's cell |
| `CsvDffCheck.WfrTableRows` | FFRCheck_Project/src/processors/csv_processor.py:411-415 | the WFR table holds a key iff some row whose level contains `WFR` in any case and whose MDPOSITION is non-empty gives that key |
| `CsvDffCheck.LookupUbeValues` | FFRCheck_Project/src/processors/csv_processor.py:315-329 | the lookup is the primary entry, else the WFR entry keyed by the level, else, for a WFR level with an MDPOSITION, the WFR entry keyed by that |
| `CsvDffCheck.PrimaryFirst` | FFRCheck_Project/src/processors/csv_processor.py:315-317 | a token whose name and level some UBE row has takes the primary entry, which is non-empty |
| `CsvDffCheck.FallbackOrder` | FFRCheck_Project/src/processors/csv_processor.py:319-329 | without a primary entry the level-keyed WFR entry comes first; with neither and no usable MDPOSITION there are no values |
| `CsvDffCheck.CellOfSpec` | FFRCheck_Project/src/processors/csv_processor.py:332-363 | a cell is missing without a value or with a non-positive `field_name_seq`; sequence 1 always yields a value; a value is a stripped piece that holds no separator; no cell is both missing and invalid |
| `CsvDffCheck.ExclusiveCounts` | FFRCheck_Project/src/processors/csv_processor.py:343-363 | two exclusive conditions hold on at most as many visual ids as there are |
| `CsvDffCheck.FlawBounds` | FFRCheck_Project/src/processors/csv_processor.py:343-363 | a row's missing and invalid cells together number at most the visual ids; a non-positive sequence makes every cell missing |
| `CsvDffCheck.CellsAlongSet` | FFRCheck_Project/src/processors/csv_processor.py:332 | filling the cells in sorted order gives each visual id its cell |
| `CsvDffCheck.CountWhereSet` | FFRCheck_Project/src/processors/csv_processor.py:332-363 | counting along the sorted ids counts each visual id once |
| `CsvDffCheck.CountWhereAlong` | FFRCheck_Project/src/processors/csv_processor.py:332-363 | the count along distinct ids is the size of the set of ids satisfying the condition |
| `CsvDffCheck.RegisterStatsSpec` | FFRCheck_Project/src/processors/csv_processor.py:350-363 | a register has stats iff some token row has it; its totals are its row count and the sums of its rows' missing and invalid cells (see also lines 288-295 of the same file) |
| `CsvDffCheck.CounterSpec` | FFRCheck_Project/src/processors/csv_processor.py:350-363 | a `register/token` key is in a counter iff its rows have a flaw of that kind, and it counts them all (see also lines 279-280 of the same file) |
| `CsvDffCheck.ExtractCell` | FFRCheck_Project/src/processors/csv_processor.py:335-359 | the `try` block gives exactly `CellOf` |
| `CsvDffCheck.FillCells` | FFRCheck_Project/src/processors/csv_processor.py:332-363 | the visual-id loop fills each id's cell and counts the missing and invalid cells |
| `CsvDffCheck.CellsAlongNext` | FFRCheck_Project/src/processors/csv_processor.py:332-363 | one more visual id adds exactly its cell |
| `CsvDffCheck.CountWhereNext` | FFRCheck_Project/src/processors/csv_processor.py:332-363 | one more visual id adds one to a count exactly when it qualifies |
| `CsvDffCheck.RowNext` | FFRCheck_Project/src/processors/csv_processor.py:283-365 | the report over one more token row is one loop step further |
| `CsvDffCheck.CheckRow` | FFRCheck_Project/src/processors/csv_processor.py:283-365 | one token row appends its output row and adds its flaws to its register's stats and to both counters |
| `CsvDffCheck.BumpCounter` | FFRCheck_Project/src/processors/csv_processor.py:350-363 | adding n to a counter creates the key only when n is positive |
| `CsvDffCheck.CountRow` | FFRCheck_Project/src/processors/csv_processor.py:288-295 | the register's stats take exactly one step |
| `CsvDffCheck.CreateDffMtlOlfCheck` | FFRCheck_Project/src/processors/csv_processor.py:269-388 | the rows and the statistics are those of the specified report over all token rows |
| `XmlParser.Nonblank` | FFRCheck_Project/src/parsers/xml_parser.py:124-125 | the cleaned pieces are non-blank stripped pieces of the input, no more of them than pieces |
| `XmlParser.CleanListCases` | FFRCheck_Project/src/parsers/xml_parser.py:124-125 | an empty string stands for one empty piece; otherwise every piece is non-blank and stripped |
| `XmlParser.PairFuseNamesRegisters` | FFRCheck_Project/src/parsers/xml_parser.py:113-150 | both strings are cleaned, then paired |
| `XmlParser.PairLists` | FFRCheck_Project/src/parsers/xml_parser.py:127-148 | the branches compute the specified pairing of the cleaned lists |
| `XmlParser.PairingCases` | FFRCheck_Project/src/parsers/xml_parser.py:127-148 | there is always a pair; equal lengths pair index by index; a single register or name is shared by all; with unequal lengths the shorter list's last element repeats; two non-empty lists give as many pairs as the longer has elements; each name keeps its place |
| `XmlParser.FieldRows` | FFRCheck_Project/src/parsers/xml_parser.py:51-75 | a field gives no rows (the parse fails) exactly when its `field_name_seq` is not an integer |
| `XmlParser.GatherNext` | FFRCheck_Project/src/parsers/xml_parser.py:39-92 | the rows of one more element are appended, or the whole fails |
| `XmlParser.GatherFail` | FFRCheck_Project/src/parsers/xml_parser.py:39-111 | gathering fails iff some element fails |
| `XmlParser.GatherFrom` | FFRCheck_Project/src/parsers/xml_parser.py:39-92 | every gathered row comes from some element, and elements that give rows give at least one row each |
| `XmlParser.TokenWithoutFields` | FFRCheck_Project/src/parsers/xml_parser.py:76-92 | a token without fields gives one row with its own attributes, blank field and fuse columns, and sequence number 0 |
| `XmlParser.FieldRowsPaired` | FFRCheck_Project/src/parsers/xml_parser.py:57-75 | each row of a field carries one pair of its own original fuse strings |
| `XmlParser.FieldRowsNonEmpty` | FFRCheck_Project/src/parsers/xml_parser.py:57-75 | a field that parses gives at least one row |
| `XmlParser.TokenRowsPaired` | FFRCheck_Project/src/parsers/xml_parser.py:48-92 | every row of a token is paired, and a token gives at least one row |
| `XmlParser.XmlRowsPaired` | FFRCheck_Project/src/parsers/xml_parser.py:39-101 | every row is paired and there are at least as many rows as tokens |
| `XmlParser.XmlRowsFail` | FFRCheck_Project/src/parsers/xml_parser.py:109-111 | the parse fails exactly when some field's sequence number is not an integer (see also line 53 of the same file) |
| `XmlParser.ParseField` | FFRCheck_Project/src/parsers/xml_parser.py:51-75 | the field loop body gives exactly the field's rows, or fails where `int()` raises |
| `XmlParser.AppendPairRows` | FFRCheck_Project/src/parsers/xml_parser.py:59-75 | one row per pair, in order |
| `XmlParser.ParseToken` | FFRCheck_Project/src/parsers/xml_parser.py:40-92 | the token loop body gives exactly the token's rows |
| `XmlParser.ParseXml` | FFRCheck_Project/src/parsers/xml_parser.py:22-111 | the rows of all tokens in order, or no rows at all when a sequence number fails to parse |
| `JsonParser.SanitizedAll` | FFRCheck_Project/src/parsers/json_parser.py:108 | one sanitised address per address |
| `JsonParser.JoinChars` | FFRCheck_Project/src/parsers/json_parser.py:108 | every character of a join comes from a part or the separator |
| `JsonParser.FormatAddressArraySpec` | FFRCheck_Project/src/parsers/json_parser.py:96-108 | an empty array gives `''`; comma-free sanitised addresses split back into themselves; the result carries no HTML markup |
| `JsonParser.ConcatMapNext` | FFRCheck_Project/src/parsers/json_parser.py:48-81 | the rows of one more element are appended |
| `JsonParser.ConcatMapAt` | FFRCheck_Project/src/parsers/json_parser.py:48-81 | row j of element i sits after the rows of all earlier elements |
| `JsonParser.ConcatMapUniform` | FFRCheck_Project/src/parsers/json_parser.py:51-81 | elements that each give n rows give their count times n rows |
| `JsonParser.GroupRows` | FFRCheck_Project/src/parsers/json_parser.py:57-72 | one row per fuse of a group |
| `JsonParser.GroupsRowsCount` | FFRCheck_Project/src/parsers/json_parser.py:57-72 | the groups give one row per fuse |
| `JsonParser.MissingRegisters` | FFRCheck_Project/src/parsers/json_parser.py:41-43 | a document without a `Registers` key gives no rows |
| `JsonParser.RegisterRowsCount` | FFRCheck_Project/src/parsers/json_parser.py:51-81 | a register gives, per register name, one row per fuse, or one blank row when it has no fuse groups |
| `JsonParser.NoGroupsRows` | FFRCheck_Project/src/parsers/json_parser.py:73-81 | without fuse groups, each register name gives its one blank row, in order |
| `JsonParser.FuseRowAt` | FFRCheck_Project/src/parsers/json_parser.py:51-72 | the row of name e, group g, fuse k sits after every row of earlier names and groups and carries that name, group and fuse with its formatted addresses |
| `JsonParser.AppendGroupRows` | FFRCheck_Project/src/parsers/json_parser.py:61-72 | the fuse loop appends the group's rows |
| `JsonParser.AppendEntryRows` | FFRCheck_Project/src/parsers/json_parser.py:52-81 | the entry loop body appends that entry's rows |
| `JsonParser.ParseFuseDef` | FFRCheck_Project/src/parsers/json_parser.py:22-94 | the rows are the specified table of the registers |
| `JsonParser.AppendRegisterRows` | FFRCheck_Project/src/parsers/json_parser.py:49-81 | the loop over one register's names appends its rows |
| `SspecParser.EntryOf` | FFRCheck_Project/src/parsers/sspec_parser.py:44-63 | a line yields an entry only when it starts with `FUSEDATA:` and its trimmed QDF field is a target, and the entry carries the line's number |
| `SspecParser.ParseSspecLines` | FFRCheck_Project/src/parsers/sspec_parser.py:21-66 | the entries are those of the lines in file order, and the QDF list holds each target exactly once |
| `SspecParser.ParseSspecLine` | FFRCheck_Project/src/parsers/sspec_parser.py:42-63 | the loop body adds exactly the current line's entry, if any |
| `SspecParser.EntriesFromTheirLines` | FFRCheck_Project/src/parsers/sspec_parser.py:42-63 | every entry is what its own numbered line yields, and line numbers strictly increase |
| `SspecParser.EntriesNumbered` | FFRCheck_Project/src/parsers/sspec_parser.py:42-63 | the same for any per-line rule that stamps the line number |
| `SspecParser.LinesYieldEntries` | FFRCheck_Project/src/parsers/sspec_parser.py:42-63 | every line that yields an entry contributes it |
| `SspecParser.LinesContribute` | FFRCheck_Project/src/parsers/sspec_parser.py:42-63 | the same for any per-line rule |
| `SspecParser.FuseStringAfterFourthColon` | FFRCheck_Project/src/parsers/sspec_parser.py:50-55 | with five pieces, the first four hold no colon and the line is the pieces rejoined, so the fuse string is everything after the fourth colon, colons included |
| `FfrProcessor.ParseTargetQdfs` | FFRCheck_Project/src/ffr_processor.py:70-83 | an absent, blank or `*` option gives no target QDFs (see also line 56 of the same file) |
| `FfrProcessor.ParseTargetQdfsSpec` | FFRCheck_Project/src/ffr_processor.py:70-83 | every target is a non-blank, stripped, comma-free piece, and every non-blank comma piece of an explicit option is a target |
| `FfrProcessor.CollectSpec` | FFRCheck_Project/src/ffr_processor.py:100-105 | a value is collected iff some line yields it |
| `FfrProcessor.DiscoveredQdfsSpec` | FFRCheck_Project/src/ffr_processor.py:100-105 | a QDF is discovered iff some `FUSEDATA:` line with at least three fields has it, trimmed, as its third field, blank included |
| `FfrProcessor.ResolveTargetQdfs` | FFRCheck_Project/src/ffr_processor.py:85-110 | a `*` option gives the discovered QDFs, listed sorted without repeats; any other option gives the targets parsed from that same option, as the constructor stores them (see also line 56); the list holds each QDF once |
| `FfrProcessor.DiscoverQdfs` | FFRCheck_Project/src/ffr_processor.py:98-105 | the discovery loop collects exactly the discovered QDFs |
| `FfrProcessor.QdfOfFuseLine` | FFRCheck_Project/src/ffr_processor.py:101-104 | the loop body reads the trimmed third field of a `FUSEDATA:` line with at least three fields |
| `Config.GetAfterSet` | FFRCheck_Project/src/utils/config.py:80-118 | after a successful `set` along a path, `get` along the same path returns the value set |
| `Config.SetFrame` | FFRCheck_Project/src/utils/config.py:102-118 | a `set` leaves every path that leaves the written path unchanged |
| `Config.EmptyReadsDefault` | FFRCheck_Project/src/utils/config.py:113-116 | below a dict that `set` created, only the written path holds anything |
| `Config.SetFailsOnScalar` | FFRCheck_Project/src/utils/config.py:113-118 | `set` raises exactly when some proper prefix of the path reaches a value that is not a dict |
| `Config.Collapse` | FFRCheck_Project/src/utils/config.py:60 | what `json.load` makes of a file: an object stays an object, a list stays a list and any other value is kept as it is; `CollapsedGet`, `CollapsedShape` and `CollapseNoRepeats` state what its objects hold |
| `Config.CollapsedGet` | FFRCheck_Project/src/utils/config.py:60 | in the dict `json.load` builds, a key written more than once reads the value of its last occurrence |
| `Config.CollapsedShape` | FFRCheck_Project/src/utils/config.py:60 | that dict holds each key of the file exactly once, and each of its entries is a key of the file with one of that key's values |
| `Config.CollapseNoRepeats` | FFRCheck_Project/src/utils/config.py:60 | what `json.load` returns repeats no key at any level of nesting |
| `Config.ToJson` | FFRCheck_Project/src/utils/config.py:60 | a parsed object becomes a dict with the same keys |
| `Config.UpdateKey` | FFRCheck_Project/src/utils/config.py:74-78 | merging one entry changes only its key; a value that is not a dict, or a key the base lacks, is stored as it is |
| `Config.DeepUpdate` | FFRCheck_Project/src/utils/config.py:66-78 | no contract of its own: the walk `_deep_update` makes over the entries of a dict, stopping at the first one that raises. `FailureStops`, `DeepUpdateFrame`, `DeepUpdateKeys`, `FirstFailure` and `WalkLastValueWins` state what it does |
| `Config.FailureStops` | FFRCheck_Project/src/utils/config.py:58-78 | once an entry raised, the later entries change nothing |
| `Config.DeepUpdateFrame` | FFRCheck_Project/src/utils/config.py:74-78 | keys that the merged entries do not name keep their values |
| `Config.DeepUpdateKeys` | FFRCheck_Project/src/utils/config.py:74-78 | the merged keys are the base's plus at most the keys named, exactly those when nothing raised |
| `Config.FirstFailure` | FFRCheck_Project/src/utils/config.py:74-78 | a merge that raised has a first raising entry, which changed only its own key, and nothing after it counts |
| `Config.WalkLastValueWins` | FFRCheck_Project/src/utils/config.py:74-78 | during the walk, once the last entry naming a key has been merged and its value is not a dict, the key holds that value whatever later entries do |
| `Config.LastValueWins` | FFRCheck_Project/src/utils/config.py:58-78 | after a load that raised nothing, a key whose last value in the file is not a dict holds that value, however many earlier entries named the key |
| `Config.RaiseKeepsEarlierEntry` | FFRCheck_Project/src/utils/config.py:58-78 | a file whose second entry raises still keeps what its first entry merged |
| `Config.PartialLoad` | FFRCheck_Project/src/utils/config.py:58-64 | a file setting the CSV delimiter and then merging a dict into the integer chunk size keeps the delimiter and the chunk size |
| `Config.PartialLoadKeepsEarlierEntries` | FFRCheck_Project/src/utils/config.py:58-64 | the same file loaded over the defaults keeps `;` and chunk size 10000 (see also lines 12-40 of the same file) |
| `Config.DelimiterThenBadChunkCollapses` | FFRCheck_Project/src/utils/config.py:60 | that file repeats no key, so `json.load` returns it unchanged |
| `Config.RepeatedSectionLastWins` | FFRCheck_Project/src/utils/config.py:58-78 | a file that gives the `output` section twice, the delimiter first and the decimal places second, changes only the decimal places |
| `Config.RepeatedSectionOverDefaults` | FFRCheck_Project/src/utils/config.py:58-64 | loaded over the defaults, that file keeps the delimiter `,` and sets the decimal places to 2 (see also lines 12-40 of the same file) |
| `Config.RepeatedSectionRaisesFirst` | FFRCheck_Project/src/utils/config.py:58-78 | a file giving `processing` twice, with a key `extra` in between, is merged with the second section in the place of the first; a raise there leaves every setting as it was and `extra` is never stored |
| `Config.MergeInto` | FFRCheck_Project/src/utils/config.py:66-78 | the recursive merge computes the specified merge over the dict it is given and reports whether it raised; `load` gives it what `json.load` returned |
| `Config.Config.constructor` | FFRCheck_Project/src/utils/config.py:39-49 | the settings are the defaults, with the user file merged in, as `json.load` returns it, when there is one |
| `Config.Config.Get` | FFRCheck_Project/src/utils/config.py:80-100 | the value along the dot-separated path, or the default as soon as a step is not a dict or lacks the key |
| `Config.Config.Set` | FFRCheck_Project/src/utils/config.py:102-118 | a successful `set` writes along the path, creating missing dicts; one that raises changes nothing |
| `Config.Config.Load` | FFRCheck_Project/src/utils/config.py:51-64 | the settings become the merge of the dict `json.load` makes of the file into the old settings, up to the entry that raised |
| `Config.Loaded` | FFRCheck_Project/src/utils/config.py:51-64 | a file that is not a dict changes nothing; otherwise the keys grow by at most the file's keys, a key written twice counting once |
| `Config.SplitPair` | FFRCheck_Project/src/utils/config.py:91 | a path of two separator-free keys splits into those keys |
| `Config.DefaultValues` | FFRCheck_Project/src/utils/config.py:12-40 | the defaults give chunk size 10000 and memory optimisation on, and a missing path gives the default (see also lines 80-100 of the same file) |
| `Config.Registry.GetConfig` | FFRCheck_Project/src/utils/config.py:144-168 | the first call builds the shared settings; every later call returns that same object |
| `Sanitizer.HtmlLookup` | FFRCheck_Project/src/utils/sanitizer.py:36 | the replacement table gives each character its HTML escape |
| `Sanitizer.HtmlEscape` | FFRCheck_Project/src/utils/sanitizer.py:36 | no contract of its own: `html.escape`. `HtmlEscapePerChar`, `HtmlEscapeNoMarkup` and `HtmlRoundTrip` state what it gives |
| `Sanitizer.HtmlEscapePerChar` | FFRCheck_Project/src/utils/sanitizer.py:36 | replacing `&` first and then `<`, `>`, `"`, `'` in turn is the same as escaping each character on its own |
| `Sanitizer.EntitiesNoMarkup` | FFRCheck_Project/src/utils/sanitizer.py:36 | text escaped character by character holds no raw markup |
| `Sanitizer.HtmlEscapeNoMarkup` | FFRCheck_Project/src/utils/sanitizer.py:36 | escaped text holds no raw `<`, `>`, `"` or `'` |
| `Sanitizer.UnescapeEntity` | FFRCheck_Project/src/utils/sanitizer.py:36 | unescaping an escaped character in front of more text gives back that character |
| `Sanitizer.HtmlRoundTrip` | FFRCheck_Project/src/utils/sanitizer.py:36 | unescaping undoes escaping, so escaping loses nothing |
| `Sanitizer.EntityRoundTrip` | FFRCheck_Project/src/utils/sanitizer.py:36 | the same for character-by-character escaping |
| `Sanitizer.SanitizeCsvField` | FFRCheck_Project/src/utils/sanitizer.py:15-38 | no contract of its own: `sanitize_csv_field`. `SanitizeCsvFieldSpec` and `SanitizeFormulaExample` state what it gives |
| `Sanitizer.SanitizeCsvFieldSpec` | FFRCheck_Project/src/utils/sanitizer.py:15-38 | `None` and `''` give `''` and nothing else does; the result holds no raw markup and cannot start a formula; unescaped, it is the value with a `'` put in front exactly when the value starts with `=`, `+`, `-`, `@`, a tab or a carriage return |
| `Sanitizer.PlainEntity` | FFRCheck_Project/src/utils/sanitizer.py:36 | a character other than `&` and markup is left as it is |
| `Sanitizer.SanitizeFormulaExample` | FFRCheck_Project/src/utils/sanitizer.py:31-36 | `=1` becomes `&#x27;=1` |
| `Sanitizer.SanitizeDict` | FFRCheck_Project/src/utils/sanitizer.py:40-50 | the sanitised dictionary has the same keys |
| `Sanitizer.SanitizeDictSpec` | FFRCheck_Project/src/utils/sanitizer.py:40-50 | each value is its own value sanitised, so no value holds raw markup |
| `DataSanitizer.HtmlEscapeText` | FFRCheck.py:38-40 | every false value escapes to `''`; other text escapes to text without markup that unescapes back to the text |
| `DataSanitizer.JsStringEscape` | FFRCheck.py:42-50 | a false value gives `''`; other text has each special character escaped, one character at a time |
| `DataSanitizer.JsLookup` | FFRCheck.py:46-47 | the replacement list gives each character its escape |
| `DataSanitizer.JsTableEntries` | FFRCheck.py:46-47 | every entry of the replacement list maps its character to that character's escape |
| `DataSanitizer.JsTableKeys` | FFRCheck.py:46-47 | a character is in the replacement list iff it is a backslash, a quote, a line break, a tab or an angle bracket; other characters are kept |
| `DataSanitizer.JsEscapeIsPerChar` | FFRCheck.py:48-49 | the replacements made in turn equal escaping each character on its own, because the backslash is replaced first |
| `DataSanitizer.JsNoLaterPattern` | FFRCheck.py:46-49 | no replacement introduces a character that a later replacement rewrites |
| `DataSanitizer.JsUnescapeEntity` | FFRCheck.py:46-49 | reading an escaped character back in front of more text gives that character |
| `DataSanitizer.JsRoundTrip` | FFRCheck.py:42-50 | reading the escapes back gives the original text |
| `DataSanitizer.JsEscapeNoRaw` | FFRCheck.py:42-50 | escaped text holds no raw line break, tab or angle bracket |
| `DataSanitizer.SanitizeFilename` | FFRCheck.py:56-58 | no contract of its own: `sanitize_filename`. `SanitizeFilenameSpec` states what it gives |
| `DataSanitizer.SanitizeFilenameSpec` | FFRCheck.py:56-58 | the name keeps its length; each forbidden character becomes `_` and every other character stays; no forbidden character remains |
| `DataSanitizer.SanitizeCsvField` | FFRCheck.py:60-64 | `None` gives `''`; a value starting with `=`, `+`, `-` or `@` gets a `'` in front and any other value is kept; the result never starts a formula |
| `MonolithUbe.MdSearchFromSpec` | FFRCheck.py:1884-1886 | the search finds the first `MDPOSITION=` at or after a position and returns the run of non-commas after it, which is never empty; no result means no occurrence (see also line 23 of the same file) |
| `MonolithUbe.MdSearchFound` | FFRCheck.py:1884-1886 | a found value belongs to the first occurrence (see also line 23 of the same file) |
| `MonolithUbe.MdSearchNone` | FFRCheck.py:1884-1886 | no result means no occurrence from that position on (see also line 23 of the same file) |
| `MonolithUbe.TokenPatternSpec` | FFRCheck.py:1905-1907 | on a line without a newline the token pattern matches iff the first `=` has text on both sides, and its groups are the text before and after it (see also line 24 of the same file) |
| `MonolithUbe.FindAbsent` | FFRCheck.py:24 | the search for an absent character runs to the end |
| `MonolithUbe.StripNonEmpty` | FFRCheck.py:1908 | a string that starts with a non-space has a non-empty strip |
| `MonolithUbe.TokenOf` | FFRCheck.py:1900-1909 | no contract of its own: the token of one part of a data line. `TokenOfExists`, `TokenOfValue` and `RawGroups` state what it gives |
| `MonolithUbe.TokenOfExists` | FFRCheck.py:1900-1906 | a part gives a token iff it is non-empty, does not start with `MDPOSITION=` and has text on both sides of its first `=` |
| `MonolithUbe.TokenOfValue` | FFRCheck.py:1905-1909 | a stripped part's token is its stripped text before and after the first `=`, neither empty |
| `MonolithUbe.TokenGroups` | FFRCheck.py:1905-1909 | a matching token's name and value are the stripped text around its first `=` |
| `MonolithUbe.NameShape` | FFRCheck.py:1905-1908 | the name is non-blank and holds no `=` |
| `MonolithUbe.ValueShape` | FFRCheck.py:1905-1909 | the value is non-blank |
| `MonolithUbe.Advance` | FFRCheck.py:1865-1919 | no contract of its own: the parser state after one line. `RunNext` and `EmittedFields` state what it does |
| `MonolithUbe.RunNext` | FFRCheck.py:1865-1919 | one more line advances the state one step and adds the entries it emits from the state before it |
| `MonolithUbe.VisualIdSpec` | FFRCheck.py:1860-1877 | there is no current visual id iff no `UNIT,` line has been read; otherwise it is that of the last one |
| `MonolithUbe.UltNone` | FFRCheck.py:1861-1882 | before any `UNIT,` line or header there is no ULT |
| `MonolithUbe.UltSpec` | FFRCheck.py:1873-1882 | the ULT is the last header's, unless a `UNIT,` line came after it, which resets it |
| `MonolithUbe.MdpositionSpec` | FFRCheck.py:1873-1886 | the MDPOSITION is that of the last data line that has one, unless a `UNIT,` line or header came after it |
| `MonolithUbe.MdpositionNone` | FFRCheck.py:1862-1886 | without any such line there is no MDPOSITION |
| `MonolithUbe.MdpositionLast` | FFRCheck.py:1873-1886 | the last `UNIT,`, header or `MDPOSITION=` line decides the MDPOSITION |
| `MonolithUbe.EntryOrigin` | FFRCheck.py:1865-1919 | each entry is emitted by one line from the state before it |
| `MonolithUbe.TokenEntriesMember` | FFRCheck.py:1899-1919 | an entry of a line is that line's template with the name and value of one of its token parts |
| `MonolithUbe.StripAbsent` | FFRCheck.py:1900 | stripping adds no character |
| `MonolithUbe.PieceTokenShape` | FFRCheck.py:1898-1909 | an emitted token name is non-blank and holds no `=` or comma, and its value holds no comma |
| `MonolithUbe.RawGroups` | FFRCheck.py:1905-1907 | the pattern's groups are split at the first `=` |
| `MonolithUbe.SplitNAbsent` | FFRCheck.py:1889 | a character absent from a line is absent from each piece of its bounded split |
| `MonolithUbe.SliceAbsent` | FFRCheck.py:1889 | a character absent from a string is absent from its slices |
| `MonolithUbe.SplitAbsent` | FFRCheck.py:1898 | a character absent from a string is absent from each piece of its split |
| `MonolithUbe.PieceTokenValue` | FFRCheck.py:1905-1909 | an emitted token value is never empty |
| `MonolithUbe.EmittedFields` | FFRCheck.py:1888-1919 | an entry comes from a data line with a comma, under a current visual id, with the ULT or `N/A`; its MDPOSITION is the current one for level `WFR` and `''` for any other level; its name is non-blank without `=` or comma |
| `MonolithUbe.NoEntriesBeforeUnit` | FFRCheck.py:1888 | a file without a `UNIT,` line gives no entries |
| `MonolithUbe.LastUnitExists` | FFRCheck.py:1873-1877 | after a `UNIT,` line there is a last one |
| `MonolithUbe.EntryUnit` | FFRCheck.py:1873-1912 | every entry carries the non-empty visual id of the last `UNIT,` line before its own line |
| `MonolithUbe.ParseUbeFileOptimized` | FFRCheck.py:1854-1927 | the entries are those the line state machine emits over the whole file |
| `MonolithUbe.ParseLine` | FFRCheck.py:1866-1919 | the loop body advances the state by one line and adds that line's entries |
| `MonolithUbe.ParseDataLine` | FFRCheck.py:1884-1919 | a data line adds exactly its entries |
| `MonolithUbe.ParseParts` | FFRCheck.py:1889-1919 | a line split at its first two commas adds the entries of its token parts |
| `MonolithUbe.TokenEntriesNext` | FFRCheck.py:1899-1919 | one more token part adds its entry, if any |
| `MonolithUbe.AppendTokens` | FFRCheck.py:1898-1919 | the token loop adds the entries of all token parts in order |
| `MonolithUbe.AppendTokenPart` | FFRCheck.py:1899-1919 | the token loop body adds the k-th part's entry, if any |
| `MonolithUbe.AppendToken` | FFRCheck.py:1906-1919 | a matched token adds one entry |
| `MonolithUbe.ParseTokenPart` | FFRCheck.py:1900-1909 | a blank or `MDPOSITION=` part is skipped; otherwise the stripped groups of the token pattern |
| `MonolithMatch.StopAt` | FFRCheck.py:2257-2280 | the scan stops at the first row that matches both register and fuse, and no earlier row does |
| `MonolithMatch.ScanNext` | FFRCheck.py:2257-2280 | one more row is one scan step |
| `MonolithMatch.ScanRegister` | FFRCheck.py:2262-2269 | the register row is found iff some row matches the register, and it is the first such row |
| `MonolithMatch.ScanFuse` | FFRCheck.py:2263-2277 | the group and name flags say whether some row matched; the fuse row is the last row that matched group or name |
| `MonolithMatch.ScanFlags` | FFRCheck.py:2263-2277 | each flag is set iff some scanned row matched it |
| `MonolithMatch.ScanFuseRow` | FFRCheck.py:2271-2277 | the fuse row exists iff some row matched, and it is the last such row |
| `MonolithMatch.NestedMatch` | FFRCheck.py:2247-2280 | no contract of its own: the outcome of the nested-loop match. `NestedMatchSpec`, `NestedRegisterSpec`, `NestedFlagsSpec` and `NestedAgainstPackage` state what it gives |
| `MonolithMatch.NestedMatchSpec` | FFRCheck.py:2247-2280 | the register row is the first row with that register; the flags and the last fuse row are taken from the rows read up to the stop |
| `MonolithMatch.NestedRegisterSpec` | FFRCheck.py:2262-2280 | the stop never cuts off the first register match |
| `MonolithMatch.NestedFlagsSpec` | FFRCheck.py:2263-2280 | the fuse flags and fuse row are those of the rows read |
| `MonolithMatch.ScanStops` | FFRCheck.py:2279-2280 | no row before the stop matches both register and fuse, and the rows after it are not read |
| `MonolithMatch.NestedRegisterAgainstIndexes` | FFRCheck.py:2257-2280 | the nested loop and the package's indexes always pick the same register row |
| `MonolithMatch.NestedFlagsAgainstIndexes` | FFRCheck.py:2257-2280 | a flag the nested loop sets the indexes set too; when no row stops the scan, flags and fuse presence agree |
| `MonolithMatch.NestedAgainstPackage` | FFRCheck.py:2226-2280 | the same comparison with the package's matcher on stripped fields |
| `MonolithMatch.NestedLookup` | FFRCheck.py:2248-2280 | the lookup for one token row gives the specified nested match |
| `MonolithMatch.ScanRows` | FFRCheck.py:2257-2280 | the inner loop computes the nested match |
| `MonolithMatch.ScanOne` | FFRCheck.py:2258-2280 | the inner loop body takes one scan step |
| `MonolithMatch.RowMatches` | FFRCheck.py:2258-2264 | each comparison needs both sides non-empty and equal, on stripped fields |
| `MonolithMatch.CreateMatchedCsvNested` | FFRCheck.py:2226-2358 | the rows and statistics are the package's report with the nested-loop matcher |
| `MonolithPairing.BlankPairing` | FFRCheck.py:2125-2126 | two blank strings pair as one pair of empty strings |
| `MonolithPairing.ProcessPairedFuseDataFast` | FFRCheck.py:2124-2154 | the same pairing as the XML parser, never empty, with the early return for two blank strings giving the same result |
| `MonolithDff.LookupRows` | FFRCheck.py:2426-2431 | one read row per entry |
| `MonolithDff.TablesAsWritten` | FFRCheck.py:2426-2444 | the as-written lookup build fails on the first entry without an MDPOSITION |
| `MonolithDff.AsWrittenAgrees` | FFRCheck.py:2421-2444 | the as-written build succeeds and equals the corrected one iff every entry has an MDPOSITION |
| `MonolithDff.StatsBuckets` | FFRCheck.py:1942-1956 | the corrected statistics pass gives one MDPOSITION bucket per entry; `StatisticsRaiseFirst` states what each bucket is |
| `MonolithDff.StatsBucketsAsWritten` | FFRCheck.py:1947 | no contract of its own: the statistics pass as written, which raises on the first entry whose MDPOSITION is `None`. `StatisticsRaiseFirst` and `StatisticsRaiseOnWfrEntry` state what it gives |
| `MonolithDff.StatisticsRaiseFirst` | FFRCheck.py:1929-1956 | the statistics pass raises on exactly the inputs on which `create_lookup_tables` raises, and otherwise counts each entry under its stripped MDPOSITION or `No MDPOSITION`; as `main` prints the statistics first, the run stops there (see also lines 3015-3055 of the same file) |
| `MonolithDff.StatisticsRaiseOnWfrEntry` | FFRCheck.py:1947 | on a `WFR` entry read before any `MDPOSITION=` the statistics pass raises, where the correction counts it under `No MDPOSITION` |
| `MonolithDff.WfrEntryWithoutMdposition` | FFRCheck.py:1873-1895 | a `WFR` entry emitted after a `UNIT,` line with no MDPOSITION since has none, and the as-written read fails on it (see also line 2431 of the same file) |
| `MonolithDff.NoMdpositionSinceUnit` | FFRCheck.py:1873-1886 | after a `UNIT,` line with no header or `MDPOSITION=` since, there is no MDPOSITION |
| `MonolithDff.WfrBeforeMdpositionRaises` | FFRCheck.py:2426-2444 | on one `WFR` entry read after a `UNIT` line and before any `MDPOSITION=` line, the as-written lookup-table build fails, and the corrected one files the entry under its token name and `WFR` in the main table only, not in the MDPOSITION table |
| `MonolithDff.LookupRowsNext` | FFRCheck.py:2426-2431 | one more entry adds its read row |
| `MonolithDff.MonolithWfrKeys` | FFRCheck.py:2438-2440 | the WFR table holds a key iff some row at level exactly `WFR` with a non-empty MDPOSITION gives it |
| `MonolithDff.CreateLookupTables` | FFRCheck.py:2421-2444 | the corrected build gives both tables and the visual ids sorted without repeats |
| `MonolithDff.AddUbeRow` | FFRCheck.py:2426-2440 | the loop body files entry k in both tables |
| `MonolithDff.FileRow` | FFRCheck.py:2433-2440 | a read row is filed in the tables built so far |
| `MonolithDff.ReadUbeRow` | FFRCheck.py:2427-2431 | the stripped fields of one entry |
| `MonolithDff.FieldValueSpec` | FFRCheck.py:2499-2522 | the field index is the sequence number minus one, or 0; a visual id without a value has no field; sequence numbers up to 1 always find one; a field is a stripped piece without a separator |
| `MonolithDff.VisualData` | FFRCheck.py:2481-2508 | no contract of its own: the values of a token. `VisualDataSpec` states what it gives |
| `MonolithDff.VisualDataSpec` | FFRCheck.py:2481-2508 | a token some row files under its name and level gets that non-empty entry; otherwise only the ssid `WFR` falls back to the WFR table keyed by the level, and every other token has no values |
| `MonolithDff.CellsSpec` | FFRCheck.py:2515-2536 | the row has a cell for every visual id and no other, holding its field or `''` |
| `MonolithDff.TallySpec` | FFRCheck.py:2510-2529 | no field at all iff no visual id has one; the `-999` ids are exactly those whose field is `-999`; they number at most the fields found, which number at most the visual ids |
| `MonolithDff.InvalidIdsSorted` | FFRCheck.py:2516-2529 | the `-999` ids keep the sorted order |
| `MonolithDff.InvalidIdsWithin` | FFRCheck.py:2527-2529 | the `-999` ids are visual ids |
| `MonolithDff.TallyNext` | FFRCheck.py:2516-2533 | one more visual id adds its cell and, when it has a field, one to the count and possibly itself to the `-999` ids |
| `MonolithDff.CheckVisualIds` | FFRCheck.py:2510-2536 | the visual-id loop gives the cells, the fields found, the `-999` ids and their count |
| `MonolithDff.VisualIdListSpec` | FFRCheck.py:2554 | up to five ids are listed in full, comma-joined; more are cut to the first five |
| `MonolithDff.CombinedRowsSpec` | FFRCheck.py:2473-2600 | one CSV row per MTL row, in order |
| `MonolithDff.GroupedKeys` | FFRCheck.py:2549-2570 | a register has a list iff some of its rows has an item, and the list is never empty |
| `MonolithDff.GroupedKeysStep` | FFRCheck.py:2549-2570 | the last row adds its register when it has an item, and lists only grow |
| `MonolithDff.GroupedMembers` | FFRCheck.py:2549-2570 | a register's list holds exactly the items of its rows |
| `MonolithDff.RowOutcomeSpec` | FFRCheck.py:2499-2551 | a row is missing iff no visual id yields a field; its `-999` ids are exactly those with field `-999`, sorted, and no more than its fields |
| `MonolithDff.InvalidTokenSpec` | FFRCheck.py:2551-2570 | each invalid token has between one and all its counted fuses at `-999`, status `Invalid`, and sits under its own register |
| `MonolithDff.MissingRegisterSpec` | FFRCheck.py:2538-2549 | a register lists missing tokens iff one of its MTL rows found no field |
| `MonolithDff.RowsSpec` | FFRCheck.py:2473-2537 | one row per MTL row, with the stripped MTL columns and a cell for every visual id and no other |
| `MonolithDff.ReportNext` | FFRCheck.py:2473-2600 | one more MTL row adds its CSV row and its missing and invalid items |
| `MonolithDff.CreateDffMtlOlfCheckCsv` | FFRCheck.py:2446-2600 | no result when either input is empty; otherwise the rows and per-register lists of the check over the corrected tables and the sorted visual ids |
| `MonolithDff.CheckXmlRows` | FFRCheck.py:2473-2600 | the loop over the MTL rows computes the specified report |
| `MonolithDff.CheckXmlRow` | FFRCheck.py:2474-2600 | the loop body adds the i-th row's outcome |
| `MonolithDff.ExamineXmlRow` | FFRCheck.py:2474-2536 | the lookup and visual-id loop give the row's outcome, with data iff some field was found |
| `MonolithQdf.TargetQdfSet` | FFRCheck.py:1716-1720 | no contract of its own: the trimmed comma pieces of a non-blank option. `TargetQdfSetAgainstPackage`, `TargetQdfSetWildcard` and `QdfSelection.ReadTargetQdfSet` state what it gives |
| `MonolithQdf.TargetQdfSetAgainstPackage` | FFRCheck.py:1716-1720 | for an explicit option the package's targets are the monolith's minus the empty piece; no option gives none in both |
| `MonolithQdf.SplitWithoutSeparator` | FFRCheck.py:1719 | a string without a comma is one piece |
| `MonolithQdf.TargetQdfSetWildcard` | FFRCheck.py:1716-1720 | `target_qdf_set` has no wildcard: `*` is a QDF named `*` |
| `MonolithQdf.DiscoverAllQdfsFromSspec` | FFRCheck.py:1793-1815 | the discovery loop collects the non-blank third fields |
| `MonolithQdf.QdfOfLine` | FFRCheck.py:1801-1808 | the trimmed third field of a `FUSEDATA:` line, when it is not blank |
| `MonolithQdf.DiscoverAgainstPackage` | FFRCheck.py:1800-1808 | the monolith discovers the package's QDFs without the blank one, and never the blank one |
| `MonolithQdf.ResolvedQdfs` | FFRCheck.py:1817-1838 | no contract of its own: what `resolve_target_qdfs` returns while nothing is cached. `ResolveAgainstPackage` and `ExplicitKeepsBlankPiece` state what it gives |
| `MonolithQdf.ResolveAgainstPackage` | FFRCheck.py:1817-1838 | for the wildcard the monolith resolves the package's discovered QDFs minus the blank one; otherwise the package's targets are the monolith's minus the blank piece; a blank option resolves to none |
| `MonolithQdf.ExplicitKeepsBlankPiece` | FFRCheck.py:1834 | an explicit option with a blank piece resolves to the blank QDF in the monolith, never in the package |
| `MonolithQdf.QdfSelection.constructor` | FFRCheck.py:1700-1712 | a checker starts with its option and nothing cached |
| `MonolithQdf.QdfSelection.ReadTargetQdfSet` | FFRCheck.py:1716-1720 | the property returns the cached set once there is one; before that it returns the option's pieces and caches them unless the option is blank |
| `MonolithQdf.QdfSelection.ResolveTargetQdfs` | FFRCheck.py:1817-1838 | no QDF for a blank option. For the wildcard: the non-blank discovered QDFs, listed sorted, and the option and cache are both overwritten with them, so a later `target_qdf_set` gives those QDFs. Otherwise: what `target_qdf_set` reads, cached. The list always holds each QDF once |
| `ItfRows.MakeRows` | FFRCheck_Project/src/parsers/itf_parser.py:350-366 | the rows made for one visual id's merged TNAMEs are `TnameRows`: one row per TNAME that maps to an SSID, in TNAME order, each carrying that SSID's combined ULT |
| `MonolithDff.CheckVisualId` | FFRCheck.py:2516-2533 | one turn of the visual-id loop extends the cells, the filled count, the data flag and the list of ids holding `-999` from the first k visual ids to the first k+1 |
| `Config.Registry.constructor` | FFRCheck_Project/src/utils/config.py:143 | before the first `get_config` no instance exists |
| `Ordering.SortedStrings` | FFRCheck_Project/src/ffr_processor.py:108 | `sorted(set)`: strictly increasing, holding exactly the set's elements, as many as the set has |
| `Ordering.SortedUnique` | FFRCheck_Project/src/ffr_processor.py:108 | two strictly increasing lists with the same elements are equal, so `sorted` of a set has one answer |
| `Ordering.ListOfSet` | FFRCheck_Project/src/ffr_processor.py:110 | `list(set)`: every element of the set exactly once and nothing else |
| `Ordering.SortedNats` | FFRCheck_Project/src/parsers/itf_parser.py:393 | `sorted` of the FD numbers: strictly increasing, exactly the set's numbers |
| `Text.StripIdempotent` | FFRCheck_Project/src/processors/csv_processor.py:69-71 | stripping a stripped text changes nothing |
| `Text.SplitNSpec` | FFRCheck_Project/src/parsers/sspec_parser.py:50 | `split(c, n)`: the pieces before the last hold no separator, and joining the pieces with it gives the line back |
| `Text.SplitNJoin` | FFRCheck_Project/src/parsers/sspec_parser.py:50 | joining the pieces of `split(c, n)` with the separator gives the text back |
| `Text.JoinSplit` | FFRCheck.py:2519 | joining the pieces of `split(c)` with the separator gives the text back |
| `Text.SplitJoin` | FFRCheck.py:2555 | splitting a join of separator-free pieces gives the pieces back |
| `Text.ReplaceAllIsLookup` | FFRCheck.py:48-49 | replacements made one after the other, none of which introduces a later pattern, equal replacing each character by its first table entry |
| `Text.PyInt` | FFRCheck_Project/src/parsers/xml_parser.py:53 | `int(s)` succeeds iff the stripped text is all ASCII digits, and then gives its decimal value |
| `Text.DecimalRoundTrip` | FFRCheck_Project/src/parsers/itf_parser.py:400 | reading the decimal text of a number gives the number back |
| `Text.Upper` | FFRCheck_Project/src/processors/csv_processor.py:326 | `upper()` keeps the length and upper-cases each ASCII letter in place |
| `Assoc.PutGet` | FFRCheck_Project/src/parsers/itf_parser.py:347 | after `d[k] = v`, key k reads v and every other key reads what it read before |
| `Assoc.PutShape` | FFRCheck_Project/src/parsers/itf_parser.py:347 | a new key goes at the end; a present key keeps its place; keys stay distinct |
| `Assoc.UpdateGet` | FFRCheck_Project/src/parsers/itf_parser.py:344 | after `d.update(e)` a key of `e` reads its value in `e` and any other key its value in `d` |
| `Assoc.UpdateShape` | FFRCheck_Project/src/parsers/itf_parser.py:344 | `update` keeps the keys of `d` in their places and their distinctness |
| `Assoc.AddAbsentGet` | FFRCheck_Project/src/parsers/itf_parser.py:345-348 | adding only absent keys keeps the first value seen for a key; the keys are the union |
| `Assoc.AppendGet` | FFRCheck.py:2549 | appending to a list-valued entry extends that key's list (an empty one when absent) and leaves other keys alone |
| `Radix.HexChar` | FFRCheck_Project/src/utils/helpers.py:24 | the upper-case hexadecimal digit for a value below 16 reads back as that value |
| `Radix.BitsAreHexDigits` | FFRCheck_Project/src/processors/unit_data_sspec.py:314-331 | every bit string is also a hexadecimal string, so a binary DFF value also yields a base-16 candidate |
| `UnitDataStatus.PrefixedIsNotNa` | FFRCheck_Project/src/processors/unit_data_sspec.py:301-305 | a `0X`-prefixed text is never the `N/A` placeholder |

## Left out

- `Text.Upper`, `Text.Lower`: only the ASCII letters are folded. Python's `upper`/`lower` also fold non-ASCII letters, and `'ß'.upper()` is `'SS'`, which changes the length. So a non-ASCII FLE name or hex text is compared differently here.
- The monolith's own `parse_xml_optimized` is not modelled. It is not a copy of the package's XML parser: it numbers `field_name_seq` by position (`enumerate(..., 1)`, FFRCheck.py:2027 and 2038) rather than reading the attribute, and it passes every text through `sanitize_csv_field` (FFRCheck.py:2119-2122).
- `Config.Collapse`: a JSON number with a fraction or an exponent is an exact `real`, not a double rounded the way `json.load` rounds it; the settings only store and return such numbers.
- `UnitDataSspec.AddressOrZero`: `int()` is read over ASCII digits only. A sign, underscores or non-ASCII digits are not accepted, so an address such as `-3` (which Python reads as -3) makes the pair fall back to `(0, 0)`.
- `Helpers.BreakdownFuseStringFast`: for the same reason, a negative address in a multi-range list gives `''` for the whole call, where Python would slice from the end of the string.
- `XmlParser.ParseField`: a negative `field_name_seq` such as `-1` is accepted by Python but gives `None` here, so the whole parse gives no rows.
- `UnitDataStatus.HexadecimalReading`: `int(d, 16)` also accepts a `0x` prefix, a sign and underscores; the model accepts hexadecimal digits only, so those DFF values yield no base-16 candidate.
- `ItfLines.MatchTnamePatterns`: the regular-expression search is the parameter `search`; the regex engine itself is not modelled.
- `ItfLines.FindSsidForTname`: the same `search` parameter stands for `re.search`.
- `Config.Config.constructor`: `DEFAULTS.copy()` is a shallow copy, so in Python a later `set` or `load` into a nested section also changes the module-level defaults. The model treats settings as values, so that aliasing is not captured.
- `Config`: `to_dict` and `save` (writing the settings to a file) are not modelled.
- `ItfRows.CreateVisualidRows`: the per-pair `tname_mapping_stats` counter is not returned.
- `Sanitizer.SanitizeDict`: the result is a map, so the key order of the dict is not kept. The writers order columns by their own header lists.
- `load_fle_fuses`: the walk over the FLE JSON file is not modelled; the set of FLE fuse names is an input.
- File access: opening and reading files, gzip, directory scans for input files and every CSV/JSON/XML writer (`_write_itf_csv`, `write_csv_streaming`, `export_*`). The model starts from lines or parsed records.
- Statistics and printing (of `print_ube_statistics_optimized` only the per-entry MDPOSITION read is modelled, in `MonolithDff.StatsBuckets`): progress messages, `_print_match_statistics`, `_print_dff_check_statistics`, percentages and timing (`utils/performance.py`).
- HTML report generation, the GUI, the command-line entry points and logging.
- `ube_parser.py` is a stub in the package; the monolith's UBE parser is modelled instead (`MonolithUbe`).
- The wiring in the `FFRProcessor` constructor and the choice of output file names are not modelled; the resolved QDFs and the parsed inputs are parameters.

## Findings

| source | as written | input that shows it | evidently intended | confidence | as-written member | corrected member |
|---|---|---|---|---|---|---|
| FFRCheck.py:1947 | `print_ube_statistics_optimized` calls `.strip()` on the `MDPOSITION` of every UBE entry, and `create_lookup_tables` does the same at FFRCheck.py:2431. The UBE parser stores `None` there for a `WFR` entry read before any `MDPOSITION=` line of its unit (FFRCheck.py:1918). `main` prints the statistics (FFRCheck.py:3015) before it builds the DFF check (FFRCheck.py:3055), and nothing catches the error, so the whole run aborts at FFRCheck.py:1947: no XML, JSON, combined CSV or DFF output is written, and FFRCheck.py:2431 is never reached | a `UNIT` line followed by a `WFR` data line, with no `MDPOSITION=` line in between | a missing MDPOSITION is read as empty at both sites: the statistics count the entry under `No MDPOSITION`, and the lookup tables file it under its token name and `WFR` in the main table only, not in the MDPOSITION table | not executed | `MonolithDff.StatsBucketsAsWritten`, `MonolithDff.StatisticsRaiseOnWfrEntry`, `MonolithDff.TablesAsWritten`, `MonolithDff.WfrBeforeMdpositionRaises` | `MonolithDff.StatsBuckets`, `MonolithDff.StatisticsRaiseFirst`, `MonolithDff.CreateLookupTables`, `MonolithDff.AsWrittenAgrees` |
