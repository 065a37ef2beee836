/** The MTL_OLF token table: each token's fields, with their comma-separated fuse names paired
    with their comma-separated fuse registers, one row per pair. The XML is given parsed. */
module XmlParser {
  import opened Text
  import opened Wrappers

  /** A `token` element: its attributes and the attributes of each of its `field` children. */
  datatype Token = Token(attrs: map<string, string>, fields: seq<map<string, string>>)

  /** One row of the token table. */
  datatype XmlRow = XmlRow(dffTokenId: string, tokenName: string, firstSocketUpload: string,
                           uploadProcessStep: string, ssid: string, refLevel: string, moduleName: string,
                           fieldName: string, fieldNameSeq: int, fuseNameOri: string, fuseName: string,
                           fuseRegisterOri: string, fuseRegister: string)

  /** `element.get(k, '')` */
  function Attr(m: map<string, string>, k: string): string
  {
    if k in m then m[k] else ""
  }

  // ---------------------------------------------------------------------------------------
  // Pairing fuse names with fuse registers

  /** The stripped non-blank pieces, in order. */
  function Nonblank(pieces: seq<string>): (r: seq<string>)
    ensures forall x :: x in r ==> x != "" && exists p :: p in pieces && Strip(p) == x
    ensures |r| <= |pieces|
  {
    if pieces == [] then []
    else (if Strip(pieces[0]) != "" then [Strip(pieces[0])] else []) + Nonblank(pieces[1..])
  }

  /** `[p.strip() for p in s.split(',') if p.strip()] if s else ['']` */
  function CleanList(s: string): seq<string>
  {
    if s == "" then [""] else Nonblank(Split(s, ','))
  }

  function Min(a: nat, b: nat): nat { if a <= b then a else b }

  function Max(a: nat, b: nat): nat { if a <= b then b else a }

  /** The pairing as one rule: with both lists non-empty, pair `i` takes name `min(i, n-1)` and
      register `min(i, m-1)`, for `i` below the longer length, so a shorter list repeats its
      last element; with either list empty, one pair of the first elements or `''`. */
  function Pairing(names: seq<string>, regs: seq<string>): (r: seq<(string, string)>)
  {
    if names != [] && regs != [] then
      seq(Max(|names|, |regs|), i requires 0 <= i < Max(|names|, |regs|) =>
        (names[Min(i, |names| - 1)], regs[Min(i, |regs| - 1)]))
    else [(if names != [] then names[0] else "", if regs != [] then regs[0] else "")]
  }

  /** `_pair_fuse_names_registers`: both strings cleaned, then paired. */
  method PairFuseNamesRegisters(fuseNameOriginal: string, fuseRegisterOriginal: string) returns (paired: seq<(string, string)>)
    ensures paired == Pairing(CleanList(fuseNameOriginal), CleanList(fuseRegisterOriginal))
  {
    var names := CleanList(fuseNameOriginal);
    var regs := CleanList(fuseRegisterOriginal);
    paired := PairLists(names, regs);
  }

  /** The branches of `_pair_fuse_names_registers` on the cleaned lists. */
  method PairLists(names: seq<string>, regs: seq<string>) returns (paired: seq<(string, string)>)
    ensures paired == Pairing(names, regs)
  {
    var lenNames, lenRegs := |names|, |regs|;
    ghost var spec := Pairing(names, regs);
    if lenNames == lenRegs && lenNames > 1 {
      paired := seq(lenNames, i requires 0 <= i < lenNames => (names[i], regs[i]));
      forall i | 0 <= i < lenNames ensures paired[i] == spec[i] { }
    } else if lenNames > 1 && lenRegs == 1 {
      paired := seq(lenNames, i requires 0 <= i < lenNames => (names[i], regs[0]));
      forall i | 0 <= i < lenNames ensures paired[i] == spec[i] { }
    } else if lenNames == 1 && lenRegs > 1 {
      paired := seq(lenRegs, i requires 0 <= i < lenRegs => (names[0], regs[i]));
      forall i | 0 <= i < lenRegs ensures paired[i] == spec[i] { }
    } else if lenNames > 1 && lenRegs > 1 && lenNames != lenRegs {
      var minCount := Min(lenNames, lenRegs);
      paired := seq(minCount, i requires 0 <= i < minCount => (names[i], regs[i]));
      forall i | 0 <= i < minCount ensures paired[i] == spec[i] { }
      assert paired == spec[..minCount];
      if lenNames > minCount {
        var lastRegister := regs[lenRegs - 1];
        for i := minCount to lenNames
          invariant paired == spec[..i]
        {
          assert spec[i] == (names[i], lastRegister);
          assert spec[..i + 1] == spec[..i] + [spec[i]];
          paired := paired + [(names[i], lastRegister)];
        }
      } else {
        var lastName := names[lenNames - 1];
        for i := minCount to lenRegs
          invariant paired == spec[..i]
        {
          assert spec[i] == (lastName, regs[i]);
          assert spec[..i + 1] == spec[..i] + [spec[i]];
          paired := paired + [(lastName, regs[i])];
        }
      }
      assert spec[..|spec|] == spec;
    } else {
      paired := [(if names != [] then names[0] else "", if regs != [] then regs[0] else "")];
    }
  }

  /** The cases of the pairing: equal lengths zip; a single name or register is broadcast;
      leftovers of the longer list take the last element of the shorter; the output is never
      empty, as long as the longer list when both are non-empty, and keeps the names' order. */
  lemma PairingCases(names: seq<string>, regs: seq<string>)
    ensures |Pairing(names, regs)| >= 1
    ensures names != [] && regs != [] ==> |Pairing(names, regs)| == Max(|names|, |regs|)
    ensures |names| == |regs| ==> forall i :: 0 <= i < |names| ==> Pairing(names, regs)[i] == (names[i], regs[i])
    ensures |names| >= 1 && |regs| == 1 ==> forall i :: 0 <= i < |names| ==> Pairing(names, regs)[i] == (names[i], regs[0])
    ensures |names| == 1 && |regs| >= 1 ==> forall i :: 0 <= i < |regs| ==> Pairing(names, regs)[i] == (names[0], regs[i])
    ensures |names| > |regs| > 0 ==> forall i :: |regs| <= i < |names| ==> Pairing(names, regs)[i] == (names[i], regs[|regs| - 1])
    ensures |regs| > |names| > 0 ==> forall i :: |names| <= i < |regs| ==> Pairing(names, regs)[i] == (names[|names| - 1], regs[i])
    ensures names != [] && regs != [] ==> forall i :: 0 <= i < |names| ==> Pairing(names, regs)[i].0 == names[i]
  {
  }

  /** A blank name or register list stands for one empty piece; a list of blanks for none. */
  lemma CleanListCases(s: string)
    ensures s == "" ==> CleanList(s) == [""]
    ensures s != "" ==> forall x :: x in CleanList(s) ==> x != "" && x == Strip(x)
  {
    if s != "" {
      forall x | x in CleanList(s) ensures x != "" && x == Strip(x) {
        var p :| p in Split(s, ',') && Strip(p) == x;
        StripIdempotent(p);
      }
    }
  }

  // ---------------------------------------------------------------------------------------
  // The rows of the tokens

  /** `int(field.get('field_name_seq', 0))` */
  function SeqOf(field: map<string, string>): IntParse
  {
    if "field_name_seq" in field then PyInt(field["field_name_seq"]) else Parsed(0)
  }

  /** The row of token `t` for one pair of field `field`, whose sequence number is `n`. */
  function PairRow(t: Token, field: map<string, string>, n: int, pair: (string, string)): XmlRow
  {
    XmlRow(Attr(t.attrs, "dff_token_id"), Attr(t.attrs, "token_name"), Attr(t.attrs, "first_socket_upload"),
           Attr(t.attrs, "upload_process_step"), Attr(t.attrs, "ssid"), Attr(t.attrs, "ref_level"),
           Attr(t.attrs, "module"), Attr(field, "field_name"), n, Attr(field, "fuse_name"), pair.0,
           Attr(field, "fuse_register"), pair.1)
  }

  /** The pairs of one field. */
  function FieldPairs(field: map<string, string>): seq<(string, string)>
  {
    Pairing(CleanList(Attr(field, "fuse_name")), CleanList(Attr(field, "fuse_register")))
  }

  /** The rows of one field with sequence number `n`, one per pair. */
  function PairRows(t: Token, field: map<string, string>, n: int, pairs: seq<(string, string)>): seq<XmlRow>
  {
    seq(|pairs|, i requires 0 <= i < |pairs| => PairRow(t, field, n, pairs[i]))
  }

  /** The rows of one field, `None` when its sequence number is not an integer. */
  function FieldRows(t: Token, field: map<string, string>): (r: Option<seq<XmlRow>>)
    ensures r.None? <==> SeqOf(field).NotAnInt?
  {
    var n := SeqOf(field);
    if n.NotAnInt? then None else Some(PairRows(t, field, n.value, FieldPairs(field)))
  }

  /** The rows that `rowsOf` gives each element, in turn; `None` as soon as one gives `None`. */
  function Gather<X>(xs: seq<X>, rowsOf: X -> Option<seq<XmlRow>>): Option<seq<XmlRow>>
  {
    if xs == [] then Some([])
    else
      var init := Gather(xs[..|xs| - 1], rowsOf);
      var last := rowsOf(xs[|xs| - 1]);
      if init.None? || last.None? then None else Some(init.value + last.value)
  }

  function FieldRowMaker(t: Token): map<string, string> -> Option<seq<XmlRow>>
  {
    field => FieldRows(t, field)
  }

  /** The single row of a token without fields. */
  function BlankRow(t: Token): XmlRow
  {
    PairRow(t, map[], 0, ("", ""))
  }

  function TokenRows(t: Token): Option<seq<XmlRow>>
  {
    if t.fields == [] then Some([BlankRow(t)]) else Gather(t.fields, FieldRowMaker(t))
  }

  /** The rows of the tokens in turn; `None` when a sequence number is not an integer, where
      the parser's exception handler returns no rows at all. */
  function XmlRows(tokens: seq<Token>): Option<seq<XmlRow>>
  {
    Gather(tokens, TokenRows)
  }

  lemma GatherNext<X>(xs: seq<X>, rowsOf: X -> Option<seq<XmlRow>>, k: nat)
    requires k < |xs|
    ensures Gather(xs[..k + 1], rowsOf) ==
      if Gather(xs[..k], rowsOf).None? || rowsOf(xs[k]).None? then None
      else Some(Gather(xs[..k], rowsOf).value + rowsOf(xs[k]).value)
  {
    assert xs[..k + 1][..k] == xs[..k];
  }

  /** Gathering fails exactly when some element fails. */
  lemma {:induction false} GatherFail<X>(xs: seq<X>, rowsOf: X -> Option<seq<XmlRow>>)
    ensures Gather(xs, rowsOf).None? <==> exists i :: 0 <= i < |xs| && rowsOf(xs[i]).None?
  {
    if xs != [] {
      var n := |xs| - 1;
      var init := xs[..n];
      GatherFail(init, rowsOf);
      if Gather(xs, rowsOf).None? {
        if Gather(init, rowsOf).None? {
          var i :| 0 <= i < n && rowsOf(init[i]).None?;
          assert init[i] == xs[i];
        }
      } else {
        forall i | 0 <= i < |xs| ensures rowsOf(xs[i]).Some? {
          if i < n {
            assert init[i] == xs[i];
          }
        }
      }
    }
  }

  /** Every gathered row comes from some element, and an element that gives at least one row
      adds at least one. */
  lemma {:induction false} GatherFrom<X>(xs: seq<X>, rowsOf: X -> Option<seq<XmlRow>>)
    requires Gather(xs, rowsOf).Some?
    ensures forall r :: r in Gather(xs, rowsOf).value ==>
      exists i :: 0 <= i < |xs| && rowsOf(xs[i]).Some? && r in rowsOf(xs[i]).value
    ensures (forall i :: 0 <= i < |xs| && rowsOf(xs[i]).Some? ==> rowsOf(xs[i]).value != []) ==>
      |Gather(xs, rowsOf).value| >= |xs|
  {
    if xs != [] {
      var n := |xs| - 1;
      var init := xs[..n];
      GatherFrom(init, rowsOf);
      forall r | r in Gather(xs, rowsOf).value
        ensures exists i :: 0 <= i < |xs| && rowsOf(xs[i]).Some? && r in rowsOf(xs[i]).value
      {
        if r in Gather(init, rowsOf).value {
          var i :| 0 <= i < n && rowsOf(init[i]).Some? && r in rowsOf(init[i]).value;
          assert init[i] == xs[i];
        } else {
          assert r in rowsOf(xs[n]).value;
        }
      }
      if forall i :: 0 <= i < |xs| && rowsOf(xs[i]).Some? ==> rowsOf(xs[i]).value != [] {
        assert forall i :: 0 <= i < n ==> init[i] == xs[i];
        assert rowsOf(xs[n]).value != [];
      }
    }
  }

  /** A token without fields gives one row with its attributes, empty field and fuse data and
      sequence number 0. */
  lemma TokenWithoutFields(t: Token)
    requires t.fields == []
    ensures TokenRows(t).Some? && |TokenRows(t).value| == 1
    ensures var r := TokenRows(t).value[0];
      r.tokenName == Attr(t.attrs, "token_name") && r.dffTokenId == Attr(t.attrs, "dff_token_id")
      && r.fieldName == "" && r.fieldNameSeq == 0 && r.fuseNameOri == "" && r.fuseName == ""
      && r.fuseRegisterOri == "" && r.fuseRegister == ""
  {
  }

  /** A row's fuse name and register are one of the pairs of its own original strings. */
  ghost predicate RowIsPaired(r: XmlRow)
  {
    (r.fuseName, r.fuseRegister) in Pairing(CleanList(r.fuseNameOri), CleanList(r.fuseRegisterOri))
  }

  /** Every row of a field pairs its own fuse strings. */
  lemma FieldRowsPaired(t: Token, field: map<string, string>)
    requires FieldRows(t, field).Some?
    ensures forall r :: r in FieldRows(t, field).value ==> RowIsPaired(r)
  {
    var pairs := FieldPairs(field);
    var rows := PairRows(t, field, SeqOf(field).value, pairs);
    forall r | r in rows ensures RowIsPaired(r) {
      var i :| 0 <= i < |pairs| && r == PairRow(t, field, SeqOf(field).value, pairs[i]);
    }
  }

  /** A field gives at least one row. */
  lemma FieldRowsNonEmpty(t: Token, field: map<string, string>)
    requires FieldRows(t, field).Some?
    ensures FieldRows(t, field).value != []
  {
    PairingCases(CleanList(Attr(field, "fuse_name")), CleanList(Attr(field, "fuse_register")));
  }

  /** Every row of a token pairs its own fuse strings, and a token gives at least one row. */
  lemma TokenRowsPaired(t: Token)
    requires TokenRows(t).Some?
    ensures forall r :: r in TokenRows(t).value ==> RowIsPaired(r)
    ensures TokenRows(t).value != []
  {
    if t.fields == [] {
      assert CleanList("") == [""];
      assert Pairing([""], [""]) == [("", "")];
    } else {
      var rowsOf := FieldRowMaker(t);
      forall j | 0 <= j < |t.fields| && rowsOf(t.fields[j]).Some? ensures rowsOf(t.fields[j]).value != [] {
        FieldRowsNonEmpty(t, t.fields[j]);
      }
      GatherFrom(t.fields, rowsOf);
      forall r | r in TokenRows(t).value ensures RowIsPaired(r) {
        var j :| 0 <= j < |t.fields| && rowsOf(t.fields[j]).Some? && r in rowsOf(t.fields[j]).value;
        FieldRowsPaired(t, t.fields[j]);
      }
    }
  }

  /** Every row pairs its own fuse strings, and every token gives at least one row. */
  lemma XmlRowsPaired(tokens: seq<Token>)
    requires XmlRows(tokens).Some?
    ensures forall r :: r in XmlRows(tokens).value ==> RowIsPaired(r)
    ensures |XmlRows(tokens).value| >= |tokens|
  {
    GatherFrom(tokens, TokenRows);
    forall r | r in XmlRows(tokens).value ensures RowIsPaired(r) {
      var k :| 0 <= k < |tokens| && TokenRows(tokens[k]).Some? && r in TokenRows(tokens[k]).value;
      TokenRowsPaired(tokens[k]);
    }
    forall k | 0 <= k < |tokens| && TokenRows(tokens[k]).Some? ensures TokenRows(tokens[k]).value != [] {
      TokenRowsPaired(tokens[k]);
    }
  }

  /** The parse fails exactly when some field's sequence number is not an integer. */
  lemma XmlRowsFail(tokens: seq<Token>)
    ensures XmlRows(tokens).None? <==>
      exists k, j :: 0 <= k < |tokens| && 0 <= j < |tokens[k].fields| && SeqOf(tokens[k].fields[j]).NotAnInt?
  {
    GatherFail(tokens, TokenRows);
    forall k | 0 <= k < |tokens|
      ensures TokenRows(tokens[k]).None? <==> exists j :: 0 <= j < |tokens[k].fields| && SeqOf(tokens[k].fields[j]).NotAnInt?
    {
      GatherFail(tokens[k].fields, FieldRowMaker(tokens[k]));
    }
  }

  /** The body of the field loop: `None` where `int(field_name_seq)` raises. */
  method ParseField(t: Token, field: map<string, string>) returns (fieldRows: Option<seq<XmlRow>>)
    ensures fieldRows == FieldRows(t, field)
  {
    var fieldNameSeq := SeqOf(field);
    if fieldNameSeq.NotAnInt? {
      return None;
    }
    var pairs := PairFuseNamesRegisters(Attr(field, "fuse_name"), Attr(field, "fuse_register"));
    var rows := AppendPairRows(t, field, fieldNameSeq.value, pairs);
    return Some(rows);
  }

  /** The loop over the pairs of one field. */
  method AppendPairRows(t: Token, field: map<string, string>, n: int, pairs: seq<(string, string)>) returns (rows: seq<XmlRow>)
    ensures rows == PairRows(t, field, n, pairs)
  {
    rows := [];
    for p := 0 to |pairs|
      invariant |rows| == p
      invariant forall i :: 0 <= i < p ==> rows[i] == PairRow(t, field, n, pairs[i])
    {
      rows := rows + [PairRow(t, field, n, pairs[p])];
    }
  }

  /** The body of the token loop. */
  method ParseToken(t: Token) returns (tokenRows: Option<seq<XmlRow>>)
    ensures tokenRows == TokenRows(t)
  {
    if t.fields == [] {
      return Some([BlankRow(t)]);
    }
    var acc: seq<XmlRow> := [];
    for j := 0 to |t.fields|
      invariant Gather(t.fields[..j], FieldRowMaker(t)) == Some(acc)
    {
      GatherNext(t.fields, FieldRowMaker(t), j);
      var fieldRows := ParseField(t, t.fields[j]);
      if fieldRows.None? {
        GatherFail(t.fields, FieldRowMaker(t));
        return None;
      }
      acc := acc + fieldRows.value;
    }
    assert t.fields[..|t.fields|] == t.fields;
    return Some(acc);
  }

  /** `parse_xml_optimized` over parsed tokens: no rows at all once a sequence number fails
      to parse. */
  method ParseXml(tokens: seq<Token>) returns (rows: seq<XmlRow>)
    ensures rows == if XmlRows(tokens).Some? then XmlRows(tokens).value else []
  {
    rows := [];
    for k := 0 to |tokens|
      invariant Gather(tokens[..k], TokenRows) == Some(rows)
    {
      GatherNext(tokens, TokenRows, k);
      var tokenRows := ParseToken(tokens[k]);
      if tokenRows.None? {
        GatherFail(tokens, TokenRows);
        return [];
      }
      rows := rows + tokenRows.value;
    }
    assert tokens[..|tokens|] == tokens;
  }
}
