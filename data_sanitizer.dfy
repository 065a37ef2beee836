/** `DataSanitizer` of the single-file tool: HTML and JavaScript escaping, file-name and CSV
    field cleaning. A value of any type is modelled by what these functions ask of it: its
    truth value and its `str()` text. */
module DataSanitizer {
  import opened Text
  import opened Wrappers
  import Sanitizer

  /** A Python value of any type: whether it is true (`None`, `False`, `0`, `""` and empty
      collections are not) and its `str()` text. */
  datatype Value = Value(truthy: bool, str: string)

  /** `html_escape`: `html.escape(str(text or ""))`, so every false value escapes to `""`. */
  function HtmlEscapeText(text: Value): (r: string)
    ensures !text.truthy ==> r == ""
    ensures text.truthy ==> Sanitizer.HtmlUnescape(r) == text.str
    ensures forall k :: 0 <= k < |r| ==> !Sanitizer.IsMarkup(r[k])
  {
    var s := if text.truthy then text.str else "";
    Sanitizer.HtmlRoundTrip(s);
    Sanitizer.HtmlEscapeNoMarkup(s);
    Sanitizer.HtmlEscape(s)
  }

  /** The replacements of `js_string_escape`, in the order it makes them. */
  const JsTable: seq<(char, string)> :=
    [('\\', "\\\\"), ('"', "\\\""), ('\'', "\\'"), ('\n', "\\n"), ('\r', "\\r"), ('\t', "\\t"),
     ('<', "\\u003c"), ('>', "\\u003e")]

  /** The escape of one character. */
  function JsEntity(c: char): string
  {
    if c == '\\' then "\\\\"
    else if c == '"' then "\\\""
    else if c == '\'' then "\\'"
    else if c == '\n' then "\\n"
    else if c == '\r' then "\\r"
    else if c == '\t' then "\\t"
    else if c == '<' then "\\u003c"
    else if c == '>' then "\\u003e"
    else [c]
  }

  /** The characters `js_string_escape` rewrites. */
  predicate IsJsSpecial(c: char)
  {
    c == '\\' || c == '"' || c == '\'' || c == '\n' || c == '\r' || c == '\t' || c == '<' || c == '>'
  }

  /** `js_string_escape`: `''` for a false value, otherwise its text with the table's
      replacements made one after the other. */
  method JsStringEscape(text: Value) returns (r: string)
    ensures !text.truthy ==> r == ""
    ensures text.truthy ==> r == Subst(text.str, JsEntity)
  {
    if !text.truthy {
      return "";
    }
    var s := text.str;
    r := s;
    var k := 0;
    while k < |JsTable|
      invariant k <= |JsTable|
      invariant ReplaceAll(r, JsTable[k..]) == ReplaceAll(s, JsTable)
    {
      var (old_, new_) := JsTable[k];
      assert JsTable[k..][1..] == JsTable[k + 1..];
      r := ReplaceChar(r, old_, new_);
      k := k + 1;
    }
    JsEscapeIsPerChar(s);
  }

  /** Looking a character up in the table gives its escape. */
  lemma JsLookup(c: char)
    ensures Lookup(JsTable, c) == JsEntity(c)
  {
    JsTableEntries();
    JsTableKeys(c);
    LookupBy(JsTable, JsEntity, c);
  }

  /** Every entry of the table maps its character to that character's escape. */
  lemma JsTableEntries()
    ensures forall j :: 0 <= j < |JsTable| ==> JsTable[j].1 == JsEntity(JsTable[j].0)
  {
    var t := JsTable;
    assert t[0].1 == JsEntity(t[0].0) && t[1].1 == JsEntity(t[1].0);
    assert t[2].1 == JsEntity(t[2].0) && t[3].1 == JsEntity(t[3].0);
    assert t[4].1 == JsEntity(t[4].0) && t[5].1 == JsEntity(t[5].0);
    assert t[6].1 == JsEntity(t[6].0) && t[7].1 == JsEntity(t[7].0);
  }

  /** The table holds exactly the characters the escape rewrites; the others escape to
      themselves. */
  lemma JsTableKeys(c: char)
    ensures (exists j :: 0 <= j < |JsTable| && JsTable[j].0 == c) <==> IsJsSpecial(c)
    ensures !IsJsSpecial(c) ==> JsEntity(c) == [c]
  {
    var t := JsTable;
    if IsJsSpecial(c) {
      if c == '\\' { assert t[0].0 == c; }
      else if c == '"' { assert t[1].0 == c; }
      else if c == '\'' { assert t[2].0 == c; }
      else if c == '\n' { assert t[3].0 == c; }
      else if c == '\r' { assert t[4].0 == c; }
      else if c == '\t' { assert t[5].0 == c; }
      else if c == '<' { assert t[6].0 == c; }
      else { assert t[7].0 == c; }
    } else {
      assert forall j :: 0 <= j < |t| ==> t[j].0 != c;
    }
  }

  /** Backslash goes first, so no replacement is rewritten by a later one: every character
      is escaped once, on its own. */
  lemma JsEscapeIsPerChar(s: string)
    ensures ReplaceAll(s, JsTable) == Subst(s, JsEntity)
  {
    JsNoLaterPattern();
    ReplaceAllIsLookup(s, JsTable);
    forall c ensures LookupIn(JsTable)(c) == JsEntity(c) {
      JsLookup(c);
    }
    SubstAgree(s, LookupIn(JsTable), JsEntity);
  }

  /** No replacement holds a character that a later entry rewrites. */
  lemma JsNoLaterPattern()
    ensures NoLaterPattern(JsTable)
  {
    forall i, j | 0 <= i < j < |JsTable| ensures JsTable[j].0 !in JsTable[i].1 {
      assert forall k :: 0 <= k < |JsTable[i].1| ==> JsTable[i].1[k] in "\\\"'nrtu03ce";
    }
  }

  /** Reading a JavaScript string literal's escapes back. */
  function JsUnescape(t: string): string
    decreases |t|
  {
    if t == [] then []
    else if StartsWith(t, "\\u003c") then "<" + JsUnescape(t[6..])
    else if StartsWith(t, "\\u003e") then ">" + JsUnescape(t[6..])
    else if |t| >= 2 && t[0] == '\\' then
      (if t[1] == 'n' then "\n" else if t[1] == 'r' then "\r" else if t[1] == 't' then "\t" else [t[1]])
        + JsUnescape(t[2..])
    else [t[0]] + JsUnescape(t[1..])
  }

  lemma JsUnescapeEntity(c: char, rest: string)
    ensures JsUnescape(JsEntity(c) + rest) == [c] + JsUnescape(rest)
  {
    var e := JsEntity(c);
    var t := e + rest;
    if c == '<' {
      Starts("\\u003c", rest);
    } else if c == '>' {
      NotStarts(t, "\\u003c", 5);
      Starts("\\u003e", rest);
    } else if IsJsSpecial(c) {
      assert |e| == 2 && e[0] == '\\' && e[1] != 'u';
      NotStarts(t, "\\u003c", 1);
      NotStarts(t, "\\u003e", 1);
      assert t[0] == '\\' && t[1] == e[1];
      assert t[2..] == rest;
    } else {
      assert t[0] == c;
      NotStarts(t, "\\u003c", 0);
      NotStarts(t, "\\u003e", 0);
      assert t[1..] == rest;
    }
  }

  /** Unescaping undoes `js_string_escape`: because backslashes are escaped first, the text
      can always be read back. */
  lemma {:induction false} JsRoundTrip(s: string)
    ensures JsUnescape(Subst(s, JsEntity)) == s
    decreases |s|
  {
    if s != [] {
      JsRoundTrip(s[1..]);
      JsUnescapeEntity(s[0], Subst(s[1..], JsEntity));
      assert s == [s[0]] + s[1..];
    }
  }

  /** The escaped text holds no raw line break, tab or angle bracket. */
  lemma {:induction false} JsEscapeNoRaw(s: string)
    ensures forall k :: 0 <= k < |Subst(s, JsEntity)| ==> Subst(s, JsEntity)[k] !in "\n\r\t<>"
    decreases |s|
  {
    if s != [] {
      JsEscapeNoRaw(s[1..]);
      var head, tail := JsEntity(s[0]), Subst(s[1..], JsEntity);
      assert forall k :: 0 <= k < |head| ==> head[k] !in "\n\r\t<>";
      forall k | 0 <= k < |head + tail| ensures (head + tail)[k] !in "\n\r\t<>" {
        if k >= |head| {
          assert (head + tail)[k] == tail[k - |head|];
        }
      }
    }
  }

  /** The characters `sanitize_filename` rewrites. */
  predicate IsFilenameForbidden(c: char)
  {
    c == '<' || c == '>' || c == ':' || c == '"' || c == '/' || c == '\\' || c == '|' || c == '?' || c == '*'
  }

  function FilenameChar(c: char): string
  {
    if IsFilenameForbidden(c) then "_" else [c]
  }

  /** `sanitize_filename`: every forbidden character becomes `_`. */
  function SanitizeFilename(name: string): string
  {
    Subst(name, FilenameChar)
  }

  /** The cleaned name has the same length, `_` where the name had a forbidden character and
      the name's own character everywhere else; so it holds no forbidden character. */
  lemma {:induction false} SanitizeFilenameSpec(name: string)
    ensures |SanitizeFilename(name)| == |name|
    ensures forall i :: 0 <= i < |name| ==>
      SanitizeFilename(name)[i] == (if IsFilenameForbidden(name[i]) then '_' else name[i])
    ensures forall i :: 0 <= i < |name| ==> !IsFilenameForbidden(SanitizeFilename(name)[i])
    decreases |name|
  {
    if name != [] {
      SanitizeFilenameSpec(name[1..]);
      assert SanitizeFilename(name) == FilenameChar(name[0]) + SanitizeFilename(name[1..]);
      forall i | 1 <= i < |name|
        ensures SanitizeFilename(name)[i] == (if IsFilenameForbidden(name[i]) then '_' else name[i])
      {
        assert name[1..][i - 1] == name[i];
      }
    }
  }

  /** The prefixes `sanitize_csv_field` guards against. */
  predicate IsFormulaStart(c: char)
  {
    c == '=' || c == '+' || c == '-' || c == '@'
  }

  /** `sanitize_csv_field`: `''` for `None`, otherwise the text with a `'` put in front of a
      formula start; nothing is escaped. */
  function SanitizeCsvField(field: Option<string>): (r: string)
    ensures field.None? ==> r == ""
    ensures field.Some? ==> (
      (r == field.value || (field.value != "" && IsFormulaStart(field.value[0]) && r == "'" + field.value)) &&
      (r == field.value <==> (field.value == "" || !IsFormulaStart(field.value[0]))))
    ensures r == "" || !IsFormulaStart(r[0])
  {
    match field
      case None => ""
      case Some(s) => if s != "" && IsFormulaStart(s[0]) then "'" + s else s
  }
}
