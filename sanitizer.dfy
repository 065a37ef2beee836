/** `CSVSanitizer`: formula-injection guarding and HTML escaping of CSV field values. A field
    value is `None` for Python's `None` and otherwise `Some` of its `str()` text. */
module Sanitizer {
  import opened Text
  import opened Wrappers

  /** The replacements `html.escape(s, quote=True)` makes, in the order it makes them. */
  const HtmlTable: seq<(char, string)> :=
    [('&', "&amp;"), ('<', "&lt;"), ('>', "&gt;"), ('"', "&quot;"), ('\'', "&#x27;")]

  /** `html.escape(s)` */
  function HtmlEscape(s: string): string
  {
    ReplaceAll(s, HtmlTable)
  }

  /** The escape of one character. */
  function HtmlEntity(c: char): string
  {
    if c == '&' then "&amp;"
    else if c == '<' then "&lt;"
    else if c == '>' then "&gt;"
    else if c == '"' then "&quot;"
    else if c == '\'' then "&#x27;"
    else [c]
  }

  /** Looking a character up in the table gives its escape. */
  lemma HtmlLookup(c: char)
    ensures LookupIn(HtmlTable)(c) == HtmlEntity(c)
  {
    var t1 := HtmlTable[1..];
    var t2 := t1[1..];
    var t3 := t2[1..];
    var t4 := t3[1..];
    assert t1 == [('<', "&lt;"), ('>', "&gt;"), ('"', "&quot;"), ('\'', "&#x27;")];
    assert t2 == [('>', "&gt;"), ('"', "&quot;"), ('\'', "&#x27;")];
    assert t3 == [('"', "&quot;"), ('\'', "&#x27;")];
    assert t4 == [('\'', "&#x27;")];
    assert t4[1..] == [];
    assert LookupIn(HtmlTable)(c) == Lookup(HtmlTable, c);
    if c != '&' {
      assert Lookup(HtmlTable, c) == Lookup(t1, c);
      if c != '<' {
        assert Lookup(t1, c) == Lookup(t2, c);
        if c != '>' {
          assert Lookup(t2, c) == Lookup(t3, c);
          if c != '"' {
            assert Lookup(t3, c) == Lookup(t4, c);
            if c != '\'' {
              assert Lookup(t4, c) == Lookup(t4[1..], c);
            }
          }
        }
      }
    }
  }

  /** The five replacements never undo each other: `html.escape` escapes every character on
      its own. */
  lemma HtmlEscapePerChar(s: string)
    ensures HtmlEscape(s) == Subst(s, HtmlEntity)
  {
    assert NoLaterPattern(HtmlTable) by {
      forall i, j | 0 <= i < j < |HtmlTable| ensures HtmlTable[j].0 !in HtmlTable[i].1 {
        assert HtmlTable[i].1[0] == '&';
        assert forall k :: 1 <= k < |HtmlTable[i].1| ==> HtmlTable[i].1[k] in "amplgquot#x27;";
      }
    }
    ReplaceAllIsLookup(s, HtmlTable);
    forall c ensures LookupIn(HtmlTable)(c) == HtmlEntity(c) {
      HtmlLookup(c);
    }
    SubstAgree(s, LookupIn(HtmlTable), HtmlEntity);
  }

  predicate IsMarkup(c: char)
  {
    c == '<' || c == '>' || c == '"' || c == '\''
  }

  predicate NoMarkup(t: string)
  {
    forall k :: 0 <= k < |t| ==> !IsMarkup(t[k])
  }

  lemma EntityNoMarkup(c: char)
    ensures NoMarkup(HtmlEntity(c))
  {
  }

  lemma {:induction false} EntitiesNoMarkup(s: string)
    ensures NoMarkup(Subst(s, HtmlEntity))
    decreases |s|
  {
    if s != [] {
      var head, tail := HtmlEntity(s[0]), Subst(s[1..], HtmlEntity);
      EntityNoMarkup(s[0]);
      EntitiesNoMarkup(s[1..]);
      assert Subst(s, HtmlEntity) == head + tail;
      forall k | 0 <= k < |head + tail| ensures !IsMarkup((head + tail)[k]) {
        if k >= |head| {
          assert (head + tail)[k] == tail[k - |head|];
        }
      }
    }
  }

  /** Escaped text holds no raw `<`, `>`, `"` or `'`. */
  lemma HtmlEscapeNoMarkup(s: string)
    ensures forall k :: 0 <= k < |HtmlEscape(s)| ==> !IsMarkup(HtmlEscape(s)[k])
  {
    HtmlEscapePerChar(s);
    EntitiesNoMarkup(s);
  }

  /** `html.unescape` for the five entities `html.escape` writes. */
  function HtmlUnescape(t: string): string
    decreases |t|
  {
    if t == [] then []
    else if StartsWith(t, "&amp;") then "&" + HtmlUnescape(t[5..])
    else if StartsWith(t, "&lt;") then "<" + HtmlUnescape(t[4..])
    else if StartsWith(t, "&gt;") then ">" + HtmlUnescape(t[4..])
    else if StartsWith(t, "&quot;") then "\"" + HtmlUnescape(t[6..])
    else if StartsWith(t, "&#x27;") then "'" + HtmlUnescape(t[6..])
    else [t[0]] + HtmlUnescape(t[1..])
  }

  /** Unescaping one escaped character in front of more text. */
  lemma UnescapeEntity(c: char, rest: string)
    ensures HtmlUnescape(HtmlEntity(c) + rest) == [c] + HtmlUnescape(rest)
  {
    var e := HtmlEntity(c);
    var t := e + rest;
    if c == '&' {
      Starts("&amp;", rest);
    } else if c == '<' {
      NotStarts(t, "&amp;", 1);
      Starts("&lt;", rest);
    } else if c == '>' {
      NotStarts(t, "&amp;", 1);
      NotStarts(t, "&lt;", 1);
      Starts("&gt;", rest);
    } else if c == '"' {
      NotStarts(t, "&amp;", 1);
      NotStarts(t, "&lt;", 1);
      NotStarts(t, "&gt;", 1);
      Starts("&quot;", rest);
    } else if c == '\'' {
      NotStarts(t, "&amp;", 1);
      NotStarts(t, "&lt;", 1);
      NotStarts(t, "&gt;", 1);
      NotStarts(t, "&quot;", 1);
      Starts("&#x27;", rest);
    } else {
      assert t[0] == c;
      NotStarts(t, "&amp;", 0);
      NotStarts(t, "&lt;", 0);
      NotStarts(t, "&gt;", 0);
      NotStarts(t, "&quot;", 0);
      NotStarts(t, "&#x27;", 0);
      assert t[1..] == rest;
    }
  }

  /** Unescaping undoes escaping: no information is lost. */
  lemma {:induction false} HtmlRoundTrip(s: string)
    ensures HtmlUnescape(HtmlEscape(s)) == s
  {
    HtmlEscapePerChar(s);
    EntityRoundTrip(s);
  }

  lemma {:induction false} EntityRoundTrip(s: string)
    ensures HtmlUnescape(Subst(s, HtmlEntity)) == s
    decreases |s|
  {
    if s != [] {
      EntityRoundTrip(s[1..]);
      UnescapeEntity(s[0], Subst(s[1..], HtmlEntity));
      assert s == [s[0]] + s[1..];
    }
  }

  /** The characters that start a spreadsheet formula. */
  predicate IsFormulaStart(c: char)
  {
    c == '=' || c == '+' || c == '-' || c == '@' || c == '\t' || c == '\r'
  }

  /** `sanitize_csv_field` */
  function SanitizeCsvField(value: Option<string>): string
  {
    match value
      case None => ""
      case Some(s) => HtmlEscape(if s != "" && IsFormulaStart(s[0]) then "'" + s else s)
  }

  /** `None` and `''` give `''`; otherwise the result holds no raw markup character, does not
      start a formula, and unescapes to the text with a `'` put in front of a formula start. */
  lemma SanitizeCsvFieldSpec(value: Option<string>)
    ensures var r := SanitizeCsvField(value);
      (r == "" <==> value.None? || value.value == "") &&
      (forall k :: 0 <= k < |r| ==> !IsMarkup(r[k])) &&
      (r == "" || !IsFormulaStart(r[0])) &&
      (value.Some? ==> (HtmlUnescape(r) ==
        (if value.value != "" && IsFormulaStart(value.value[0]) then "'" + value.value else value.value)))
  {
    if value.Some? {
      var s := value.value;
      var t := if s != "" && IsFormulaStart(s[0]) then "'" + s else s;
      HtmlEscapeNoMarkup(t);
      HtmlRoundTrip(t);
      HtmlEscapePerChar(t);
      if t != "" {
        assert Subst(t, HtmlEntity) == HtmlEntity(t[0]) + Subst(t[1..], HtmlEntity);
        assert HtmlEscape(t)[0] == HtmlEntity(t[0])[0];
      }
    }
  }

  lemma SubstThree(a: char, b: char, c: char, f: char -> string)
    ensures Subst([a, b, c], f) == f(a) + f(b) + f(c)
  {
    assert [a, b, c][1..] == [b, c];
    assert [b, c][1..] == [c];
    assert [c][1..] == [];
    assert Subst([c], f) == f(c) + Subst([], f);
    assert Subst([b, c], f) == f(b) + Subst([c], f);
    assert Subst([a, b, c], f) == f(a) + Subst([b, c], f);
    AppendAssoc(f(a), f(b), f(c));
  }

  lemma PlainEntity(c: char)
    requires c != '&' && !IsMarkup(c)
    ensures HtmlEntity(c) == [c]
  {
  }

  lemma QuoteEqualsOneEntities()
    ensures Subst(['\'', '=', '1'], HtmlEntity) == "&#x27;=1"
  {
    SubstThree('\'', '=', '1', HtmlEntity);
    PlainEntity('=');
    PlainEntity('1');
  }

  /** `'=1'` becomes `&#x27;=1`. */
  lemma SanitizeFormulaExample(s: string)
    requires |s| == 2 && s[0] == '=' && s[1] == '1'
    ensures SanitizeCsvField(Some(s)) == "&#x27;=1"
  {
    var t := "'" + s;
    assert t == ['\'', '=', '1'];
    HtmlEscapePerChar(t);
    QuoteEqualsOneEntities();
  }

  /** `sanitize_dict`: the same keys, every value sanitised. */
  function SanitizeDict(d: map<string, Option<string>>): (r: map<string, string>)
    ensures r.Keys == d.Keys
  {
    map k | k in d :: SanitizeCsvField(d[k])
  }

  /** No value of a sanitised dictionary holds raw markup. */
  lemma SanitizeDictSpec(d: map<string, Option<string>>, k: string)
    requires k in d
    ensures SanitizeDict(d)[k] == SanitizeCsvField(d[k])
    ensures forall i :: 0 <= i < |SanitizeDict(d)[k]| ==> !IsMarkup(SanitizeDict(d)[k][i])
  {
    SanitizeCsvFieldSpec(d[k]);
  }
}
