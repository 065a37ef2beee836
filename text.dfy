/** Python string primitives the reconciliation engine relies on, restated over `seq<char>`.
    Only ASCII case mapping and ASCII decimal digits are modelled; `IsSpace` follows
    Python's `str.isspace`. */
module Text {

  /** Concatenation is associative. */
  lemma AppendAssoc<T>(a: seq<T>, b: seq<T>, c: seq<T>)
    ensures a + (b + c) == (a + b) + c
  {
  }

  /** Python's `str.isspace` for one character. */
  predicate IsSpace(c: char)
  {
    c == ' ' || ('\t' <= c <= '\r') || ('\U{1C}' <= c <= '\U{1F}') || c == '\U{85}'
    || c == '\U{A0}' || c == '\U{1680}' || ('\U{2000}' <= c <= '\U{200A}')
    || c == '\U{2028}' || c == '\U{2029}' || c == '\U{202F}' || c == '\U{205F}' || c == '\U{3000}'
  }

  /** `s.lstrip()` */
  function LStrip(s: string): (r: string)
    ensures |r| <= |s| && r == s[|s| - |r|..]
    ensures r == [] || !IsSpace(r[0])
    ensures forall i :: 0 <= i < |s| - |r| ==> IsSpace(s[i])
  {
    if s != [] && IsSpace(s[0]) then
      var r := LStrip(s[1..]);
      assert forall i :: 1 <= i < |s| ==> s[1..][i - 1] == s[i];
      r
    else s
  }

  /** `s.rstrip()` */
  function RStrip(s: string): (r: string)
    ensures |r| <= |s| && r == s[..|r|]
    ensures r == [] || !IsSpace(r[|r| - 1])
    ensures forall i :: |r| <= i < |s| ==> IsSpace(s[i])
  {
    if s != [] && IsSpace(s[|s| - 1]) then RStrip(s[..|s| - 1]) else s
  }

  /** `s.strip()`: no whitespace at either end, and only whitespace was removed. */
  function Strip(s: string): (r: string)
    ensures |r| <= |s|
    ensures r == [] || (!IsSpace(r[0]) && !IsSpace(r[|r| - 1]))
  {
    RStrip(LStrip(s))
  }

  lemma StripKeepsUnspaced(s: string)
    requires s == [] || (!IsSpace(s[0]) && !IsSpace(s[|s| - 1]))
    ensures Strip(s) == s
  {
  }

  /** Stripping removes only whitespace: every other character of `s` survives. */
  lemma StripKeeps(s: string, i: int)
    requires 0 <= i < |s| && !IsSpace(s[i])
    ensures s[i] in Strip(s)
  {
    var l := LStrip(s);
    var off := |s| - |l|;
    assert l[i - off] == s[i];
    var r := RStrip(l);
    assert r[i - off] == s[i];
  }

  /** Stripping adds no character: whatever is in `Strip(s)` was in `s`. */
  lemma StripInside(s: string, c: char)
    requires c in Strip(s)
    ensures c in s
  {
    var l := LStrip(s);
    var i :| 0 <= i < |Strip(s)| && Strip(s)[i] == c;
    assert RStrip(l)[i] == l[i];
    assert l[i] == s[|s| - |l| + i];
  }

  lemma StripIdempotent(s: string)
    ensures Strip(Strip(s)) == Strip(s)
  {
    StripKeepsUnspaced(Strip(s));
  }

  predicate StartsWith(s: string, p: string)
  {
    |p| <= |s| && s[..|p|] == p
  }

  /** A text that differs from `p` at a position inside both does not start with `p`. */
  lemma NotStarts(t: string, p: string, k: int)
    requires 0 <= k < |p| && k < |t| && t[k] != p[k]
    ensures !StartsWith(t, p)
  {
    if |p| <= |t| {
      assert t[..|p|][k] == t[k];
    }
  }

  /** `p` followed by more starts with `p`. */
  lemma Starts(p: string, rest: string)
    ensures StartsWith(p + rest, p) && (p + rest)[|p|..] == rest
  {
    assert (p + rest)[..|p|] == p;
  }

  predicate EndsWith(s: string, p: string)
  {
    |p| <= |s| && s[|s| - |p|..] == p
  }

  /** Python's `sub in s`. */
  predicate Contains(s: string, sub: string)
  {
    StartsWith(s, sub) || (s != [] && Contains(s[1..], sub))
  }

  /** Index of the first `c` in `s`, or `|s|` when there is none. */
  function FindChar(s: string, c: char): (i: nat)
    ensures i <= |s|
    ensures i < |s| ==> s[i] == c
    ensures forall j :: 0 <= j < i ==> s[j] != c
  {
    if s == [] then 0 else if s[0] == c then 0 else 1 + FindChar(s[1..], c)
  }

  /** `s.split(c)` for a one-character separator: never empty, pieces free of `c`. */
  function Split(s: string, c: char): (r: seq<string>)
    ensures |r| >= 1
    ensures forall k :: 0 <= k < |r| ==> c !in r[k]
    decreases |s|
  {
    var i := FindChar(s, c);
    if i == |s| then [s] else [s[..i]] + Split(s[i + 1..], c)
  }

  /** `s.split(c, n)`: at most `n` splits, the last piece keeps the rest of `s`. */
  function SplitN(s: string, c: char, n: nat): (r: seq<string>)
    ensures 1 <= |r| <= n + 1
    decreases n
  {
    var i := FindChar(s, c);
    if i == |s| || n == 0 then [s] else [s[..i]] + SplitN(s[i + 1..], c, n - 1)
  }

  /** The pieces of `s.split(c, n)` other than the last hold no `c`, and joining the pieces
      with `c` gives `s` back: the last piece is everything after the `n`-th `c`. */
  lemma SplitNSpec(s: string, c: char, n: nat)
    ensures var r := SplitN(s, c, n);
      (forall k :: 0 <= k < |r| - 1 ==> c !in r[k]) && Join(r, [c]) == s
  {
    SplitNPieces(s, c, n);
    SplitNJoin(s, c, n);
  }

  lemma {:induction false} SplitNPieces(s: string, c: char, n: nat)
    ensures forall k :: 0 <= k < |SplitN(s, c, n)| - 1 ==> c !in SplitN(s, c, n)[k]
    decreases n
  {
    var i := FindChar(s, c);
    if i < |s| && n > 0 {
      var rest := SplitN(s[i + 1..], c, n - 1);
      SplitNPieces(s[i + 1..], c, n - 1);
      var r := SplitN(s, c, n);
      assert r == [s[..i]] + rest;
      FindCharPrefix(s, c);
      forall k | 0 <= k < |r| - 1 ensures c !in r[k] {
        if k > 0 {
          assert r[k] == rest[k - 1];
        }
      }
    }
  }

  lemma {:induction false} SplitNJoin(s: string, c: char, n: nat)
    ensures Join(SplitN(s, c, n), [c]) == s
    decreases n
  {
    var i := FindChar(s, c);
    if i < |s| && n > 0 {
      var after := s[i + 1..];
      SplitNJoin(after, c, n - 1);
      SplitNJoinStep(s, c, n, i, after);
    } else {
      assert SplitN(s, c, n) == [s];
    }
  }

  lemma {:induction false} SplitNJoinStep(s: string, c: char, n: nat, i: nat, after: string)
    requires i == FindChar(s, c) && i < |s| && n > 0 && after == s[i + 1..]
    requires Join(SplitN(after, c, n - 1), [c]) == after
    ensures Join(SplitN(s, c, n), [c]) == s
  {
    var rest := SplitN(s[i + 1..], c, n - 1);
    assert SplitN(s, c, n) == [s[..i]] + rest;
    JoinAround(s, i, c, rest);
  }

  /** Joining the text before a `c` with pieces that join to the text after it gives the
      whole. */
  lemma JoinAround(s: string, i: nat, c: char, rest: seq<string>)
    requires i < |s| && s[i] == c && rest != [] && Join(rest, [c]) == s[i + 1..]
    ensures Join([s[..i]] + rest, [c]) == s
  {
    JoinCons(s[..i], rest, [c]);
    assert s == s[..i] + [c] + s[i + 1..];
  }

  /** The text before the first `c` holds no `c`. */
  lemma FindCharPrefix(s: string, c: char)
    ensures c !in s[..FindChar(s, c)]
  {
    var i := FindChar(s, c);
    assert forall j :: 0 <= j < i ==> s[..i][j] == s[j];
  }

  /** Joining a piece in front of non-empty pieces puts the separator after it. */
  lemma JoinCons(p: string, rest: seq<string>, sep: string)
    requires rest != []
    ensures Join([p] + rest, sep) == p + sep + Join(rest, sep)
  {
    assert ([p] + rest)[1..] == rest;
  }

  /** `sep.join(parts)` */
  function Join(parts: seq<string>, sep: string): (r: string)
  {
    if parts == [] then "" else if |parts| == 1 then parts[0]
    else parts[0] + sep + Join(parts[1..], sep)
  }

  /** Splitting on a character and joining with it gives the string back. */
  lemma {:induction false} JoinSplit(s: string, c: char)
    ensures Join(Split(s, c), [c]) == s
    decreases |s|
  {
    var i := FindChar(s, c);
    if i < |s| {
      var rest := Split(s[i + 1..], c);
      assert Split(s, c) == [s[..i]] + rest;
      assert Join([s[..i]] + rest, [c]) == s[..i] + [c] + Join(rest, [c]);
      JoinSplit(s[i + 1..], c);
      assert s == s[..i] + [c] + s[i + 1..];
    }
  }

  /** Joining pieces free of `c` with `c` and splitting on `c` gives the pieces back. */
  lemma {:induction false} SplitJoin(parts: seq<string>, c: char)
    requires parts != []
    requires forall k :: 0 <= k < |parts| ==> c !in parts[k]
    ensures Split(Join(parts, [c]), c) == parts
    decreases |parts|
  {
    var s := Join(parts, [c]);
    var i := FindChar(s, c);
    if |parts| == 1 {
      assert c !in s;
    } else {
      var rest := Join(parts[1..], [c]);
      assert s == parts[0] + [c] + rest;
      assert s[|parts[0]|] == c;
      assert i == |parts[0]|;
      assert s[..i] == parts[0];
      assert s[i + 1..] == rest;
      SplitJoin(parts[1..], c);
    }
  }

  /** `s.replace(c, r)` for a one-character pattern: a per-character substitution. */
  function ReplaceChar(s: string, c: char, r: string): (t: string)
    ensures c !in r ==> c !in t
  {
    if s == [] then [] else (if s[0] == c then r else [s[0]]) + ReplaceChar(s[1..], c, r)
  }

  lemma {:induction false} ReplaceCharAppend(a: string, b: string, c: char, r: string)
    ensures ReplaceChar(a + b, c, r) == ReplaceChar(a, c, r) + ReplaceChar(b, c, r)
    decreases |a|
  {
    if a != [] {
      ReplaceCharAppend(a[1..], b, c, r);
      assert (a + b)[1..] == a[1..] + b;
    } else {
      assert a + b == b;
    }
  }

  lemma ReplaceCharAbsent(s: string, c: char, r: string)
    requires c !in s
    ensures ReplaceChar(s, c, r) == s
  {
  }

  /** Every character of `s` replaced by the string `f` gives for it. */
  function Subst(s: string, f: char -> string): string
  {
    if s == [] then [] else f(s[0]) + Subst(s[1..], f)
  }

  lemma {:induction false} SubstAppend(a: string, b: string, f: char -> string)
    ensures Subst(a + b, f) == Subst(a, f) + Subst(b, f)
    decreases |a|
  {
    if a == [] {
      assert a + b == b;
    } else {
      assert (a + b)[1..] == a[1..] + b;
      SubstAppend(a[1..], b, f);
      AppendAssoc(f(a[0]), Subst(a[1..], f), Subst(b, f));
    }
  }

  /** `f`, then `g` on each character of the result. */
  function Then(f: char -> string, g: char -> string): char -> string
  {
    c => Subst(f(c), g)
  }

  /** Substituting twice is substituting once with the composed substitution. */
  lemma {:induction false} SubstCompose(s: string, f: char -> string, g: char -> string)
    ensures Subst(Subst(s, f), g) == Subst(s, Then(f, g))
    decreases |s|
  {
    if s != [] {
      SubstAppend(f(s[0]), Subst(s[1..], f), g);
      SubstCompose(s[1..], f, g);
    }
  }

  /** Substitutions that agree on every character of `s` agree on `s`. */
  lemma {:induction false} SubstAgree(s: string, f: char -> string, g: char -> string)
    requires forall i :: 0 <= i < |s| ==> f(s[i]) == g(s[i])
    ensures Subst(s, f) == Subst(s, g)
    decreases |s|
  {
    if s != [] {
      SubstAgree(s[1..], f, g);
    }
  }

  /** A substitution that keeps every character of `s` keeps `s`. */
  lemma {:induction false} SubstKeeps(s: string, f: char -> string)
    requires forall i :: 0 <= i < |s| ==> f(s[i]) == [s[i]]
    ensures Subst(s, f) == s
    decreases |s|
  {
    if s != [] {
      SubstKeeps(s[1..], f);
      assert s == [s[0]] + s[1..];
    }
  }

  /** The substitution that changes `c` alone, into `r`. */
  function Replacer(c: char, r: string): char -> string
  {
    x => if x == c then r else [x]
  }

  /** `ReplaceChar` is the substitution that changes `c` alone. */
  lemma {:induction false} ReplaceIsSubst(s: string, c: char, r: string)
    ensures ReplaceChar(s, c, r) == Subst(s, Replacer(c, r))
    decreases |s|
  {
    if s != [] {
      ReplaceIsSubst(s[1..], c, r);
    }
  }

  /** The replacement a table of (character, replacement) entries gives `c`: that of the
      first entry for `c`, or `c` itself when there is none. */
  function Lookup(table: seq<(char, string)>, c: char): string
  {
    if table == [] then [c] else if table[0].0 == c then table[0].1 else Lookup(table[1..], c)
  }

  function LookupIn(table: seq<(char, string)>): char -> string
  {
    c => Lookup(table, c)
  }

  lemma {:induction false} LookupAbsent(table: seq<(char, string)>, c: char)
    requires forall j :: 0 <= j < |table| ==> table[j].0 != c
    ensures Lookup(table, c) == [c]
  {
    if table != [] {
      LookupAbsent(table[1..], c);
    }
  }

  /** A table whose every entry maps its character by `f` looks up `f(c)` for a character it
      holds and `c` itself for any other. */
  lemma {:induction false} LookupBy(table: seq<(char, string)>, f: char -> string, c: char)
    requires forall j :: 0 <= j < |table| ==> table[j].1 == f(table[j].0)
    ensures Lookup(table, c) == if exists j :: 0 <= j < |table| && table[j].0 == c then f(c) else [c]
  {
    if table != [] && table[0].0 != c {
      LookupBy(table[1..], f, c);
      assert forall j :: 1 <= j < |table| ==> table[1..][j - 1] == table[j];
    }
  }

  /** The chain `s = s.replace(old, new)` over the table entries, in table order. */
  function ReplaceAll(s: string, table: seq<(char, string)>): string
    decreases |table|
  {
    if table == [] then s else ReplaceAll(ReplaceChar(s, table[0].0, table[0].1), table[1..])
  }

  /** No replacement holds a character that a later entry replaces. */
  predicate NoLaterPattern(table: seq<(char, string)>)
  {
    forall i, j :: 0 <= i < j < |table| ==> table[j].0 !in table[i].1
  }

  /** When no replacement is replaced again, the chain of replacements acts on each character
      of the input once, as the table says. */
  lemma {:induction false} ReplaceAllIsLookup(s: string, table: seq<(char, string)>)
    requires NoLaterPattern(table)
    ensures ReplaceAll(s, table) == Subst(s, LookupIn(table))
    decreases |table|
  {
    if table != [] {
      var c0, r0 := table[0].0, table[0].1;
      var rest := table[1..];
      assert NoLaterPattern(rest) by {
        forall i, j | 0 <= i < j < |rest| ensures rest[j].0 !in rest[i].1 {
          assert rest[j] == table[j + 1] && rest[i] == table[i + 1];
        }
      }
      var f := Replacer(c0, r0);
      var g := LookupIn(rest);
      ReplaceIsSubst(s, c0, r0);
      ReplaceAllIsLookup(ReplaceChar(s, c0, r0), rest);
      SubstCompose(s, f, g);
      forall i | 0 <= i < |s| ensures Then(f, g)(s[i]) == LookupIn(table)(s[i]) {
        if s[i] == c0 {
          forall k | 0 <= k < |r0| ensures g(r0[k]) == [r0[k]] {
            forall j | 0 <= j < |rest| ensures rest[j].0 != r0[k] {
              assert rest[j] == table[j + 1];
            }
            LookupAbsent(rest, r0[k]);
          }
          SubstKeeps(r0, g);
        } else {
          assert Subst([s[i]], g) == g(s[i]) + Subst([], g);
        }
      }
      SubstAgree(s, Then(f, g), LookupIn(table));
      assert ReplaceAll(s, table) == Subst(ReplaceChar(s, c0, r0), g);
    } else {
      SubstKeeps(s, LookupIn(table));
    }
  }

  function LowerChar(c: char): char
  {
    if 'A' <= c <= 'Z' then (c as int + 32) as char else c
  }

  function UpperChar(c: char): char
  {
    if 'a' <= c <= 'z' then (c as int - 32) as char else c
  }

  /** `s.lower()` (ASCII letters only). */
  function Lower(s: string): (r: string)
    ensures |r| == |s| && forall i :: 0 <= i < |s| ==> r[i] == LowerChar(s[i])
  {
    if s == [] then [] else [LowerChar(s[0])] + Lower(s[1..])
  }

  /** `s.upper()` (ASCII letters only). */
  function Upper(s: string): (r: string)
    ensures |r| == |s| && forall i :: 0 <= i < |s| ==> r[i] == UpperChar(s[i])
  {
    if s == [] then [] else [UpperChar(s[0])] + Upper(s[1..])
  }

  predicate IsDigit(c: char)
  {
    '0' <= c <= '9'
  }

  /** Python's `s.isdigit()` on ASCII: non-empty and all digits. */
  predicate AllDigits(s: string)
  {
    |s| > 0 && forall i :: 0 <= i < |s| ==> IsDigit(s[i])
  }

  function DigitValue(c: char): (d: nat)
    requires IsDigit(c)
    ensures d < 10
  {
    c as int - '0' as int
  }

  /** The value of a string of decimal digits. */
  function DecimalValue(s: string): nat
    requires forall i :: 0 <= i < |s| ==> IsDigit(s[i])
  {
    if s == [] then 0 else DecimalValue(s[..|s| - 1]) * 10 + DigitValue(s[|s| - 1])
  }

  /** `str(n)` for a natural number. */
  function DecimalString(n: nat): (r: string)
    ensures AllDigits(r)
  {
    if n < 10 then [('0' as int + n) as char] else DecimalString(n / 10) + [('0' as int + n % 10) as char]
  }

  lemma {:induction false} DecimalRoundTrip(n: nat)
    ensures DecimalValue(DecimalString(n)) == n
  {
    if n >= 10 {
      DecimalRoundTrip(n / 10);
      var s := DecimalString(n);
      assert s[..|s| - 1] == DecimalString(n / 10);
    }
  }

  /** Python's `int(s)` restricted to ASCII digits: `None` where Python raises `ValueError`. */
  datatype IntParse = Parsed(value: nat) | NotAnInt

  function ParseInt(s: string): (r: IntParse)
    ensures r.Parsed? <==> AllDigits(s)
    ensures r.Parsed? ==> r.value == DecimalValue(s)
  {
    if AllDigits(s) then Parsed(DecimalValue(s)) else NotAnInt
  }

  /** Python's `int(s)` on a string: surrounding whitespace is ignored. */
  function PyInt(s: string): (r: IntParse)
    ensures r.Parsed? <==> AllDigits(Strip(s))
    ensures r.Parsed? ==> r.value == DecimalValue(Strip(s))
  {
    ParseInt(Strip(s))
  }
}
