/**
 * The string operations the classifier relies on: Python's notion of
 * whitespace, `str.lower()`, `str.strip()`, the substring test `sub in s`,
 * `str.split()`, `"\n".join(...)` and the decimal rendering of an `int` in an
 * f-string. Each is given a contract that says what it computes, and the ones
 * that build text have an inverse or a reference definition proved against them.
 */
module Text {

  /** The characters for which Python's `str.isspace()` holds; `str.strip()`
      and `str.split()` without arguments remove or split on exactly these. */
  predicate IsSpace(c: char)
  {
    ('\t' <= c <= '\r') || ('\U{001C}' <= c <= ' ') || c == '\U{0085}' || c == '\U{00A0}'
    || c == '\U{1680}' || ('\U{2000}' <= c <= '\U{200A}') || c == '\U{2028}' || c == '\U{2029}'
    || c == '\U{202F}' || c == '\U{205F}' || c == '\U{3000}'
  }

  const Whitespace: set<char> := set c: char | IsSpace(c)

  predicate IsUpper(c: char) { 'A' <= c <= 'Z' }

  /** Lower-casing of one character (ASCII letters only). */
  function Lower(c: char): (r: char)
    ensures !IsUpper(r)
    ensures IsUpper(c) ==> r as int == c as int + 32
    ensures !IsUpper(c) ==> r == c
  {
    if IsUpper(c) then (c as int + 32) as char else c
  }

  /** `s.lower()`: the string of the lower-cased characters, in order. */
  function LowerStr(s: string): (r: string)
    ensures |r| == |s|
    ensures forall i :: 0 <= i < |s| ==> r[i] == Lower(s[i])
  {
    if s == [] then [] else [Lower(s[0])] + LowerStr(s[1..])
  }

  /** Lower-casing works character by character, so it distributes over concatenation. */
  lemma {:induction false} LowerStrAppend(a: string, b: string)
    ensures LowerStr(a + b) == LowerStr(a) + LowerStr(b)
    decreases |a|
  {
    if a != [] {
      assert (a + b)[1..] == a[1..] + b;
      LowerStrAppend(a[1..], b);
    }
  }

  predicate AllIn(s: string, cs: set<char>)
  {
    forall i :: 0 <= i < |s| ==> s[i] in cs
  }

  /** `s.lstrip(cs)`: drops the longest prefix made of characters of `cs`. */
  function TrimStart(s: string, cs: set<char>): (r: string)
    ensures |r| <= |s|
    decreases |s|
  {
    if s != [] && s[0] in cs then TrimStart(s[1..], cs) else s
  }

  /** What `TrimStart` removes is a prefix of characters of `cs`, and what it
      keeps does not start with one. */
  lemma {:induction false} TrimStartSpec(s: string, cs: set<char>)
    ensures var r := TrimStart(s, cs);
      r == s[|s| - |r|..] && AllIn(s[..|s| - |r|], cs) && (r == [] || r[0] !in cs)
    decreases |s|
  {
    if s != [] && s[0] in cs {
      TrimStartSpec(s[1..], cs);
      var r := TrimStart(s, cs);
      assert s[|s| - |r|..] == s[1..][|s| - 1 - |r|..];
      assert s[..|s| - |r|] == [s[0]] + s[1..][..|s| - 1 - |r|];
    }
  }

  /** `s.rstrip(cs)`: drops the longest suffix made of characters of `cs`. */
  function TrimEnd(s: string, cs: set<char>): (r: string)
    ensures |r| <= |s|
    decreases |s|
  {
    if s != [] && s[|s| - 1] in cs then TrimEnd(s[..|s| - 1], cs) else s
  }

  /** What `TrimEnd` removes is a suffix of characters of `cs`, and what it
      keeps does not end with one. */
  lemma {:induction false} TrimEndSpec(s: string, cs: set<char>)
    ensures var r := TrimEnd(s, cs);
      r == s[..|r|] && AllIn(s[|r|..], cs) && (r == [] || r[|r| - 1] !in cs)
    decreases |s|
  {
    if s != [] && s[|s| - 1] in cs {
      var s' := s[..|s| - 1];
      TrimEndSpec(s', cs);
      var r := TrimEnd(s, cs);
      assert s[..|r|] == s'[..|r|];
      assert s[|r|..] == s'[|r|..] + [s[|s| - 1]];
    }
  }

  /** `r` is `s` with its first `i` characters and a suffix cut off, all of
      them characters of `cs`. */
  ghost predicate TrimmedAt(r: string, s: string, cs: set<char>, i: int)
  {
    0 <= i <= |s| - |r| && r == s[i..i + |r|] && AllIn(s[..i], cs) && AllIn(s[i + |r|..], cs)
  }

  /** `s` with a prefix and a suffix made only of characters of `cs` cut off. */
  ghost predicate IsTrimmedFrom(r: string, s: string, cs: set<char>)
  {
    exists i :: TrimmedAt(r, s, cs, i)
  }

  /** `s.strip(cs)`. */
  function Strip(s: string, cs: set<char>): string
  {
    TrimEnd(TrimStart(s, cs), cs)
  }

  /** `s.strip(cs)` is the run of `s` left after cutting characters of `cs`
      from both ends, and it neither starts nor ends with one of them; it is
      empty only when `s` consists of such characters. */
  lemma StripSpec(s: string, cs: set<char>)
    ensures var r := Strip(s, cs);
      IsTrimmedFrom(r, s, cs) && (r == [] || (r[0] !in cs && r[|r| - 1] !in cs))
      && (r == [] ==> AllIn(s, cs))
  {
    var t := TrimStart(s, cs);
    var r := TrimEnd(t, cs);
    TrimStartSpec(s, cs);
    TrimEndSpec(t, cs);
    var i := |s| - |t|;
    assert s[i..i + |r|] == r;
    assert s[i + |r|..] == t[|r|..];
    assert TrimmedAt(r, s, cs, i);
    if r != [] {
      assert r[0] == t[0];
    } else {
      assert s == s[..i] + t;
      assert t[|r|..] == t;
    }
  }

  /** Cutting twice is cutting once, with the characters of both sets. */
  lemma TrimmedTwice(r: string, m: string, s: string, cs1: set<char>, cs2: set<char>)
    requires IsTrimmedFrom(m, s, cs1) && IsTrimmedFrom(r, m, cs2)
    ensures IsTrimmedFrom(r, s, cs1 + cs2)
  {
    var cs := cs1 + cs2;
    var i :| TrimmedAt(m, s, cs1, i);
    var j :| TrimmedAt(r, m, cs2, j);
    var n := i + j;
    assert r == s[n..n + |r|] by {
      forall x | 0 <= x < |r| ensures r[x] == s[n + x] {
        assert r[x] == m[j + x];
        assert m[j + x] == s[i + j + x];
      }
    }
    var front := s[..n];
    assert front == s[..i] + m[..j];
    assert AllIn(front, cs) by {
      forall x | 0 <= x < |front| ensures front[x] in cs {
        if x < i { assert front[x] == s[..i][x]; } else { assert front[x] == m[..j][x - i]; }
      }
    }
    var back := s[n + |r|..];
    assert back == m[j + |r|..] + s[i + |m|..];
    assert AllIn(back, cs) by {
      var p := |m| - j - |r|;
      forall x | 0 <= x < |back| ensures back[x] in cs {
        if x < p { assert back[x] == m[j + |r|..][x]; } else { assert back[x] == s[i + |m|..][x - p]; }
      }
    }
    assert TrimmedAt(r, s, cs, n);
  }

  /** `prefix` is a prefix of `s` (Python `s.startswith(prefix)`). */
  predicate StartsWith(s: string, prefix: string)
  {
    |prefix| <= |s| && s[..|prefix|] == prefix
  }

  /** Python's `sub in s`, searched from the left. */
  predicate Contains(s: string, sub: string)
    decreases |s|
  {
    StartsWith(s, sub) || (s != [] && Contains(s[1..], sub))
  }

  /** `sub` occurs in `s` starting at position `i`. */
  ghost predicate OccursAt(s: string, sub: string, i: int)
  {
    0 <= i <= |s| - |sub| && s[i..i + |sub|] == sub
  }

  /** The search agrees with the definition of a substring: some position of
      `s` holds `sub`. */
  lemma {:induction false} ContainsIff(s: string, sub: string)
    ensures Contains(s, sub) <==> exists i :: OccursAt(s, sub, i)
    decreases |s|
  {
    if StartsWith(s, sub) {
      assert OccursAt(s, sub, 0);
    } else {
      assert !OccursAt(s, sub, 0) by {
        if |sub| <= |s| { assert s[0..|sub|] == s[..|sub|]; }
      }
      if s != [] {
        ContainsIff(s[1..], sub);
        forall i | 1 <= i
          ensures OccursAt(s, sub, i) <==> OccursAt(s[1..], sub, i - 1)
        {
          if i <= |s| - |sub| {
            assert s[i..i + |sub|] == s[1..][i - 1..i - 1 + |sub|];
          }
        }
        if Contains(s[1..], sub) {
          var i :| OccursAt(s[1..], sub, i);
          assert OccursAt(s, sub, i + 1);
        }
      }
    }
  }

  /** A string contains whatever is written inside it. */
  lemma ContainsInside(a: string, b: string, c: string)
    ensures Contains(a + b + c, b)
  {
    ContainsIff(a + b + c, b);
    assert (a + b + c)[|a|..|a| + |b|] == b;
    assert OccursAt(a + b + c, b, |a|);
  }

  /** Nothing longer than `s` occurs in it. */
  lemma NotContainsLonger(s: string, sub: string)
    requires |sub| > |s|
    ensures !Contains(s, sub)
  {
    ContainsIff(s, sub);
  }

  /** Python's `any(w in s for w in subs)`: tries the candidates in order. */
  predicate ContainsAny(s: string, subs: seq<string>)
  {
    subs != [] && (Contains(s, subs[0]) || ContainsAny(s, subs[1..]))
  }

  /** `any` holds exactly when some candidate occurs in `s`. */
  lemma {:induction false} ContainsAnyIff(s: string, subs: seq<string>)
    ensures ContainsAny(s, subs) <==> exists w :: w in subs && Contains(s, w)
  {
    if subs != [] {
      ContainsAnyIff(s, subs[1..]);
      assert subs == [subs[0]] + subs[1..];
      if exists w :: w in subs && Contains(s, w) {
        var w :| w in subs && Contains(s, w);
        assert w == subs[0] || w in subs[1..];
      }
    }
  }

  predicate NoWhitespace(s: string)
  {
    forall i :: 0 <= i < |s| ==> s[i] !in Whitespace
  }

  /** The longest prefix of `s` without whitespace. */
  function WordPrefix(s: string): (r: string)
    ensures |r| <= |s| && r == s[..|r|]
    ensures NoWhitespace(r)
    ensures |r| == |s| || s[|r|] in Whitespace
  {
    if s == [] || s[0] in Whitespace then [] else [s[0]] + WordPrefix(s[1..])
  }

  /** `s.split()`: the maximal runs of non-whitespace characters, in order. */
  function Words(s: string): (r: seq<string>)
    ensures forall i :: 0 <= i < |r| ==> r[i] != [] && NoWhitespace(r[i])
    decreases |s|
  {
    var t := TrimStart(s, Whitespace);
    if t == [] then []
    else
      var w := WordPrefix(t);
      assert w != [] by { TrimStartSpec(s, Whitespace); }
      [w] + Words(t[|w|..])
  }

  /** Left-stripping skips a leading run of characters of `cs` whatever follows it. */
  lemma {:induction false} TrimStartAfter(a: string, t: string, cs: set<char>)
    requires AllIn(a, cs)
    ensures TrimStart(a + t, cs) == TrimStart(t, cs)
    decreases |a|
  {
    if a == [] {
      assert a + t == t;
    } else {
      assert (a + t)[1..] == a[1..] + t;
      TrimStartAfter(a[1..], t, cs);
    }
  }

  /** A word followed by whitespace, or by nothing, is read as a whole. */
  lemma {:induction false} WordPrefixOfWordThen(w: string, b: string)
    requires NoWhitespace(w)
    requires b == [] || b[0] in Whitespace
    ensures WordPrefix(w + b) == w
    decreases |w|
  {
    if w == [] {
      assert w + b == b;
    } else {
      assert (w + b)[1..] == w[1..] + b;
      WordPrefixOfWordThen(w[1..], b);
    }
  }

  /** A text made only of whitespace has no words. */
  lemma WordsOfBlank(s: string)
    requires AllIn(s, Whitespace)
    ensures Words(s) == []
  {
    TrimStartAfter(s, [], Whitespace);
    assert s + [] == s;
  }

  /** `split()` takes maximal runs: whitespace, then a run of non-whitespace
      that ends at whitespace or at the end of the text, gives that run as the
      next word and continues after it. */
  lemma WordsCons(a: string, w: string, b: string)
    requires AllIn(a, Whitespace)
    requires w != [] && NoWhitespace(w)
    requires b == [] || b[0] in Whitespace
    ensures Words(a + w + b) == [w] + Words(b)
  {
    assert a + w + b == a + (w + b);
    TrimStartAfter(a, w + b, Whitespace);
    assert TrimStart(w + b, Whitespace) == w + b;
    WordPrefixOfWordThen(w, b);
    assert (w + b)[|w|..] == b;
  }

  function Concat(parts: seq<string>): string
  {
    if parts == [] then [] else parts[0] + Concat(parts[1..])
  }

  /** The characters of `s` that are not whitespace, in order. */
  function RemoveWhitespace(s: string): string
  {
    if s == [] then []
    else (if s[0] in Whitespace then [] else [s[0]]) + RemoveWhitespace(s[1..])
  }

  lemma {:induction false} RemoveWhitespaceAppend(a: string, b: string)
    ensures RemoveWhitespace(a + b) == RemoveWhitespace(a) + RemoveWhitespace(b)
    decreases |a|
  {
    if a == [] {
      assert a + b == b;
    } else {
      var head := if a[0] in Whitespace then [] else [a[0]];
      assert (a + b)[0] == a[0];
      assert (a + b)[1..] == a[1..] + b;
      RemoveWhitespaceAppend(a[1..], b);
      calc {
        RemoveWhitespace(a + b);
        head + RemoveWhitespace(a[1..] + b);
        head + (RemoveWhitespace(a[1..]) + RemoveWhitespace(b));
        (head + RemoveWhitespace(a[1..])) + RemoveWhitespace(b);
      }
    }
  }

  lemma {:induction false} RemoveWhitespaceOfBlank(s: string)
    requires AllIn(s, Whitespace)
    ensures RemoveWhitespace(s) == []
    decreases |s|
  {
    if s != [] {
      RemoveWhitespaceOfBlank(s[1..]);
    }
  }

  lemma {:induction false} RemoveWhitespaceOfWord(s: string)
    requires NoWhitespace(s)
    ensures RemoveWhitespace(s) == s
    decreases |s|
  {
    if s != [] {
      RemoveWhitespaceOfWord(s[1..]);
    }
  }

  /** Splitting loses exactly the whitespace: the words, put back together,
      are the non-whitespace characters of `s` in their original order. */
  lemma {:induction false} WordsCoverText(s: string)
    ensures Concat(Words(s)) == RemoveWhitespace(s)
    decreases |s|
  {
    var t := TrimStart(s, Whitespace);
    TrimStartSpec(s, Whitespace);
    var lead := s[..|s| - |t|];
    assert s == lead + t;
    RemoveWhitespaceAppend(lead, t);
    RemoveWhitespaceOfBlank(lead);
    if t != [] {
      var w := WordPrefix(t);
      assert t == w + t[|w|..];
      RemoveWhitespaceAppend(w, t[|w|..]);
      RemoveWhitespaceOfWord(w);
      WordsCoverText(t[|w|..]);
      assert Words(s) == [w] + Words(t[|w|..]);
      assert ([w] + Words(t[|w|..]))[1..] == Words(t[|w|..]);
    }
  }

  /** `sep.join(parts)` for a one-character separator. */
  function Join(parts: seq<string>, sep: char): string
  {
    if parts == [] then []
    else if |parts| == 1 then parts[0]
    else parts[0] + [sep] + Join(parts[1..], sep)
  }

  /** The first position of `c` in `s`. */
  function IndexOf(s: string, c: char): (k: nat)
    requires c in s
    ensures k < |s| && s[k] == c && c !in s[..k]
  {
    if s[0] == c then 0 else 1 + IndexOf(s[1..], c)
  }

  /** `s.split(sep)`: the pieces between occurrences of `sep`; there is always
      at least one piece. */
  function SplitOn(s: string, sep: char): (r: seq<string>)
    ensures r != []
    ensures forall i :: 0 <= i < |r| ==> sep !in r[i]
    decreases |s|
  {
    if sep in s then
      var k := IndexOf(s, sep);
      [s[..k]] + SplitOn(s[k + 1..], sep)
    else
      [s]
  }

  /** Splitting a joined text on the separator gives back the parts, as long
      as no part contains the separator itself. */
  lemma {:induction false} SplitJoin(parts: seq<string>, sep: char)
    requires parts != []
    requires forall i :: 0 <= i < |parts| ==> sep !in parts[i]
    ensures SplitOn(Join(parts, sep), sep) == parts
    decreases |parts|
  {
    if |parts| > 1 {
      var p := parts[0];
      var rest := Join(parts[1..], sep);
      var s := Join(parts, sep);
      assert s == p + [sep] + rest;
      assert s[|p|] == sep;
      var k := IndexOf(s, sep);
      assert k == |p|;
      assert s[..k] == p;
      assert s[k + 1..] == rest;
      SplitJoin(parts[1..], sep);
    }
  }

  predicate IsDigit(c: char) { '0' <= c <= '9' }

  function DigitChar(d: nat): (c: char)
    requires d < 10
    ensures IsDigit(c)
  {
    ('0' as int + d) as char
  }

  function DigitValue(c: char): (d: nat)
    requires IsDigit(c)
    ensures d < 10 && DigitChar(d) == c
  {
    c as int - '0' as int
  }

  /** `f"{n}"` for a natural number: its decimal digits, with no leading zero. */
  function Decimal(n: nat): (r: string)
    ensures r != [] && forall i :: 0 <= i < |r| ==> IsDigit(r[i])
    ensures r[0] == '0' <==> n == 0
  {
    if n < 10 then [DigitChar(n)] else Decimal(n / 10) + [DigitChar(n % 10)]
  }

  /** The value of a string of decimal digits. */
  function ParseDecimal(s: string): nat
    requires forall i :: 0 <= i < |s| ==> IsDigit(s[i])
  {
    if s == [] then 0 else ParseDecimal(s[..|s| - 1]) * 10 + DigitValue(s[|s| - 1])
  }

  /** Reading the digits back gives the number that was rendered. */
  lemma {:induction false} ParseDecimalOfDecimal(n: nat)
    ensures ParseDecimal(Decimal(n)) == n
  {
    var r := Decimal(n);
    if n >= 10 {
      ParseDecimalOfDecimal(n / 10);
      assert r[..|r| - 1] == Decimal(n / 10);
    }
  }
}
