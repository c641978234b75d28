/**
 * `clean_escape_characters` of analyzer.py: ten `re.sub` rewrites of literal
 * backslash escapes, then `re.sub(r'\s+', ' ', text).strip()`.
 */
module Sanitizer {
  import opened Text

  /** One position of a fixed-length pattern: a literal character or `[0-9A-Fa-f]`. */
  datatype CharClass = Lit(c: char) | HexDigit

  predicate InClass(k: CharClass, ch: char) {
    match k
    case Lit(c) => ch == c
    case HexDigit => '0' <= ch <= '9' || 'A' <= ch <= 'F' || 'a' <= ch <= 'f'
  }

  /** The pattern `p` matches at the start of `s`. */
  predicate MatchesAt(s: string, p: seq<CharClass>) {
    |p| <= |s| && forall i :: 0 <= i < |p| ==> InClass(p[i], s[i])
  }

  /**
   * `re.sub(p, repl, s)` for a fixed-length pattern: scanning left to right,
   * each match is replaced by `repl` and the scan resumes after it.
   */
  function Sub(s: string, p: seq<CharClass>, repl: string): string
    requires |p| > 0
    decreases |s|
  {
    if s == [] then []
    else if MatchesAt(s, p) then repl + Sub(s[|p|..], p, repl)
    else [s[0]] + Sub(s[1..], p, repl)
  }

  const Backslash: CharClass := Lit('\\')
  /** `\\u[0-9A-Fa-f]{4}` */
  const ShortUnicodeEscape: seq<CharClass> := [Backslash, Lit('u'), HexDigit, HexDigit, HexDigit, HexDigit]
  /** `\\U[0-9A-Fa-f]{8}` */
  const LongUnicodeEscape: seq<CharClass> :=
    [Backslash, Lit('U'), HexDigit, HexDigit, HexDigit, HexDigit, HexDigit, HexDigit, HexDigit, HexDigit]

  /** One `re.sub(pattern, replacement, text)` call: the pattern and the replacement. */
  type Rewrite = (seq<CharClass>, string)

  /** Every pattern of `rs` is non-empty and starts with a backslash or a double quote. */
  predicate EscapePatterns(rs: seq<Rewrite>) {
    forall j :: 0 <= j < |rs| ==> |rs[j].0| > 0 && (rs[j].0[0] == Backslash || rs[j].0[0] == Lit('"'))
  }

  /** The rewrites of analyzer.py lines 69 to 78, in the order they run. */
  const Rewrites: seq<Rewrite> := [
    (ShortUnicodeEscape, ""),
    (LongUnicodeEscape, ""),
    ([Backslash, Lit('n')], " "),
    ([Backslash, Lit('t')], " "),
    ([Backslash, Lit('r')], " "),
    ([Backslash, Lit('"')], ""),
    ([Backslash, Lit('\'')], "'"),
    ([Backslash, Lit('$')], "$"),
    ([Backslash], ""),
    ([Lit('"')], "")
  ]

  /** The rewrites `rs` run one after the other over `s`. */
  function SubAll(s: string, rs: seq<Rewrite>): string
    requires EscapePatterns(rs)
    decreases |rs|
  {
    if rs == [] then s else SubAll(Sub(s, rs[0].0, rs[0].1), rs[1..])
  }

  /** Lines 69 to 78 of `clean_escape_characters`. */
  function DropEscapes(s: string): string {
    SubAll(s, Rewrites)
  }

  /** `re.sub(r'\s+', ' ', s)`: every maximal whitespace run becomes one space. */
  function CollapseSpaces(s: string): string
    decreases |s|
  {
    if s == [] then []
    else if IsSpace(s[0]) then [' '] + CollapseSpaces(s[SpaceRun(s)..])
    else [s[0]] + CollapseSpaces(s[1..])
  }

  /** `s.rstrip()` */
  function RStrip(s: string): string {
    if s == [] || !IsSpace(s[|s| - 1]) then s else RStrip(s[..|s| - 1])
  }

  /** `s.strip()` */
  function Strip(s: string): string {
    RStrip(s[SpaceRun(s)..])
  }

  /** `clean_escape_characters(text)`. */
  function CleanEscapeCharacters(s: string): string {
    Strip(CollapseSpaces(DropEscapes(s)))
  }

  // ---------------------------------------------------------------------------
  // What the output looks like

  /** Whitespace in `s` is only single ASCII spaces. */
  predicate SingleSpaced(s: string) {
    (forall i :: 0 <= i < |s| && IsSpace(s[i]) ==> s[i] == ' ') &&
    (forall i :: 0 <= i < |s| - 1 && IsSpace(s[i]) ==> !IsSpace(s[i + 1]))
  }

  /** `s` neither starts nor ends with whitespace. */
  predicate Trimmed(s: string) {
    s == [] || (!IsSpace(s[0]) && !IsSpace(s[|s| - 1]))
  }

  // ---------------------------------------------------------------------------
  // One rewrite

  /** A rewrite only produces characters of its input or of its replacement. */
  lemma {:induction false} SubChars(s: string, p: seq<CharClass>, repl: string, c: char)
    requires |p| > 0 && c !in s && c !in repl
    ensures c !in Sub(s, p, repl)
    decreases |s|
  {
    if s != [] {
      if MatchesAt(s, p) {
        SubChars(s[|p|..], p, repl, c);
      } else {
        SubChars(s[1..], p, repl, c);
      }
    }
  }

  /** Deleting every occurrence of a single character leaves none of it. */
  lemma {:induction false} SubDeletesChar(s: string, c: char)
    ensures c !in Sub(s, [Lit(c)], "")
    decreases |s|
  {
    if s != [] {
      SubDeletesChar(s[1..], c);
    }
  }

  /** A rewrite whose replacement is no longer than its pattern never lengthens. */
  lemma {:induction false} SubShorter(s: string, p: seq<CharClass>, repl: string)
    requires |p| > 0 && |repl| <= |p|
    ensures |Sub(s, p, repl)| <= |s|
    decreases |s|
  {
    if s != [] {
      if MatchesAt(s, p) {
        SubShorter(s[|p|..], p, repl);
      } else {
        SubShorter(s[1..], p, repl);
      }
    }
  }

  /** A rewrite whose pattern starts with a character absent from `s` changes nothing. */
  lemma {:induction false} SubAbsent(s: string, p: seq<CharClass>, repl: string, c: char)
    requires |p| > 0 && p[0] == Lit(c) && c !in s
    ensures Sub(s, p, repl) == s
    decreases |s|
  {
    if s != [] {
      assert !MatchesAt(s, p) by {
        assert !InClass(p[0], s[0]);
      }
      SubAbsent(s[1..], p, repl, c);
    }
  }

  // ---------------------------------------------------------------------------
  // The escape rewrites

  lemma {:induction false} SubAllShorter(s: string, rs: seq<Rewrite>)
    requires EscapePatterns(rs)
    requires forall j :: 0 <= j < |rs| ==> |rs[j].1| <= |rs[j].0|
    ensures |SubAll(s, rs)| <= |s|
    decreases |rs|
  {
    if rs != [] {
      SubShorter(s, rs[0].0, rs[0].1);
      SubAllShorter(Sub(s, rs[0].0, rs[0].1), rs[1..]);
    }
  }

  lemma {:induction false} SubAllAppend(s: string, a: seq<Rewrite>, b: seq<Rewrite>)
    requires EscapePatterns(a) && EscapePatterns(b)
    ensures EscapePatterns(a + b) && SubAll(s, a + b) == SubAll(SubAll(s, a), b)
    decreases |a|
  {
    if a != [] {
      assert (a + b)[0] == a[0] && (a + b)[1..] == a[1..] + b;
      SubAllAppend(Sub(s, a[0].0, a[0].1), a[1..], b);
    } else {
      assert a + b == b;
    }
  }

  lemma {:induction false} SubAllEmpty(rs: seq<Rewrite>)
    requires EscapePatterns(rs)
    ensures SubAll([], rs) == []
    decreases |rs|
  {
    if rs != [] {
      SubAllEmpty(rs[1..]);
    }
  }

  /** After lines 69 to 78 no backslash and no double quote is left, and nothing grew. */
  lemma DropEscapesResult(s: string)
    ensures '\\' !in DropEscapes(s) && '"' !in DropEscapes(s)
    ensures |DropEscapes(s)| <= |s|
  {
    SubAllShorter(s, Rewrites);
    var front, back := Rewrites[..8], Rewrites[8..];
    assert Rewrites == front + back;
    SubAllAppend(s, front, back);
    var x := SubAll(s, front);
    var y := Sub(x, [Backslash], "");
    assert back[0] == ([Backslash], "") && back[1..][0] == ([Lit('"')], "") && back[1..][1..] == [];
    assert SubAll(x, back) == SubAll(y, back[1..]);
    assert SubAll(y, back[1..]) == Sub(y, [Lit('"')], "");
    SubDeletesChar(x, '\\');
    SubChars(y, [Lit('"')], "", '\\');
    SubDeletesChar(y, '"');
  }

  /** Text before the first backslash or double quote is not touched by a rewrite. */
  lemma {:induction false} SubPrefix(p: string, t: string, pat: seq<CharClass>, repl: string, c: char)
    requires |pat| > 0 && pat[0] == Lit(c) && c !in p
    ensures Sub(p + t, pat, repl) == p + Sub(t, pat, repl)
    decreases |p|
  {
    if p != [] {
      assert (p + t)[0] == p[0] && (p + t)[1..] == p[1..] + t;
      assert !InClass(pat[0], p[0]);
      SubPrefix(p[1..], t, pat, repl, c);
    } else {
      assert p + t == t;
    }
  }

  lemma {:induction false} SubAllPrefix(p: string, t: string, rs: seq<Rewrite>)
    requires EscapePatterns(rs) && '\\' !in p && '"' !in p
    ensures SubAll(p + t, rs) == p + SubAll(t, rs)
    decreases |rs|
  {
    if rs != [] {
      var c := if rs[0].0[0] == Backslash then '\\' else '"';
      SubPrefix(p, t, rs[0].0, rs[0].1, c);
      SubAllPrefix(p, Sub(t, rs[0].0, rs[0].1), rs[1..]);
    }
  }

  /**
   * Lines 69 to 78 leave text without backslashes and double quotes alone,
   * wherever it stands: such a prefix passes through and the rest is
   * rewritten as if it stood alone.
   */
  lemma DropEscapesPrefix(p: string, t: string)
    requires '\\' !in p && '"' !in p
    ensures DropEscapes(p + t) == p + DropEscapes(t)
  {
    SubAllPrefix(p, t, Rewrites);
  }

  /** Text without backslashes and double quotes passes lines 69 to 78 unchanged. */
  lemma DropEscapesIdentity(s: string)
    requires '\\' !in s && '"' !in s
    ensures DropEscapes(s) == s
  {
    DropEscapesPrefix(s, []);
    SubAllEmpty(Rewrites);
    assert s + [] == s;
  }

  /**
   * The escape `e` is not a match of the backslash pattern `pat`: their
   * second characters differ, and no backslash follows the first.
   */
  predicate Skips(pat: seq<CharClass>, e: string) {
    |pat| >= 2 && pat[0] == Backslash && |e| >= 2 && e[0] == '\\' &&
    !InClass(pat[1], e[1]) && '\\' !in e[1..]
  }

  lemma SubSkip(e: string, x: string, pat: seq<CharClass>, repl: string)
    requires Skips(pat, e)
    ensures Sub(e + x, pat, repl) == e + Sub(x, pat, repl)
  {
    assert (e + x)[0] == e[0] && (e + x)[1] == e[1] && (e + x)[1..] == e[1..] + x;
    assert !MatchesAt(e + x, pat);
    SubPrefix(e[1..], x, pat, repl, '\\');
    assert e == [e[0]] + e[1..];
  }

  lemma SubHit(e: string, x: string, pat: seq<CharClass>, repl: string)
    requires |pat| > 0 && |e| == |pat| && MatchesAt(e, pat)
    ensures Sub(e + x, pat, repl) == repl + Sub(x, pat, repl)
  {
    assert MatchesAt(e + x, pat) by {
      forall i | 0 <= i < |pat| ensures InClass(pat[i], (e + x)[i]) {
        assert (e + x)[i] == e[i];
      }
    }
    assert (e + x)[|pat|..] == x;
  }

  /**
   * An escape `e` matched by rewrite `i`, and skipped by every earlier one,
   * becomes replacement `i`, and the text after it is rewritten on its own.
   */
  lemma {:induction false} SubAllEscape(e: string, t: string, rs: seq<Rewrite>, i: nat)
    requires EscapePatterns(rs) && i < |rs|
    requires |e| == |rs[i].0| && MatchesAt(e, rs[i].0)
    requires forall j :: 0 <= j < i ==> Skips(rs[j].0, e)
    requires '\\' !in rs[i].1 && '"' !in rs[i].1
    ensures SubAll(e + t, rs) == rs[i].1 + SubAll(t, rs)
    decreases i
  {
    var t1 := Sub(t, rs[0].0, rs[0].1);
    if i == 0 {
      SubHit(e, t, rs[0].0, rs[0].1);
      SubAllPrefix(rs[0].1, t1, rs[1..]);
    } else {
      SubSkip(e, t, rs[0].0, rs[0].1);
      SubAllEscape(e, t1, rs[1..], i - 1);
    }
  }

  /** Every character of `h` is a hexadecimal digit. */
  predicate AllHex(h: string) {
    forall k :: 0 <= k < |h| ==> InClass(HexDigit, h[k])
  }

  /** Line 69: `\\uXXXX` is removed. */
  lemma DropEscapesShortUnicode(h: string, t: string)
    requires |h| == 4 && AllHex(h)
    ensures DropEscapes("\\u" + h + t) == DropEscapes(t)
  {
    var e := "\\u" + h;
    assert MatchesAt(e, Rewrites[0].0) by {
      forall k | 0 <= k < 6 ensures InClass(Rewrites[0].0[k], e[k]) {
        if k >= 2 {
          assert e[k] == h[k - 2];
        }
      }
    }
    SubAllEscape(e, t, Rewrites, 0);
  }

  /** Line 70: `\\UXXXXXXXX` is removed. */
  lemma DropEscapesLongUnicode(h: string, t: string)
    requires |h| == 8 && AllHex(h)
    ensures DropEscapes("\\U" + h + t) == DropEscapes(t)
  {
    var e := "\\U" + h;
    assert MatchesAt(e, Rewrites[1].0) by {
      forall k | 0 <= k < 10 ensures InClass(Rewrites[1].0[k], e[k]) {
        if k >= 2 {
          assert e[k] == h[k - 2];
        }
      }
    }
    assert '\\' !in e[1..] by {
      forall k | 1 <= k < |e| ensures e[k] != '\\' {
        if k >= 2 {
          assert e[k] == h[k - 2];
        }
      }
    }
    SubAllEscape(e, t, Rewrites, 1);
  }

  /** Line 71: `\\n` becomes a space. */
  lemma DropEscapesNewline(t: string)
    ensures DropEscapes("\\n" + t) == " " + DropEscapes(t)
  {
    SubAllEscape("\\n", t, Rewrites, 2);
  }

  /** Line 72: `\\t` becomes a space. */
  lemma DropEscapesTab(t: string)
    ensures DropEscapes("\\t" + t) == " " + DropEscapes(t)
  {
    SubAllEscape("\\t", t, Rewrites, 3);
  }

  /** Line 73: `\\r` becomes a space. */
  lemma DropEscapesReturn(t: string)
    ensures DropEscapes("\\r" + t) == " " + DropEscapes(t)
  {
    SubAllEscape("\\r", t, Rewrites, 4);
  }

  /** Line 74: `\\"` is removed. */
  lemma DropEscapesQuote(t: string)
    ensures DropEscapes("\\\"" + t) == DropEscapes(t)
  {
    SubAllEscape("\\\"", t, Rewrites, 5);
  }

  /** Line 75: `\\'` loses its backslash. */
  lemma DropEscapesApostrophe(t: string)
    ensures DropEscapes("\\'" + t) == "'" + DropEscapes(t)
  {
    SubAllEscape("\\'", t, Rewrites, 6);
  }

  /** Line 76: `\\$` loses its backslash. */
  lemma DropEscapesDollar(t: string)
    ensures DropEscapes("\\$" + t) == "$" + DropEscapes(t)
  {
    SubAllEscape("\\$", t, Rewrites, 7);
  }

  /** Every pattern of `rs` starts with a backslash. */
  predicate BackslashPatterns(rs: seq<Rewrite>) {
    forall j :: 0 <= j < |rs| ==> |rs[j].0| > 0 && rs[j].0[0] == Backslash
  }

  /** Text without backslashes passes rewrites whose patterns start with a backslash. */
  lemma {:induction false} SubAllBackslashPrefix(p: string, t: string, rs: seq<Rewrite>)
    requires EscapePatterns(rs) && BackslashPatterns(rs) && '\\' !in p
    ensures SubAll(p + t, rs) == p + SubAll(t, rs)
    decreases |rs|
  {
    if rs != [] {
      SubPrefix(p, t, rs[0].0, rs[0].1, '\\');
      SubAllBackslashPrefix(p, Sub(t, rs[0].0, rs[0].1), rs[1..]);
    }
  }

  /** Line 78: a plain `"` is removed; the rewrites before it only look at backslashes. */
  lemma DropEscapesDoubleQuote(t: string)
    ensures DropEscapes("\"" + t) == DropEscapes(t)
  {
    var q := "\"";
    var front, back := Rewrites[..9], Rewrites[9..];
    assert Rewrites == front + back;
    assert back == [([Lit('"')], "")];
    SubAllAppend(q + t, front, back);
    SubAllAppend(t, front, back);
    SubAllBackslashPrefix(q, t, front);
    var x := SubAll(t, front);
    SubHit(q, x, [Lit('"')], "");
    assert SubAll(q + x, back) == Sub(q + x, [Lit('"')], "");
    assert SubAll(x, back) == Sub(x, [Lit('"')], "");
  }

  // ---------------------------------------------------------------------------
  // Whitespace

  /**
   * Collapsing whitespace leaves single spaces only, keeps every other
   * character in order, never lengthens, and starts with whitespace exactly
   * when its input does. That it keeps the words is `CollapseSpacesWords`.
   */
  lemma {:induction false} CollapseSpacesResult(s: string)
    ensures SingleSpaced(CollapseSpaces(s))
    ensures |CollapseSpaces(s)| <= |s|
    ensures forall c :: c in CollapseSpaces(s) ==> c in s || c == ' '
    ensures CollapseSpaces(s) == [] <==> s == []
    ensures s != [] ==> (IsSpace(CollapseSpaces(s)[0]) <==> IsSpace(s[0]))
    ensures NonSpace(CollapseSpaces(s)) == NonSpace(s)
    decreases |s|
  {
    if s != [] {
      var r := CollapseSpaces(s);
      var n := if IsSpace(s[0]) then SpaceRun(s) else 1;
      var t := s[n..];
      CollapseSpacesResult(t);
      assert s == s[..n] + t;
      NonSpaceAppend(s[..n], t);
      NonSpaceAppend(r[..1], r[1..]);
      assert r == r[..1] + r[1..];
      assert r[1..] == CollapseSpaces(t);
      assert t != [] ==> !IsSpace(t[0]) || !IsSpace(s[0]);
      forall c | c in r ensures c in s || c == ' ' {
        if c != r[0] {
          assert c in CollapseSpaces(t);
        }
      }
    }
  }

  /** A word passes the collapse untouched. */
  lemma {:induction false} CollapseSpacesWord(w: string, r: string)
    requires NoSpace(w)
    ensures CollapseSpaces(w + r) == w + CollapseSpaces(r)
    decreases |w|
  {
    if w != [] {
      assert (w + r)[0] == w[0] && (w + r)[1..] == w[1..] + r;
      assert !IsSpace(w[0]) && NoSpace(w[1..]);
      CollapseSpacesWord(w[1..], r);
    } else {
      assert w + r == r;
    }
  }

  /**
   * The collapse keeps the words: every whitespace run between two words
   * becomes a separator, never nothing, so no two words are glued together.
   */
  lemma {:induction false} CollapseSpacesWords(s: string)
    ensures Words(CollapseSpaces(s)) == Words(s)
    decreases |s|
  {
    if s != [] {
      if IsSpace(s[0]) {
        var n := SpaceRun(s);
        var y := CollapseSpaces(s[n..]);
        assert ([' '] + y)[0] == ' ' && ([' '] + y)[1..] == y;
        CollapseSpacesWords(s[n..]);
        assert s == s[..n] + s[n..];
        WordsSpacePrefix(s[..n], s[n..]);
      } else {
        var k := WordRun(s);
        var w, r := s[..k], s[k..];
        assert s == w + r;
        CollapseSpacesWord(w, r);
        var y := CollapseSpaces(r);
        assert y != [] ==> IsSpace(y[0]);
        WordRunAppend(w, y);
        assert (w + y)[0] == s[0];
        assert (w + y)[..k] == w && (w + y)[k..] == y;
        CollapseSpacesWords(r);
      }
    }
  }

  /** Text whose whitespace is already single spaces is left alone by the collapse. */
  lemma {:induction false} CollapseSpacesIdentity(s: string)
    requires SingleSpaced(s)
    ensures CollapseSpaces(s) == s
    decreases |s|
  {
    if s != [] {
      SingleSpacedTail(s);
      CollapseSpacesIdentity(s[1..]);
      if IsSpace(s[0]) {
        assert SpaceRun(s[1..]) == 0;
        assert CollapseSpaces(s) == [' '] + CollapseSpaces(s[1..]);
      } else {
        assert CollapseSpaces(s) == [s[0]] + CollapseSpaces(s[1..]);
      }
      assert s == [s[0]] + s[1..];
    }
  }

  lemma SingleSpacedTail(s: string)
    requires SingleSpaced(s) && s != []
    ensures SingleSpaced(s[1..])
    ensures IsSpace(s[0]) ==> s[0] == ' ' && (|s| == 1 || !IsSpace(s[1]))
  {
    var r := s[1..];
    forall k | 0 <= k < |r| - 1 && IsSpace(r[k]) ensures !IsSpace(r[k + 1]) {
      assert r[k] == s[k + 1] && r[k + 1] == s[k + 2];
    }
  }


  lemma {:induction false} RStripResult(s: string)
    ensures exists j :: 0 <= j <= |s| && RStrip(s) == s[..j] && AllSpace(s[j..])
    ensures RStrip(s) == [] || !IsSpace(RStrip(s)[|RStrip(s)| - 1])
    ensures s != [] && IsSpace(s[0]) ==> RStrip(s) == [] || IsSpace(RStrip(s)[0])
    ensures s == [] || !IsSpace(s[|s| - 1]) ==> RStrip(s) == s
    decreases |s|
  {
    if s != [] && IsSpace(s[|s| - 1]) {
      RStripResult(s[..|s| - 1]);
      var j :| 0 <= j <= |s| - 1 && RStrip(s[..|s| - 1]) == s[..|s| - 1][..j] && AllSpace(s[..|s| - 1][j..]);
      assert s[..|s| - 1][..j] == s[..j];
      assert s[j..] == s[..|s| - 1][j..] + [s[|s| - 1]];
    } else {
      assert s == s[..|s|];
      assert AllSpace(s[|s|..]);
    }
  }

  /**
   * `strip()` removes only whitespace, from the two ends: it returns a slice of
   * its input between an all-whitespace prefix and an all-whitespace suffix,
   * with no whitespace at either end, so every other character is kept in
   * order; trimmed text is returned unchanged.
   */
  lemma StripResult(s: string)
    ensures exists i, j :: 0 <= i <= j <= |s| && AllSpace(s[..i]) && AllSpace(s[j..]) && Strip(s) == s[i..j]
    ensures Trimmed(Strip(s))
    ensures NonSpace(Strip(s)) == NonSpace(s)
    ensures Trimmed(s) ==> Strip(s) == s
  {
    var n := SpaceRun(s);
    var t := s[n..];
    RStripResult(t);
    var j :| 0 <= j <= |t| && RStrip(t) == t[..j] && AllSpace(t[j..]);
    StripSlice(s, n, j);
    if Trimmed(s) && s != [] {
      assert n == 0 && t == s;
    }
  }

  /** The pieces of `strip()`: the leading run, the kept slice, the trailing run. */
  lemma StripSlice(s: string, n: nat, j: nat)
    requires n <= |s| && j <= |s| - n
    requires AllSpace(s[..n]) && AllSpace(s[n..][j..])
    ensures s[n..][..j] == s[n..n + j] && AllSpace(s[n + j..])
    ensures NonSpace(s[n..n + j]) == NonSpace(s)
  {
    var p, m, q := s[..n], s[n..n + j], s[n + j..];
    assert s[n..][..j] == m;
    assert s[n..][j..] == q;
    SplitThree(s, n, j);
    assert AllSpace(q);
    NonSpaceAppend(p, m + q);
    NonSpaceAppend(m, q);
    NonSpaceAppend(q, []);
    assert NonSpace(p) == [] && NonSpace(q) == [];
    calc {
      NonSpace(s);
      NonSpace(p) + NonSpace(m + q);
      NonSpace(m + q);
      NonSpace(m) + NonSpace(q);
      NonSpace(m);
    }
  }

  /** `s` cut at `n` and then at `n + j`, and put back together. */
  lemma SplitThree<T>(s: seq<T>, n: nat, j: nat)
    requires n <= |s| && j <= |s| - n
    ensures s == s[..n] + (s[n..][..j] + s[n..][j..])
  {
    assert s[n..] == s[n..][..j] + s[n..][j..];
    assert s == s[..n] + s[n..];
  }

  /** `strip()` keeps the words. */
  lemma StripWords(s: string)
    ensures Words(Strip(s)) == Words(s)
  {
    var n := SpaceRun(s);
    var t := s[n..];
    RStripResult(t);
    var j :| 0 <= j <= |t| && RStrip(t) == t[..j] && AllSpace(t[j..]);
    var p, m, q := s[..n], t[..j], t[j..];
    assert Strip(s) == m;
    SplitThree(s, n, j);
    calc {
      Words(m);
      { WordsSpaceSuffix(m, q); }
      Words(m + q);
      { WordsSpacePrefix(p, m + q); }
      Words(p + (m + q));
    }
  }

  /**
   * Trimmed, single-spaced text is its words joined by single spaces: such a
   * text is determined by its words.
   */
  lemma {:induction false} JoinWords(s: string)
    requires Trimmed(s) && SingleSpaced(s)
    ensures Join(Words(s)) == s
    decreases |s|
  {
    if s != [] {
      var k := WordRun(s);
      assert Words(s) == [s[..k]] + Words(s[k..]);
      if k < |s| {
        var r := JoinWordsStep(s);
        JoinWords(r);
        JoinCons(s[..k], Words(r));
        assert s == s[..k] + " " + r;
      } else {
        assert s[k..] == [] && s[..k] == s;
      }
    }
  }

  /**
   * In trimmed, single-spaced text a word that does not reach the end is
   * followed by one space and a trimmed, single-spaced rest with the same
   * words.
   */
  lemma JoinWordsStep(s: string) returns (r: string)
    requires Trimmed(s) && SingleSpaced(s) && s != [] && WordRun(s) < |s|
    ensures r == s[WordRun(s) + 1..] && s[WordRun(s)] == ' '
    ensures Trimmed(r) && SingleSpaced(r) && |r| < |s|
    ensures Words(s[WordRun(s)..]) == Words(r) && Words(r) != []
  {
    var k := WordRun(s);
    assert s[k] == ' ' && k < |s| - 1 && !IsSpace(s[k + 1]);
    r := s[k + 1..];
    SliceSingleSpaced(s, k + 1, |s|);
    assert r[0] == s[k + 1] && r[|r| - 1] == s[|s| - 1];
    assert s[k..] == [' '] + r;
    WordsSpacePrefix([' '], r);
  }

  lemma JoinCons(w: string, ws: seq<string>)
    requires ws != []
    ensures Join([w] + ws) == w + " " + Join(ws)
  {
    assert ([w] + ws)[0] == w && ([w] + ws)[1..] == ws;
  }

  lemma {:induction false} SliceSingleSpaced(s: string, i: int, j: int)
    requires 0 <= i <= j <= |s| && SingleSpaced(s)
    ensures SingleSpaced(s[i..j])
  {
    var r := s[i..j];
    forall k | 0 <= k < |r| - 1 && IsSpace(r[k])
      ensures !IsSpace(r[k + 1])
    {
      assert r[k] == s[i + k] && r[k + 1] == s[i + k + 1];
    }
  }

  // ---------------------------------------------------------------------------
  // The whole sanitiser

  /**
   * The cleaned comment has no backslash and no double quote, no whitespace
   * at either end, no two adjacent whitespace characters, whitespace only in
   * the form of ASCII spaces, and is no longer than the input. Only the
   * escape rewrites remove anything but whitespace: the non-whitespace
   * characters they leave survive in order, so a comment without backslashes
   * and double quotes keeps all of its non-whitespace characters.
   */
  lemma CleanEscapeCharactersResult(s: string)
    ensures var r := CleanEscapeCharacters(s);
      '\\' !in r && '"' !in r && Trimmed(r) && SingleSpaced(r) && |r| <= |s|
    ensures NonSpace(CleanEscapeCharacters(s)) == NonSpace(DropEscapes(s))
    ensures '\\' !in s && '"' !in s ==> NonSpace(CleanEscapeCharacters(s)) == NonSpace(s)
  {
    var d := DropEscapes(s);
    var c := CollapseSpaces(d);
    var r := Strip(c);
    DropEscapesResult(s);
    CollapseSpacesResult(d);
    StripResult(c);
    var i, j :| 0 <= i <= j <= |c| && AllSpace(c[..i]) && AllSpace(c[j..]) && r == c[i..j];
    SliceSingleSpaced(c, i, j);
    assert forall ch :: ch in r ==> ch in c;
    if '\\' !in s && '"' !in s {
      DropEscapesIdentity(s);
    }
  }

  /**
   * The cleaned comment is the words of the unescaped text joined by single
   * spaces: Python's `' '.join(text.split())` after the escape rewrites.
   */
  lemma CleanEscapeCharactersWords(s: string)
    ensures CleanEscapeCharacters(s) == Join(Words(DropEscapes(s)))
  {
    var d := DropEscapes(s);
    var c := CollapseSpaces(d);
    var r := Strip(c);
    CollapseSpacesResult(d);
    StripResult(c);
    var i, j :| 0 <= i <= j <= |c| && AllSpace(c[..i]) && AllSpace(c[j..]) && r == c[i..j];
    SliceSingleSpaced(c, i, j);
    calc {
      r;
      { JoinWords(r); }
      Join(Words(r));
      { StripWords(c); }
      Join(Words(c));
      { CollapseSpacesWords(d); }
      Join(Words(d));
    }
  }

  /** Cleaning a cleaned comment changes nothing. */
  lemma CleanEscapeCharactersIdempotent(s: string)
    ensures CleanEscapeCharacters(CleanEscapeCharacters(s)) == CleanEscapeCharacters(s)
  {
    var r := CleanEscapeCharacters(s);
    CleanEscapeCharactersResult(s);
    DropEscapesIdentity(r);
    CollapseSpacesIdentity(r);
    StripResult(r);
  }
}
