/**
 * Character classes shared by the regular-expression rewrites of analyzer.py.
 */
module Text {

  /**
   * Python's `str.isspace()`, which is also the `\s` class of a `str` regular
   * expression and the set that `str.strip()` removes: the ASCII controls
   * TAB..CR, the separators 0x1C..0x1F, SPACE, NEL, NBSP and the Unicode
   * space separators.
   */
  predicate IsSpace(c: char) {
    c == ' ' || '\t' <= c <= '\r' || '\U{1C}' <= c <= '\U{1F}'
    || c == '\U{85}' || c == '\U{A0}' || c == '\U{1680}'
    || '\U{2000}' <= c <= '\U{200A}' || c == '\U{2028}' || c == '\U{2029}'
    || c == '\U{202F}' || c == '\U{205F}' || c == '\U{3000}'
  }

  /** Every character of `s` is whitespace. */
  predicate AllSpace(s: string) {
    forall i :: 0 <= i < |s| ==> IsSpace(s[i])
  }

  /**
   * Length of the longest whitespace prefix of `s`: what a greedy `\s*` or
   * `\s+` consumes at the start of `s`.
   */
  function SpaceRun(s: string): (n: nat)
    ensures n <= |s|
    ensures AllSpace(s[..n])
    ensures n < |s| ==> !IsSpace(s[n])
  {
    if s == [] || !IsSpace(s[0]) then 0 else 1 + SpaceRun(s[1..])
  }

  /** `s` with its whitespace characters dropped: the text a whitespace rewrite must keep. */
  function NonSpace(s: string): string {
    if s == [] then [] else (if IsSpace(s[0]) then [] else [s[0]]) + NonSpace(s[1..])
  }

  /** Dropping whitespace distributes over concatenation; whitespace alone drops to nothing. */
  lemma {:induction false} NonSpaceAppend(a: string, b: string)
    ensures NonSpace(a + b) == NonSpace(a) + NonSpace(b)
    ensures AllSpace(a) ==> NonSpace(a) == []
    decreases |a|
  {
    if a != [] {
      assert (a + b)[0] == a[0] && (a + b)[1..] == a[1..] + b;
      assert AllSpace(a) ==> AllSpace(a[1..]);
      NonSpaceAppend(a[1..], b);
    } else {
      assert a + b == b;
    }
  }

  /** The greedy run of a concatenation: it crosses into `b` only when all of `a` is whitespace. */
  lemma {:induction false} SpaceRunAppend(a: string, b: string)
    ensures SpaceRun(a + b) == if SpaceRun(a) < |a| then SpaceRun(a) else |a| + SpaceRun(b)
    decreases |a|
  {
    if a != [] {
      assert (a + b)[0] == a[0] && (a + b)[1..] == a[1..] + b;
      if IsSpace(a[0]) {
        SpaceRunAppend(a[1..], b);
      }
    } else {
      assert a + b == b;
    }
  }

  /** No character of `s` is whitespace. */
  predicate NoSpace(s: string) {
    forall i :: 0 <= i < |s| ==> !IsSpace(s[i])
  }

  /** Length of the longest prefix of `s` without whitespace: the word `s` starts with. */
  function WordRun(s: string): (n: nat)
    ensures n <= |s|
    ensures NoSpace(s[..n])
    ensures n < |s| ==> IsSpace(s[n])
  {
    if s == [] || IsSpace(s[0]) then 0 else 1 + WordRun(s[1..])
  }

  /** The word run of a concatenation: it crosses into `b` only when `a` has no whitespace. */
  lemma {:induction false} WordRunAppend(a: string, b: string)
    ensures WordRun(a + b) == if WordRun(a) < |a| then WordRun(a) else |a| + WordRun(b)
    decreases |a|
  {
    if a != [] {
      assert (a + b)[0] == a[0] && (a + b)[1..] == a[1..] + b;
      if !IsSpace(a[0]) {
        WordRunAppend(a[1..], b);
      }
    } else {
      assert a + b == b;
    }
  }

  /**
   * Python's `s.split()` with no separator: the maximal runs of
   * non-whitespace characters of `s`, in order.
   */
  function Words(s: string): (ws: seq<string>)
    ensures forall i :: 0 <= i < |ws| ==> ws[i] != [] && NoSpace(ws[i])
    decreases |s|
  {
    if s == [] then []
    else if IsSpace(s[0]) then Words(s[1..])
    else [s[..WordRun(s)]] + Words(s[WordRun(s)..])
  }

  /** Python's `' '.join(ws)`. */
  function Join(ws: seq<string>): string {
    if ws == [] then [] else if |ws| == 1 then ws[0] else ws[0] + " " + Join(ws[1..])
  }

  /** Leading whitespace does not change the words. */
  lemma {:induction false} WordsSpacePrefix(p: string, x: string)
    requires AllSpace(p)
    ensures Words(p + x) == Words(x)
    decreases |p|
  {
    if p != [] {
      assert (p + x)[0] == p[0] && (p + x)[1..] == p[1..] + x;
      assert IsSpace(p[0]) && AllSpace(p[1..]);
      WordsSpacePrefix(p[1..], x);
    } else {
      assert p + x == x;
    }
  }

  /** Trailing whitespace does not change the words. */
  lemma {:induction false} WordsSpaceSuffix(m: string, q: string)
    requires AllSpace(q)
    ensures Words(m + q) == Words(m)
    decreases |m|
  {
    if m == [] {
      assert m + q == q + [];
      WordsSpacePrefix(q, []);
    } else {
      assert (m + q)[0] == m[0];
      if IsSpace(m[0]) {
        assert (m + q)[1..] == m[1..] + q;
        WordsSpaceSuffix(m[1..], q);
      } else {
        var k := WordRun(m);
        WordRunAppend(m, q);
        assert q != [] ==> IsSpace(q[0]);
        assert WordRun(m + q) == k;
        assert (m + q)[..k] == m[..k];
        assert (m + q)[k..] == m[k..] + q;
        WordsSpaceSuffix(m[k..], q);
      }
    }
  }
}
