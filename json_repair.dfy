/**
 * `fix_trailing_commas` of analyzer.py: `re.sub(r',\s*]', ']', s)` followed by
 * `re.sub(r',\s*}', '}', s)`. Each `re.sub` scans left to right, replaces the
 * leftmost match and resumes after it, so matches never overlap.
 */
module JsonRepair {
  import opened Text

  /**
   * `,\s*` followed by `close` matches at the start of `s`. `\s*` is greedy and
   * no whitespace character is `close`, so the match exists exactly when the
   * longest whitespace run after the comma is followed by `close`.
   */
  predicate TrailingAt(s: string, close: char) {
    |s| >= 2 && s[0] == ',' && 1 + SpaceRun(s[1..]) < |s| && s[1 + SpaceRun(s[1..])] == close
  }

  /** Some position of `s` starts a match of `,\s*` followed by `close`. */
  predicate HasTrailing(s: string, close: char) {
    exists i :: 0 <= i < |s| && TrailingAt(s[i..], close)
  }

  /** `re.sub(r',\s*' + close, close, s)`. */
  function SubTrailing(s: string, close: char): (r: string)
    decreases |s|
  {
    if s == [] then []
    else if TrailingAt(s, close) then [close] + SubTrailing(s[2 + SpaceRun(s[1..])..], close)
    else [s[0]] + SubTrailing(s[1..], close)
  }

  /** `fix_trailing_commas(json_str)`. */
  function FixTrailingCommas(s: string): string {
    SubTrailing(SubTrailing(s, ']'), '}')
  }

  /** The characters the repair is allowed to remove. */
  predicate Deletable(c: char) {
    c == ',' || IsSpace(c)
  }

  /**
   * `r` is `s` with some commas and whitespace characters deleted: every other
   * character of `s` is kept, in order, and nothing is inserted.
   */
  predicate DeletesOnly(r: string, s: string)
    decreases |s|
  {
    if s == [] then r == []
    else
      (r != [] && r[0] == s[0] && DeletesOnly(r[1..], s[1..])) ||
      (Deletable(s[0]) && DeletesOnly(r, s[1..]))
  }

  /** The characters of `s` that are neither commas nor whitespace, in order. */
  function Kept(s: string): string {
    if s == [] then [] else (if Deletable(s[0]) then [] else [s[0]]) + Kept(s[1..])
  }

  lemma {:induction false} DeletesOnlyRefl(s: string)
    ensures DeletesOnly(s, s)
    decreases |s|
  {
    if s != [] {
      DeletesOnlyRefl(s[1..]);
    }
  }

  lemma {:induction false} DeletesOnlyPrefix(r: string, p: string, t: string)
    requires AllDeletable(p) && DeletesOnly(r, t)
    ensures DeletesOnly(r, p + t)
    decreases |p|
  {
    if p != [] {
      assert (p + t)[0] == p[0] && (p + t)[1..] == p[1..] + t;
      assert Deletable(p[0]);
      assert AllDeletable(p[1..]) by {
        forall i | 0 <= i < |p[1..]| ensures Deletable(p[1..][i]) {
          assert p[1..][i] == p[i + 1];
        }
      }
      DeletesOnlyPrefix(r, p[1..], t);
    } else {
      assert p + t == t;
    }
  }

  predicate AllDeletable(p: string) {
    forall i :: 0 <= i < |p| ==> Deletable(p[i])
  }

  /** Deleting commas and whitespace twice is deleting commas and whitespace once. */
  lemma {:induction false} DeletesOnlyTrans(a: string, b: string, c: string)
    requires DeletesOnly(a, b) && DeletesOnly(b, c)
    ensures DeletesOnly(a, c)
    decreases |c|
  {
    if c != [] {
      if Deletable(c[0]) && DeletesOnly(b, c[1..]) {
        DeletesOnlyTrans(a, b, c[1..]);
      } else {
        assert b != [] && b[0] == c[0] && DeletesOnly(b[1..], c[1..]);
        if a != [] && a[0] == b[0] && DeletesOnly(a[1..], b[1..]) {
          DeletesOnlyTrans(a[1..], b[1..], c[1..]);
        } else {
          DeletesOnlyTrans(a, b[1..], c[1..]);
        }
      }
    }
  }

  /** Deleting commas and whitespace keeps every other character, in order, and never lengthens. */
  lemma {:induction false} DeletesOnlyKept(r: string, s: string)
    requires DeletesOnly(r, s)
    ensures Kept(r) == Kept(s) && |r| <= |s|
    decreases |s|
  {
    if s != [] {
      if r != [] && r[0] == s[0] && DeletesOnly(r[1..], s[1..]) {
        DeletesOnlyKept(r[1..], s[1..]);
      } else {
        DeletesOnlyKept(r, s[1..]);
      }
    }
  }

  /** One `re.sub` pass only deletes commas and whitespace. */
  lemma {:induction false} SubTrailingDeletesOnly(s: string, close: char)
    ensures DeletesOnly(SubTrailing(s, close), s)
    decreases |s|
  {
    if s != [] {
      var r := SubTrailing(s, close);
      if TrailingAt(s, close) {
        var n := SpaceRun(s[1..]);
        var rest := s[2 + n..];
        SubTrailingDeletesOnly(rest, close);
        assert DeletesOnly(r, s[1 + n..]) by {
          assert s[1 + n..][0] == close && s[1 + n..][1..] == rest;
          assert r[1..] == SubTrailing(rest, close);
        }
        assert s[1..] == s[1..][..n] + s[1 + n..];
        DeletesOnlyPrefix(r, s[1..][..n], s[1 + n..]);
      } else {
        SubTrailingDeletesOnly(s[1..], close);
        assert r[1..] == SubTrailing(s[1..], close);
      }
    }
  }

  /**
   * The repair only deletes `,` and whitespace characters: every other
   * character survives, in order.
   */
  lemma FixTrailingCommasDeletesOnly(s: string)
    ensures DeletesOnly(FixTrailingCommas(s), s)
    ensures Kept(FixTrailingCommas(s)) == Kept(s)
  {
    SubTrailingDeletesOnly(s, ']');
    SubTrailingDeletesOnly(SubTrailing(s, ']'), '}');
    DeletesOnlyTrans(FixTrailingCommas(s), SubTrailing(s, ']'), s);
    DeletesOnlyKept(FixTrailingCommas(s), s);
  }

  /** A pass with a match shortens the text; a pass without one returns it unchanged. */
  lemma {:induction false} SubTrailingUnchanged(s: string, close: char)
    ensures SubTrailing(s, close) == s <==> !HasTrailing(s, close)
    decreases |s|
  {
    if s != [] {
      var r := SubTrailing(s, close);
      if TrailingAt(s, close) {
        var rest := s[2 + SpaceRun(s[1..])..];
        SubTrailingDeletesOnly(rest, close);
        DeletesOnlyKept(SubTrailing(rest, close), rest);
        assert |r| < |s|;
        assert TrailingAt(s[0..], close);
      } else {
        SubTrailingUnchanged(s[1..], close);
        assert r == [s[0]] + SubTrailing(s[1..], close);
        if HasTrailing(s, close) {
          var i :| 0 <= i < |s| && TrailingAt(s[i..], close);
          assert i > 0 && s[1..][i - 1..] == s[i..];
          assert HasTrailing(s[1..], close);
        } else {
          forall i | 0 <= i < |s[1..]|
            ensures !TrailingAt(s[1..][i..], close)
          {
            assert s[1..][i..] == s[i + 1..];
          }
        }
      }
    }
  }

  /**
   * The repair returns its input unchanged exactly when the input holds no
   * `,\s*]` and no `,\s*}`.
   */
  lemma FixTrailingCommasUnchanged(s: string)
    ensures FixTrailingCommas(s) == s <==> !HasTrailing(s, ']') && !HasTrailing(s, '}')
  {
    var s1 := SubTrailing(s, ']');
    SubTrailingUnchanged(s, ']');
    SubTrailingUnchanged(s1, '}');
    if s1 != s {
      SubTrailingDeletesOnly(s, ']');
      DeletesOnlyKept(s1, s);
      SubTrailingDeletesOnly(s1, '}');
      DeletesOnlyKept(FixTrailingCommas(s), s1);
      assert |s1| < |s| by {
        if |s1| == |s| {
          DeletesOnlySameLength(s1, s);
        }
      }
    }
  }

  lemma {:induction false} DeletesOnlySameLength(r: string, s: string)
    requires DeletesOnly(r, s) && |r| == |s|
    ensures r == s
    decreases |s|
  {
    if s != [] {
      if r != [] && r[0] == s[0] && DeletesOnly(r[1..], s[1..]) {
        DeletesOnlySameLength(r[1..], s[1..]);
      } else {
        DeletesOnlyKept(r, s[1..]);
      }
    }
  }

  /** A stretch without commas passes through a `re.sub` pass untouched. */
  lemma {:induction false} SubTrailingCommaFree(p: string, t: string, close: char)
    requires ',' !in p
    ensures SubTrailing(p + t, close) == p + SubTrailing(t, close)
    decreases |p|
  {
    if p != [] {
      assert (p + t)[0] == p[0] && (p + t)[1..] == p[1..] + t;
      SubTrailingCommaFree(p[1..], t, close);
    } else {
      assert p + t == t;
    }
  }

  /**
   * What a pass is for: the comma of a match is removed together with the
   * whitespace after it, the closing bracket is kept, and the scan goes on
   * after the bracket.
   */
  lemma SubTrailingRemovesComma(p: string, w: string, close: char, t: string)
    requires ',' !in p && AllSpace(w) && (close == ']' || close == '}')
    ensures SubTrailing(p + [','] + w + [close] + t, close) == p + [close] + SubTrailing(t, close)
  {
    var x := [','] + w + [close] + t;
    assert p + [','] + w + [close] + t == p + x;
    SubTrailingCommaFree(p, x, close);
    CommaTrailing(w, close, t);
  }

  /** A comma, whitespace and `close` are one match, replaced by `close`. */
  lemma CommaTrailing(w: string, close: char, t: string)
    requires AllSpace(w) && (close == ']' || close == '}')
    ensures SubTrailing([','] + w + [close] + t, close) == [close] + SubTrailing(t, close)
  {
    var x := [','] + w + [close] + t;
    assert x[1..] == w + ([close] + t);
    SpaceRunAppend(w, [close] + t);
    assert SpaceRun(w) == |w|;
    assert SpaceRun([close] + t) == 0;
    assert TrailingAt(x, close);
    assert x[2 + |w|..] == t;
  }


  /**
   * The repair removes a trailing comma before `]` or `}`, with its
   * whitespace, and repairs the rest of the text as if it stood alone.
   */
  lemma FixTrailingCommasRemovesComma(p: string, w: string, close: char, t: string)
    requires ',' !in p && AllSpace(w) && (close == ']' || close == '}')
    ensures FixTrailingCommas(p + [','] + w + [close] + t) == p + [close] + FixTrailingCommas(t)
  {
    var t1 := SubTrailing(t, ']');
    if close == ']' {
      SubTrailingRemovesComma(p, w, ']', t);
      SubTrailingCommaFree(p + [']'], t1, '}');
    } else {
      SubTrailingKeepsOtherClose(p, w, t);
      SubTrailingRemovesComma(p, w, '}', t1);
    }
  }

  /** The `]` pass leaves a comma before `}` alone. */
  lemma SubTrailingKeepsOtherClose(p: string, w: string, t: string)
    requires ',' !in p && AllSpace(w)
    ensures SubTrailing(p + [','] + w + ['}'] + t, ']') == p + [','] + w + ['}'] + SubTrailing(t, ']')
  {
    var x := [','] + w + ['}'] + t;
    assert p + [','] + w + ['}'] + t == p + x;
    SubTrailingCommaFree(p, x, ']');
    CommaBeforeBrace(w, t);
  }

  lemma CommaBeforeBrace(w: string, t: string)
    requires AllSpace(w)
    ensures SubTrailing([','] + w + ['}'] + t, ']') == [','] + w + ['}'] + SubTrailing(t, ']')
  {
    var x := [','] + w + ['}'] + t;
    BraceNotTrailing(w, t);
    assert x[1..] == (w + ['}']) + t;
    assert ',' !in w + ['}'];
    SubTrailingCommaFree(w + ['}'], t, ']');
  }

  /** After the comma and its whitespace comes `}`, so the `]` pattern does not match there. */
  lemma BraceNotTrailing(w: string, t: string)
    requires AllSpace(w)
    ensures !TrailingAt([','] + w + ['}'] + t, ']')
  {
    var x := [','] + w + ['}'] + t;
    assert x[1..] == w + (['}'] + t);
    SpaceRunAppend(w, ['}'] + t);
    assert SpaceRun(w) == |w| && SpaceRun(['}'] + t) == 0;
    assert x[1 + |w|] == '}';
  }


  // The worked example below is split into small steps: the verifier unfolds a
  // function applied to a string literal eagerly, which is costly on long literals.

  /** A comma that starts no match is kept, and what follows it is rewritten as if it stood alone. */
  lemma SubTrailingKeepsComma(t: string, close: char)
    requires !TrailingAt([','] + t, close)
    ensures SubTrailing([','] + t, close) == [','] + SubTrailing(t, close)
  {
    assert ([','] + t)[1..] == t;
  }

  /**
   * A comma that starts a match of neither `,\s*]` nor `,\s*}` survives both
   * passes, and what follows it is repaired as if it stood alone.
   */
  lemma FixTrailingCommasKeepsComma(t: string)
    requires !TrailingAt([','] + t, ']') && !TrailingAt([','] + t, '}')
    ensures FixTrailingCommas([','] + t) == [','] + FixTrailingCommas(t)
  {
    SubTrailingKeepsComma(t, ']');
    BraceStillAbsent(t);
    SubTrailingKeepsComma(SubTrailing(t, ']'), '}');
  }

  /** A stretch without commas passes through the repair untouched. */
  lemma FixTrailingCommasCommaFree(p: string, t: string)
    requires ',' !in p
    ensures FixTrailingCommas(p + t) == p + FixTrailingCommas(t)
  {
    SubTrailingCommaFree(p, t, ']');
    SubTrailingCommaFree(p, SubTrailing(t, ']'), '}');
  }

  /** A kept comma before a trailing one: `[1, 2,]` is repaired to `[1, 2]`. */
  lemma FixTrailingCommasListExample(s: string)
    requires s == "[1, 2,]"
    ensures FixTrailingCommas(s) == "[1, 2]"
  {
    var a, b := s[..2], s[3..];
    var c := b[..2];
    assert ',' !in a && ',' !in c && IsSpace(b[0]) && !IsSpace(b[1]);
    assert s == a + ([','] + b);
    assert b == c + [','] + [] + [']'] + [];
    FixTrailingCommasRemovesComma(c, [], ']', []);
    assert FixTrailingCommas([]) == [];
    assert SpaceRun(b) == 1;
    CommaThen(b, ']');
    CommaThen(b, '}');
    FixTrailingCommasKeepsComma(b);
    FixTrailingCommasCommaFree(a, [','] + b);
    assert a + ([','] + (c + [']'])) == "[1, 2]";
  }

  /** `TrailingAt` for a comma in front of `t`, in terms of `t`'s whitespace run. */
  lemma CommaThen(t: string, close: char)
    ensures TrailingAt([','] + t, close) <==> SpaceRun(t) < |t| && t[SpaceRun(t)] == close
  {
    assert ([','] + t)[1..] == t;
  }

  /** The `]` pass keeps `t`'s leading whitespace and does not put `}` right after it. */
  lemma BraceStillAbsent(t: string)
    requires !TrailingAt([','] + t, '}')
    ensures !TrailingAt([','] + SubTrailing(t, ']'), '}')
  {
    var n := SpaceRun(t);
    var w, rest := t[..n], t[n..];
    assert t == w + rest;
    assert ',' !in w by {
      assert forall k :: 0 <= k < |w| ==> IsSpace(w[k]);
    }
    SubTrailingCommaFree(w, rest, ']');
    var r := SubTrailing(rest, ']');
    CommaThen(t, '}');
    if rest != [] {
      assert !TrailingAt(rest, ']') ==> r == [rest[0]] + SubTrailing(rest[1..], ']');
      assert r[0] != '}' && !IsSpace(r[0]);
    }
    SpaceRunAppend(w, r);
    AllSpaceRun(w);
    CommaThen(w + r, '}');
  }

  lemma AllSpaceRun(w: string)
    requires AllSpace(w)
    ensures SpaceRun(w) == |w|
  {
  }

  /** A comma followed by a character that is neither whitespace, a comma nor `close` is kept. */
  lemma CommaKept(c: char, s: string, close: char)
    requires !IsSpace(c) && c != ',' && c != close
    ensures SubTrailing([',', c] + s, close) == [',', c] + SubTrailing(s, close)
  {
    var x := [',', c] + s;
    assert SpaceRun(x[1..]) == 0;
    assert !TrailingAt(x, close);
    assert x[1..] == [c] + s;
    SubTrailingCommaFree([c], s, close);
  }

  // The worked example is cut into named pieces. Each step is an instance of
  // `CommaKept` or of `SubTrailingRemovesComma` (with no text before the comma
  // and no whitespace after it).

  /** The `]` pass on the tail `,2,],}`: `,2` stays, `,]` becomes `]`, `,}` stays. */
  lemma ExampleBracketTail(s: string)
    requires s == ",2,],}"
    ensures SubTrailing(s, ']') == ",2],}"
  {
    var matched, kept := s[2..], s[4..];
    assert kept == [',', '}'] + [];
    assert matched == [] + [','] + [] + [']'] + kept;
    assert s == [',', '2'] + matched;
    CommaKept('}', [], ']');
    SubTrailingRemovesComma([], [], ']', kept);
    CommaKept('2', matched, ']');
    assert SubTrailing([], ']') == [];
    assert [',', '2'] + ([] + [']'] + (kept + [])) == ",2],}";
  }

  /** The `}` pass on the tail `,2],}`: `,2` stays, `]` stays, `,}` becomes `}`. */
  lemma ExampleBraceTail(s: string)
    requires s == ",2],}"
    ensures SubTrailing(s, '}') == ",2]}"
  {
    var rest := s[2..];
    assert rest == "]" + [','] + [] + ['}'] + [];
    assert s == [',', '2'] + rest;
    SubTrailingRemovesComma("]", [], '}', []);
    CommaKept('2', rest, '}');
    assert SubTrailing([], '}') == [];
    assert [',', '2'] + ("]" + ['}'] + []) == ",2]}";
  }

  lemma ExampleBracketPass(head: string, tail: string)
    requires head == "{\"a\": [1" && tail == ",2,],}"
    ensures SubTrailing(head + tail, ']') == head + ",2],}"
  {
    ExampleBracketTail(tail);
    SubTrailingCommaFree(head, tail, ']');
  }

  lemma ExampleBracePass(head: string, tail: string)
    requires head == "{\"a\": [1" && tail == ",2],}"
    ensures SubTrailing(head + tail, '}') == head + ",2]}"
  {
    ExampleBraceTail(tail);
    SubTrailingCommaFree(head, tail, '}');
  }

  /** The worked example: both trailing commas of `{"a": [1,2,],}` are removed. */
  lemma FixTrailingCommasExample(s: string)
    requires s == "{\"a\": [1,2,],}"
    ensures FixTrailingCommas(s) == "{\"a\": [1,2]}"
  {
    var head, tail := s[..8], s[8..];
    assert head == "{\"a\": [1" && tail == ",2,],}";
    assert s == head + tail;
    ExampleBracketPass(head, tail);
    ExampleBracePass(head, ",2],}");
    assert head + ",2]}" == "{\"a\": [1,2]}";
  }



  /**
   * The repair is not idempotent: `,,]` loses one comma per application, so a
   * second application (as `append_result_to_json` does) can change the text again.
   */
  lemma FixTrailingCommasNotIdempotent()
    ensures FixTrailingCommas(",,]") == ",]"
    ensures FixTrailingCommas(",]") == "]"
  {
    assert !TrailingAt(",,]", ']');
    assert TrailingAt(",]", ']');
  }
}
