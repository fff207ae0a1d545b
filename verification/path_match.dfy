/** The path field of a split-mode Ingress: OpenAPI path variables are turned
    into a capturing pattern, the path is appended to the base path, and one
    pass of `strings.ReplaceAll(s, "//", "/")` runs over the result. */
module PathMatch {
  import Text
  import Seqs

  /** The text every path variable is replaced by. */
  const Wildcard: string := "([A-z0-9]+)"

  /** The character class `[A-z]`: 'A' through 'z', which also takes in
      `[`, `\`, `]`, `^`, `_` and the backtick, but not `{` or `}`. */
  predicate InVarRange(c: char) {
    'A' <= c <= 'z'
  }

  /** A complete match of the expression `{[A-z]+}`. */
  predicate IsVar(t: string) {
    && |t| >= 3
    && t[0] == '{'
    && t[|t| - 1] == '}'
    && forall k :: 1 <= k < |t| - 1 ==> InVarRange(t[k])
  }

  /** Length of the longest prefix of `s` drawn from `[A-z]`. */
  function RunLen(s: string): (n: nat)
    ensures n <= |s|
    ensures forall k :: 0 <= k < n ==> InVarRange(s[k])
    ensures n < |s| ==> !InVarRange(s[n])
    decreases |s|
  {
    if |s| > 0 && InVarRange(s[0]) then 1 + RunLen(s[1..]) else 0
  }

  /** Length of the match of `{[A-z]+}` at the front of `s`, 0 when there is
      none. The match at a position is unique because `}` is not in `[A-z]`. */
  function MatchLen(s: string): (n: nat)
    ensures n <= |s|
    ensures n > 0 ==> IsVar(s[..n])
  {
    if |s| > 0 && s[0] == '{' then
      var k := RunLen(s[1..]);
      if k > 0 && k + 1 < |s| && s[k + 1] == '}' then
        var t := s[..k + 2];
        assert forall j :: 1 <= j < k + 1 ==> t[j] == s[1..][j - 1];
        k + 2
      else 0
    else 0
  }

  /** Every match at the front of `s` has the length `MatchLen` reports, so
      `MatchLen` is 0 exactly when no match starts there. */
  lemma MatchLenIsTheMatch(s: string, m: nat)
    requires m <= |s| && IsVar(s[..m])
    ensures m == MatchLen(s)
  {
    var k := RunLen(s[1..]);
    assert s[..m][m - 1] == s[1..][m - 2];
  }

  /** `MatchString`: some match of `{[A-z]+}` occurs in `s`. */
  predicate ContainsVar(s: string)
    ensures ContainsVar(s) ==> '{' in s && '}' in s
    decreases |s|
  {
    |s| > 0 && (MatchLen(s) > 0 || ContainsVar(s[1..]))
  }

  /** `ContainsVar` holds exactly when some substring is a match. */
  lemma {:induction false} ContainsVarIffSubstring(s: string)
    ensures ContainsVar(s) <==> exists i, j :: 0 <= i <= j <= |s| && IsVar(s[i..j])
    decreases |s|
  {
    if |s| > 0 {
      ContainsVarIffSubstring(s[1..]);
      if ContainsVar(s) {
        if MatchLen(s) > 0 {
          var n := MatchLen(s);
          assert s[0..n] == s[..n];
        } else {
          var i, j :| 0 <= i <= j <= |s[1..]| && IsVar(s[1..][i..j]);
          assert s[1..][i..j] == s[i + 1..j + 1];
        }
      }
      forall i, j | 0 <= i <= j <= |s| && IsVar(s[i..j])
        ensures ContainsVar(s)
      {
        if i == 0 {
          assert s[..j] == s[i..j];
          MatchLenIsTheMatch(s, j);
        } else {
          assert s[1..][i - 1..j - 1] == s[i..j];
        }
      }
    }
  }

  /** `ReplaceAll` of the path-variable expression by `Wildcard`: scanning left
      to right, every match is replaced and the scan resumes after it. */
  function ReplaceVars(s: string): (r: string)
    ensures !ContainsVar(s) ==> r == s
    decreases |s|
  {
    if |s| == 0 then ""
    else
      var n := MatchLen(s);
      if n > 0 then Wildcard + ReplaceVars(s[n..])
      else
        assert s == [s[0]] + s[1..];
        [s[0]] + ReplaceVars(s[1..])
  }

  /** A prefix without `{` cannot contribute to a match. */
  lemma {:induction false} ContainsVarSkipsBraceFree(a: string, b: string)
    requires '{' !in a
    ensures ContainsVar(a + b) == ContainsVar(b)
    decreases |a|
  {
    if |a| > 0 {
      assert (a + b)[1..] == a[1..] + b;
      ContainsVarSkipsBraceFree(a[1..], b);
    } else {
      assert a + b == b;
    }
  }

  lemma {:induction false} RunLenAppend(a: string, b: string)
    requires forall k :: 0 <= k < |a| ==> InVarRange(a[k])
    ensures RunLen(a + b) == |a| + RunLen(b)
    decreases |a|
  {
    if |a| > 0 {
      assert (a + b)[1..] == a[1..] + b;
      RunLenAppend(a[1..], b);
    } else {
      assert a + b == b;
    }
  }

  /** A run of `[A-z]` characters is copied unchanged by the replacement. */
  lemma {:induction false} ReplaceVarsCopiesRun(s: string)
    ensures var k := RunLen(s); ReplaceVars(s) == s[..k] + ReplaceVars(s[k..])
    decreases |s|
  {
    var k := RunLen(s);
    if k > 0 {
      var t := s[1..];
      assert RunLen(t) == k - 1;
      assert MatchLen(s) == 0;
      ReplaceVarsNoMatch(s);
      ReplaceVarsCopiesRun(t);
      SliceAfterFront(s, k);
    } else {
      assert s[..0] + s[0..] == s;
    }
  }

  /** The replacement never turns text into a new match: afterwards no
      `{[A-z]+}` is left. */
  lemma {:induction false} NoVarAfterReplace(s: string)
    ensures !ContainsVar(ReplaceVars(s))
    decreases |s|
  {
    if |s| > 0 {
      var n := MatchLen(s);
      if n > 0 {
        NoVarAfterReplace(s[n..]);
        ContainsVarSkipsBraceFree(Wildcard, ReplaceVars(s[n..]));
      } else {
        var rest := ReplaceVars(s[1..]);
        NoVarAfterReplace(s[1..]);
        if s[0] != '{' {
          ContainsVarSkipsBraceFree([s[0]], rest);
        } else {
          NoMatchAfterUnmatchedBrace(s);
        }
      }
    }
  }

  /** A `{` that starts no match does not start one after the rest of the
      string is replaced. */
  lemma NoMatchAfterUnmatchedBrace(s: string)
    requires |s| > 0 && s[0] == '{' && MatchLen(s) == 0
    ensures MatchLen([s[0]] + ReplaceVars(s[1..])) == 0
  {
    var rest := ReplaceVars(s[1..]);
    var r := [s[0]] + rest;
    var t := s[1..];
    var k := RunLen(t);
    ReplaceVarsCopiesRun(t);
    var tail := ReplaceVars(t[k..]);
    assert rest == t[..k] + tail;
    RunLenAppend(t[..k], tail);
    assert r[1..] == rest;
    if |t[k..]| > 0 {
      assert tail[0] == t[k] || tail[0] == '(';
      assert RunLen(tail) == 0;
    }
  }

  /** A match that starts before a `{` ends before it: `{` is neither in
      `[A-z]` nor the closing `}`. */
  lemma MatchStopsAtBrace(a: string, rest: string, m: nat)
    requires |a| > 0 && |rest| > 0 && rest[0] == '{'
    requires m <= |a + rest| && IsVar((a + rest)[..m])
    ensures m <= |a| && IsVar(a[..m])
  {
    var s := a + rest;
    var t := s[..m];
    assert s[|a|] == '{';
    assert forall k :: 0 <= k < m ==> t[k] == s[k];
    assert m <= |a|;
    assert t == a[..m];
  }

  /** The match at the front of `a + rest` is the match at the front of `a`
      when `rest` starts with `{`. */
  lemma MatchLenBeforeBrace(a: string, rest: string)
    requires |a| > 0 && |rest| > 0 && rest[0] == '{'
    ensures MatchLen(a + rest) > 0 ==> MatchLen(a) == MatchLen(a + rest)
  {
    var m := MatchLen(a + rest);
    if m > 0 {
      MatchStopsAtBrace(a, rest, m);
      MatchLenIsTheMatch(a, m);
    }
  }

  /** Every variable becomes `Wildcard`: the text before the first variable
      is copied, the variable is replaced, and the scan resumes after it.
      With the unchanged-when-absent clause of `ReplaceVars` this determines
      the result for every path. */
  lemma {:induction false} ReplaceVarsAtFirst(a: string, v: string, b: string)
    requires !ContainsVar(a) && IsVar(v)
    ensures ReplaceVars(a + (v + b)) == a + (Wildcard + ReplaceVars(b))
    decreases |a|
  {
    if |a| == 0 {
      ReplaceVarsAtVar(v, b);
      assert a + (v + b) == v + b;
      assert a + (Wildcard + ReplaceVars(b)) == Wildcard + ReplaceVars(b);
    } else {
      NoMatchBeforeBrace(a, v + b);
      ReplaceVarsAtFirst(a[1..], v, b);
      FrontAndRest(a, v + b);
      ReplaceVarsNoMatch(a + (v + b));
      Text.ConsFront(a, Wildcard + ReplaceVars(b));
    }
  }

  lemma SliceAfterFront(s: string, k: nat)
    requires 0 < k <= |s|
    ensures s[1..][k - 1..] == s[k..] && [s[0]] + s[1..][..k - 1] == s[..k]
  {
  }

  lemma FrontAndRest(a: string, tail: string)
    requires |a| > 0
    ensures (a + tail)[0] == a[0] && (a + tail)[1..] == a[1..] + tail
  {
  }

  /** A variable at the front is replaced and the scan resumes after it. */
  lemma ReplaceVarsAtVar(v: string, b: string)
    requires IsVar(v)
    ensures ReplaceVars(v + b) == Wildcard + ReplaceVars(b)
  {
    var s := v + b;
    assert s[..|v|] == v;
    MatchLenIsTheMatch(s, |v|);
    assert s[|v|..] == b;
  }

  /** Before a `{`, text without a match starts no match either. */
  lemma NoMatchBeforeBrace(a: string, rest: string)
    requires |a| > 0 && !ContainsVar(a)
    requires |rest| > 0 && rest[0] == '{'
    ensures MatchLen(a + rest) == 0 && !ContainsVar(a[1..])
  {
    assert MatchLen(a) == 0;
    MatchLenBeforeBrace(a, rest);
  }

  /** Where no match starts, the first character is copied. */
  lemma ReplaceVarsNoMatch(s: string)
    requires |s| > 0 && MatchLen(s) == 0
    ensures ReplaceVars(s) == [s[0]] + ReplaceVars(s[1..])
  {
  }

  /** The single `strings.ReplaceAll(s, "//", "/")` pass. */
  function Collapse(s: string): (r: string)
    ensures |r| <= |s|
    ensures !Text.Occurs("//", s) ==> r == s
  {
    Text.ReplaceAll(s, "//", "/")
  }

  /** The pass writes `/` for the first `//` and carries on after it. With
      the unchanged-when-absent clause of `Collapse` this determines the
      result for every string. */
  lemma CollapseAtFirst(a: string, b: string)
    requires forall i :: 0 <= i < |a| ==> !("//" <= (a + ("//" + b))[i..])
    ensures Collapse(a + ("//" + b)) == a + ("/" + Collapse(b))
  {
    Text.ReplaceAllAtFirst(a, "//", "/", b);
  }

  predicate StartsDoubleSlash(s: string) {
    |s| >= 2 && s[0] == '/' && s[1] == '/'
  }

  lemma DoubleSlashPrefix(s: string)
    ensures "//" <= s <==> StartsDoubleSlash(s)
    ensures "///" <= s <==> StartsDoubleSlash(s) && |s| >= 3 && s[2] == '/'
  {
  }

  /** Collapsing keeps the first character. */
  lemma CollapseFirst(s: string)
    requires |s| > 0
    ensures |Collapse(s)| > 0 && Collapse(s)[0] == s[0]
  {
    DoubleSlashPrefix(s);
  }

  /** A string without three slashes in a row has no `//` after the pass. */
  lemma {:induction false} CollapseRemovesDoubles(s: string)
    ensures !Text.Occurs("///", s) ==> !Text.Occurs("//", Collapse(s))
    decreases |s|
  {
    if !Text.Occurs("///", s) {
      DoubleSlashPrefix(s);
      if |s| > 0 {
        var r := Collapse(s);
        if StartsDoubleSlash(s) {
          var rest := s[2..];
          assert !Text.Occurs("///", s[1..]);
          assert s[1..][1..] == rest;
          CollapseRemovesDoubles(rest);
          assert r == "/" + Collapse(rest);
          DoubleSlashPrefix(r);
          if |rest| > 0 {
            CollapseFirst(rest);
          }
          assert r[1..] == Collapse(rest);
        } else {
          CollapseRemovesDoubles(s[1..]);
          assert r == [s[0]] + Collapse(s[1..]);
          DoubleSlashPrefix(r);
          if |s| > 1 {
            CollapseFirst(s[1..]);
          }
          assert r[1..] == Collapse(s[1..]);
        }
      }
    }
  }

  predicate NotSlash(c: char) {
    c != '/'
  }

  /** Collapsing removes nothing but slashes. */
  lemma {:induction false} CollapseKeepsOtherChars(s: string)
    ensures Seqs.Filter(NotSlash, Collapse(s)) == Seqs.Filter(NotSlash, s)
    decreases |s|
  {
    DoubleSlashPrefix(s);
    if |s| > 0 {
      if StartsDoubleSlash(s) {
        CollapseKeepsOtherChars(s[2..]);
        assert ("/" + Collapse(s[2..]))[1..] == Collapse(s[2..]);
        assert s[1..][1..] == s[2..];
      } else {
        CollapseKeepsOtherChars(s[1..]);
        assert ([s[0]] + Collapse(s[1..]))[1..] == Collapse(s[1..]);
      }
    }
  }

  /** The path field before collapsing. */
  function RawPathField(base: string, path: string): (r: string)
    ensures base <= r && !ContainsVar(r[|base|..])
    ensures ContainsVar(path) ==> r == base + ReplaceVars(path)
  {
    if ContainsVar(path) then
      NoVarAfterReplace(path);
      assert (base + ReplaceVars(path))[|base|..] == ReplaceVars(path);
      base + ReplaceVars(path)
    else if path == "/" then
      assert (base + "$")[|base|..] == "$";
      base + "$"
    else
      assert (base + path)[|base|..] == path;
      base + path
  }

  /** The variable test is redundant: the replacement leaves a path without
      variables alone, so every path other than "/" gets `base + ReplaceVars(path)`. */
  lemma RawPathFieldUniform(base: string, path: string)
    ensures RawPathField(base, path) == base + (if path == "/" then "$" else ReplaceVars(path))
  {
    if path == "/" {
      assert !ContainsVar("/"[1..]);
      assert !ContainsVar(path);
    }
  }

  /** The path field of a split-mode Ingress. */
  function PathField(base: string, path: string): (r: string)
    ensures r == Collapse(RawPathField(base, path))
    ensures |r| <= |RawPathField(base, path)|
    ensures !Text.Occurs("///", RawPathField(base, path)) ==> !Text.Occurs("//", r)
  {
    var raw := RawPathField(base, path);
    CollapseRemovesDoubles(raw);
    Collapse(raw)
  }
}
