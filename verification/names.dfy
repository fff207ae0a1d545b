/** `ingressResourceNameFromPath`: the name fragment derived from an OpenAPI
    path template. */
module Names {
  import Text
  import Seqs

  predicate NonEmpty(seg: string) {
    seg != ""
  }

  /** The non-empty `/`-separated segments of a path. */
  function Segments(path: string): (segs: seq<string>)
    ensures forall seg :: seg in segs ==> seg != "" && '/' !in seg
    ensures forall seg :: seg in segs <==> seg in Text.Split(path, '/') && seg != ""
  {
    Seqs.Filter(NonEmpty, Text.Split(path, '/'))
  }

  /** Removes the curly braces of a path-variable segment: two `ReplaceAll`
      passes, first `{` then `}`. */
  function StripBraces(seg: string): (r: string)
    ensures forall c :: c in r <==> c in seg && c != '{' && c != '}'
  {
    Text.DeleteChar(seg, '{');
    Text.DeleteChar(Text.ReplaceAll(seg, "{", ""), '}');
    Text.ReplaceAll(Text.ReplaceAll(seg, "{", ""), "}", "")
  }

  predicate NotBrace(c: char) {
    c != '{' && c != '}'
  }

  /** Two single-character filters in a row keep what neither removes. */
  lemma {:induction false} FilterBracesTwice(s: string)
    ensures Seqs.Filter(Text.Without('}'), Seqs.Filter(Text.Without('{'), s)) == Seqs.Filter(NotBrace, s)
    decreases |s|
  {
    if |s| > 0 {
      FilterBracesTwice(s[1..]);
      var f := Seqs.Filter(Text.Without('{'), s);
      if s[0] == '{' {
        assert f == Seqs.Filter(Text.Without('{'), s[1..]);
      } else {
        assert f == [s[0]] + Seqs.Filter(Text.Without('{'), s[1..]);
        assert f[1..] == Seqs.Filter(Text.Without('{'), s[1..]);
      }
    }
  }

  /** Stripping braces removes every `{` and `}` and keeps the other
      characters of the segment in their order and number. */
  lemma StripBracesIsFilter(seg: string)
    ensures StripBraces(seg) == Seqs.Filter(NotBrace, seg)
  {
    Text.DeleteChar(seg, '{');
    Text.DeleteChar(Text.ReplaceAll(seg, "{", ""), '}');
    assert "{" == ['{'] && "}" == ['}'];
    FilterBracesTwice(seg);
  }

  /** The builder loop: every stripped segment followed by `-`. */
  function AppendHyphens(segs: seq<string>): (r: string)
    ensures '{' !in r && '}' !in r
    ensures (forall i :: 0 <= i < |segs| ==> '/' !in segs[i]) ==> '/' !in r
    ensures |segs| > 0 ==> |r| > 0 && r[|r| - 1] == '-'
    decreases |segs|
  {
    if |segs| == 0 then ""
    else
      assert forall i :: 1 <= i < |segs| ==> segs[1..][i - 1] == segs[i];
      StripBraces(segs[0]) + "-" + AppendHyphens(segs[1..])
  }

  /** The name fragment for `path`: "root" for "" and "/", otherwise the
      lower-cased stripped segments joined by hyphens (built by appending `-`
      after every segment and trimming one trailing `-`). */
  function DeriveName(path: string): (r: string)
    ensures path == "" || path == "/" ==> r == "root"
    ensures '/' !in r && '{' !in r && '}' !in r
    ensures forall i :: 0 <= i < |r| ==> !Text.IsUpperAscii(r[i])
  {
    if |path| == 0 || path == "/" then "root"
    else
      var segs := Segments(path);
      var built := AppendHyphens(segs);
      var trimmed := Text.TrimSuffix(built, "-");
      assert forall c :: c in trimmed ==> c in built by {
        forall c | c in trimmed
          ensures c in built
        {
          var k :| 0 <= k < |trimmed| && trimmed[k] == c;
          assert built[k] == c;
        }
      }
      NoSeparatorsInLower(trimmed);
      Text.ToLowerAscii(trimmed)
  }

  /** Lower-casing keeps `/`, `{` and `}` out. */
  lemma NoSeparatorsInLower(s: string)
    requires '/' !in s && '{' !in s && '}' !in s
    ensures var r := Text.ToLowerAscii(s); '/' !in r && '{' !in r && '}' !in r
  {
    var r := Text.ToLowerAscii(s);
    forall i | 0 <= i < |r|
      ensures r[i] != '/' && r[i] != '{' && r[i] != '}'
    {
      assert s[i] != '/' && s[i] != '{' && s[i] != '}';
    }
  }

  /** Appending `-` after every piece and trimming the last `-` is joining with
      `-`. */
  lemma {:induction false} AppendThenTrimIsJoin(segs: seq<string>)
    ensures Text.TrimSuffix(AppendHyphens(segs), "-") == Text.Join(Seqs.Map(StripBraces, segs), '-')
    decreases |segs|
  {
    var parts := Seqs.Map(StripBraces, segs);
    if |segs| == 1 {
      assert AppendHyphens(segs) == StripBraces(segs[0]) + "-";
    } else if |segs| > 1 {
      AppendThenTrimIsJoin(segs[1..]);
      var rest := AppendHyphens(segs[1..]);
      assert parts[1..] == Seqs.Map(StripBraces, segs[1..]);
      assert Text.TrimSuffix(rest, "-") + "-" == rest;
      assert Text.TrimSuffix(AppendHyphens(segs), "-") == StripBraces(segs[0]) + "-" + Text.TrimSuffix(rest, "-");
    }
  }

  /** Reference definition of the name: the path is neither "" nor "/", and the
      name is the ASCII lower-case of its stripped non-empty segments joined by
      `-`. */
  lemma DeriveNameIsJoin(path: string)
    requires path != "" && path != "/"
    ensures DeriveName(path) == Text.ToLowerAscii(Text.Join(Seqs.Map(StripBraces, Segments(path)), '-'))
  {
    AppendThenTrimIsJoin(Segments(path));
  }
}
