/** The parts of Go's `strings` package and of Go's string ordering that the
    generator relies on, over `string` (a sequence of characters). */
module Text {
  import Seqs

  /** True when `pat` occurs somewhere inside `s`. */
  predicate Occurs(pat: string, s: string)
    decreases |s|
  {
    pat <= s || (|s| > 0 && Occurs(pat, s[1..]))
  }

  /** `strings.ReplaceAll`: one left-to-right pass replacing non-overlapping
      occurrences of `pat` by `rep`; an empty `pat` inserts `rep` before every
      character and at the end. */
  function ReplaceAll(s: string, pat: string, rep: string): (r: string)
    ensures 0 < |pat| && |rep| <= |pat| ==> |r| <= |s|
    ensures 0 < |pat| && !Occurs(pat, s) ==> r == s
    decreases |s|
  {
    if |pat| == 0 then
      if |s| == 0 then rep else rep + [s[0]] + ReplaceAll(s[1..], pat, rep)
    else if |s| == 0 then ""
    else if pat <= s then rep + ReplaceAll(s[|pat|..], pat, rep)
    else [s[0]] + ReplaceAll(s[1..], pat, rep)
  }

  /** For a non-empty pattern, the pass copies the text before the first
      occurrence, writes `rep` for the occurrence, and carries on after it.
      With the unchanged-when-absent clause of `ReplaceAll` this determines
      the result for every non-empty pattern. */
  lemma {:induction false} ReplaceAllAtFirst(a: string, pat: string, rep: string, b: string)
    requires |pat| > 0
    requires forall i :: 0 <= i < |a| ==> !(pat <= (a + (pat + b))[i..])
    ensures ReplaceAll(a + (pat + b), pat, rep) == a + (rep + ReplaceAll(b, pat, rep))
    decreases |a|
  {
    if |a| == 0 {
      PatternAtFront(pat, b);
      assert a + (pat + b) == pat + b;
      assert a + (rep + ReplaceAll(b, pat, rep)) == rep + ReplaceAll(b, pat, rep);
    } else {
      NoOccurrenceAtFront(a, pat + b, pat);
      ReplaceAllAtFirst(a[1..], pat, rep, b);
      ReplaceAllCopiesFront(a + (pat + b), pat, rep);
      ConsFront(a, rep + ReplaceAll(b, pat, rep));
    }
  }

  lemma PatternAtFront(pat: string, b: string)
    ensures pat <= pat + b && (pat + b)[|pat|..] == b
  {
  }

  /** The conditions of `ReplaceAllAtFirst` carry over to the rest of `a`. */
  lemma NoOccurrenceAtFront(a: string, tail: string, pat: string)
    requires |a| > 0
    requires forall i :: 0 <= i < |a| ==> !(pat <= (a + tail)[i..])
    ensures !(pat <= a + tail)
    ensures (a + tail)[0] == a[0] && (a + tail)[1..] == a[1..] + tail
    ensures forall i :: 0 <= i < |a[1..]| ==> !(pat <= (a[1..] + tail)[i..])
  {
    assert (a + tail)[0..] == a + tail;
    forall i | 0 <= i < |a[1..]|
      ensures !(pat <= (a[1..] + tail)[i..])
    {
      assert (a[1..] + tail)[i..] == (a + tail)[i + 1..];
    }
  }

  /** Where the pattern does not start, the first character is copied. */
  lemma ReplaceAllCopiesFront(s: string, pat: string, rep: string)
    requires |pat| > 0 && |s| > 0 && !(pat <= s)
    ensures ReplaceAll(s, pat, rep) == [s[0]] + ReplaceAll(s[1..], pat, rep)
  {
  }

  lemma ConsFront(a: string, tail: string)
    requires |a| > 0
    ensures [a[0]] + (a[1..] + tail) == a + tail
  {
    assert a == [a[0]] + a[1..];
  }

  /** The test that keeps every character other than `c`. */
  function Without(c: char): char -> bool {
    x => x != c
  }

  /** Replacing a single character by nothing deletes exactly that character:
      the other characters stay, in their order and number. */
  lemma {:induction false} DeleteChar(s: string, c: char)
    ensures ReplaceAll(s, [c], "") == Seqs.Filter(Without(c), s)
    ensures forall x :: x in ReplaceAll(s, [c], "") <==> x in s && x != c
    decreases |s|
  {
    if |s| > 0 {
      DeleteChar(s[1..], c);
      assert s == [s[0]] + s[1..];
      if [c] <= s {
        assert s[0] == c;
        assert s[|[c]|..] == s[1..];
      } else {
        assert s[0] != c;
      }
    }
  }

  /** `strings.Split` with a one-character separator: the pieces between
      separators, one more piece than there are separators. */
  function Split(s: string, sep: char): (parts: seq<string>)
    ensures |parts| >= 1
    ensures forall i :: 0 <= i < |parts| ==> sep !in parts[i]
    decreases |s|
  {
    if |s| == 0 then [""]
    else
      var rest := Split(s[1..], sep);
      if s[0] == sep then [""] + rest
      else [[s[0]] + rest[0]] + rest[1..]
  }

  /** `strings.Join` with a one-character separator. */
  function Join(parts: seq<string>, sep: char): string
    decreases |parts|
  {
    if |parts| == 0 then ""
    else if |parts| == 1 then parts[0]
    else parts[0] + [sep] + Join(parts[1..], sep)
  }

  /** Joining the pieces of a split gives back the original string. */
  lemma {:induction false} JoinSplit(s: string, sep: char)
    ensures Join(Split(s, sep), sep) == s
    decreases |s|
  {
    if |s| > 0 {
      var rest := Split(s[1..], sep);
      JoinSplit(s[1..], sep);
      if s[0] == sep {
        assert Join([""] + rest, sep) == "" + [sep] + Join(rest, sep);
      } else if |rest| == 1 {
        assert Join(Split(s, sep), sep) == [s[0]] + rest[0];
      } else {
        var parts := Split(s, sep);
        assert parts[1..] == rest[1..];
        assert Join(rest, sep) == rest[0] + [sep] + Join(rest[1..], sep);
        assert Join(parts, sep) == ([s[0]] + rest[0]) + [sep] + Join(rest[1..], sep);
      }
    }
  }

  /** `strings.TrimSuffix`: drops `suffix` once when `s` ends with it. */
  function TrimSuffix(s: string, suffix: string): (r: string)
    ensures r <= s
    ensures r == s || r + suffix == s
    ensures (|suffix| <= |s| && s[|s| - |suffix|..] == suffix) <==> r + suffix == s
  {
    if |suffix| <= |s| && s[|s| - |suffix|..] == suffix then s[..|s| - |suffix|] else s
  }

  predicate IsUpperAscii(c: char) {
    'A' <= c <= 'Z'
  }

  function LowerAscii(c: char): (d: char)
    ensures !IsUpperAscii(d)
    ensures !IsUpperAscii(c) ==> d == c
    ensures IsUpperAscii(c) ==> d as int == c as int + 32
  {
    if IsUpperAscii(c) then (c as int + 32) as char else c
  }

  /** `strings.ToLower` restricted to ASCII letters. */
  function ToLowerAscii(s: string): (r: string)
    ensures |r| == |s|
    ensures forall i :: 0 <= i < |r| ==> !IsUpperAscii(r[i])
    ensures forall i :: 0 <= i < |r| && !IsUpperAscii(s[i]) ==> r[i] == s[i]
    ensures forall i :: 0 <= i < |r| && IsUpperAscii(s[i]) ==> r[i] as int == s[i] as int + 32
  {
    seq(|s|, i requires 0 <= i < |s| => LowerAscii(s[i]))
  }

  /** Go's `<` on strings: lexicographic by character code, a proper prefix
      comes first. */
  predicate Less(a: string, b: string)
    ensures Less(a, b) ==> a != b && |b| > 0
    decreases |a|
  {
    |b| > 0 && (|a| == 0 || a[0] < b[0] || (a[0] == b[0] && Less(a[1..], b[1..])))
  }

  lemma {:induction false} LessIrreflexive(a: string)
    ensures !Less(a, a)
    decreases |a|
  {
    if |a| > 0 {
      LessIrreflexive(a[1..]);
    }
  }

  lemma {:induction false} LessTransitive(a: string, b: string, c: string)
    requires Less(a, b) && Less(b, c)
    ensures Less(a, c)
    decreases |a|
  {
    if |a| > 0 && a[0] == b[0] && b[0] == c[0] {
      LessTransitive(a[1..], b[1..], c[1..]);
    }
  }

  /** Any two different strings are ordered one way or the other. */
  lemma {:induction false} LessTotal(a: string, b: string)
    ensures a == b || Less(a, b) || Less(b, a)
    decreases |a|
  {
    if |a| > 0 && |b| > 0 && a[0] == b[0] {
      LessTotal(a[1..], b[1..]);
      if a[1..] == b[1..] {
        assert a == [a[0]] + a[1..] && b == [b[0]] + b[1..];
      }
    }
  }

  lemma LessAntisymmetric(a: string, b: string)
    requires !Less(a, b) && !Less(b, a)
    ensures a == b
  {
    LessTotal(a, b);
  }

  /** A shared prefix does not change the order. */
  lemma {:induction false} LessSharedPrefix(p: string, a: string, b: string)
    ensures Less(p + a, p + b) <==> Less(a, b)
    decreases |p|
  {
    if |p| > 0 {
      assert (p + a)[1..] == p[1..] + a;
      assert (p + b)[1..] == p[1..] + b;
      LessSharedPrefix(p[1..], a, b);
    } else {
      assert p + a == a && p + b == b;
    }
  }

  /** Sorted in Go's non-decreasing string order. */
  predicate SortedStrings(s: seq<string>) {
    forall i, j :: 0 <= i < j < |s| ==> !Less(s[j], s[i])
  }

  lemma SortedTail(a: seq<string>)
    requires SortedStrings(a) && |a| > 0
    ensures SortedStrings(a[1..])
  {
    forall i, j | 0 <= i < j < |a[1..]|
      ensures !Less(a[1..][j], a[1..][i])
    {
      assert a[1..][j] == a[j + 1] && a[1..][i] == a[i + 1];
    }
  }

  /** Two sorted arrangements of the same strings start with the same one. */
  lemma SortedHeadsEqual(a: seq<string>, b: seq<string>)
    requires SortedStrings(a) && SortedStrings(b)
    requires multiset(a) == multiset(b) && |a| > 0
    ensures |b| > 0 && a[0] == b[0]
  {
    assert a[0] in multiset(b);
    var j :| 0 <= j < |b| && b[j] == a[0];
    assert b[0] in multiset(a);
    var k :| 0 <= k < |a| && a[k] == b[0];
    assert !Less(a[0], b[0]) by {
      if j == 0 {
        LessIrreflexive(b[0]);
      }
    }
    assert !Less(b[0], a[0]) by {
      if k == 0 {
        LessIrreflexive(a[0]);
      }
    }
    LessAntisymmetric(a[0], b[0]);
  }

  lemma TailsPermutation(a: seq<string>, b: seq<string>)
    requires multiset(a) == multiset(b) && |a| > 0 && |b| > 0 && a[0] == b[0]
    ensures multiset(a[1..]) == multiset(b[1..])
  {
    assert a == [a[0]] + a[1..] && b == [b[0]] + b[1..];
    assert multiset(a[1..]) == multiset(a) - multiset{a[0]};
    assert multiset(b[1..]) == multiset(b) - multiset{a[0]};
  }

  /** Two sorted arrangements of the same strings are the same sequence. */
  lemma {:induction false} SortedPermutationsEqual(a: seq<string>, b: seq<string>)
    requires SortedStrings(a) && SortedStrings(b)
    requires multiset(a) == multiset(b)
    ensures a == b
    decreases |a|
  {
    if |a| == 0 {
      assert |b| == |multiset(b)| == 0;
    } else {
      SortedHeadsEqual(a, b);
      TailsPermutation(a, b);
      SortedTail(a);
      SortedTail(b);
      SortedPermutationsEqual(a[1..], b[1..]);
      assert a == [a[0]] + a[1..] && b == [b[0]] + b[1..];
    }
  }
}
