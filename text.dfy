/** The Python string operations the core relies on: `str.split`, `str.join`
    and `str.replace`. */
module Text {
  /** Index of the first `c` in `s`. */
  function FirstIndex(s: string, c: char): (k: nat)
    requires c in s
    ensures k < |s| && s[k] == c && c !in s[..k]
  {
    if s[0] == c then 0 else 1 + FirstIndex(s[1..], c)
  }

  /** `s.split(sep)` for a one-character separator: never empty, and empty
      fields are kept (`"a__b"` gives `["a", "", "b"]`). */
  function Split(s: string, sep: char): (parts: seq<string>)
    ensures |parts| >= 1
    ensures forall k :: 0 <= k < |parts| ==> sep !in parts[k]
    decreases |s|
  {
    if sep !in s then [s]
    else
      var k := FirstIndex(s, sep);
      [s[..k]] + Split(s[k + 1..], sep)
  }

  /** `sep.join(parts)`. */
  function Join(parts: seq<string>, sep: char): string
  {
    if |parts| == 0 then ""
    else if |parts| == 1 then parts[0]
    else parts[0] + [sep] + Join(parts[1..], sep)
  }

  lemma {:induction false} JoinSplit(s: string, sep: char)
    ensures Join(Split(s, sep), sep) == s
    decreases |s|
  {
    if sep in s {
      var k := SplitFirst(s, sep);
      JoinSplit(s[k + 1..], sep);
      JoinCons(s[..k], Split(s[k + 1..], sep), sep);
      assert s == s[..k] + [sep] + s[k + 1..];
    } else {
      assert Split(s, sep) == [s];
    }
  }

  /** A split with a separator present starts with the field before its first occurrence. */
  lemma SplitFirst(s: string, sep: char) returns (k: nat)
    requires sep in s
    ensures k < |s| && s[k] == sep && sep !in s[..k]
    ensures Split(s, sep) == [s[..k]] + Split(s[k + 1..], sep)
  {
    k := FirstIndex(s, sep);
  }

  /** `n` is `s` itself or a run of whole `sep`-separated fields at the start of
      `s`: what `sep.join(s.split(sep)[0 : i + 1])` yields for some `i`. */
  predicate IsPathPrefix(n: string, s: string, sep: char) {
    n == s || (|n| < |s| && s[..|n|] == n && s[|n|] == sep)
  }

  lemma {:induction false} JoinedPrefixIsPathPrefix(s: string, sep: char, i: nat)
    requires i < |Split(s, sep)|
    ensures IsPathPrefix(Join(Split(s, sep)[..i + 1], sep), s, sep)
    decreases |s|, 1
  {
    if sep !in s {
      WholeIsPathPrefix(s, sep, i);
    } else if i == 0 {
      FirstFieldIsPathPrefix(s, sep);
    } else {
      FieldsAfterFirstArePathPrefix(s, sep, i);
    }
  }

  lemma {:induction false} FieldsAfterFirstArePathPrefix(s: string, sep: char, i: nat)
    requires sep in s && 0 < i < |Split(s, sep)|
    ensures IsPathPrefix(Join(Split(s, sep)[..i + 1], sep), s, sep)
    decreases |s|, 0
  {
    var k := SplitFirst(s, sep);
    JoinedPrefixIsPathPrefix(s[k + 1..], sep, i - 1);
    LaterFieldsArePathPrefix(s, Split(s, sep), s[..k], sep, s[k + 1..], Split(s[k + 1..], sep), i);
  }

  lemma WholeIsPathPrefix(s: string, sep: char, i: nat)
    requires sep !in s && i < |Split(s, sep)|
    ensures IsPathPrefix(Join(Split(s, sep)[..i + 1], sep), s, sep)
  {
    assert Split(s, sep)[..i + 1] == [s];
  }

  lemma FirstFieldIsPathPrefix(s: string, sep: char)
    requires sep in s
    ensures IsPathPrefix(Join(Split(s, sep)[..1], sep), s, sep)
  {
    var k := SplitFirst(s, sep);
    assert Split(s, sep)[..1] == [s[..k]];
  }

  lemma LaterFieldsArePathPrefix(s: string, parts: seq<string>, a: string, sep: char, rest: string, tail: seq<string>, i: nat)
    requires |s| > |a| && s[..|a|] == a && s[|a|] == sep && rest == s[|a| + 1..] && parts == [a] + tail
    requires 1 <= i <= |tail|
    requires IsPathPrefix(Join(tail[..i], sep), rest, sep)
    ensures IsPathPrefix(Join(parts[..i + 1], sep), s, sep)
  {
    assert s == a + [sep] + rest;
    assert parts[..i + 1] == [a] + tail[..i];
    JoinCons(a, tail[..i], sep);
    PathPrefixExtend(a, sep, rest, Join(tail[..i], sep));
  }

  /** Putting the same leading field in front keeps a path prefix one. */
  lemma PathPrefixExtend(a: string, sep: char, rest: string, m: string)
    requires IsPathPrefix(m, rest, sep)
    ensures IsPathPrefix(a + [sep] + m, a + [sep] + rest, sep)
  {
    if m != rest {
      assert (a + [sep] + rest)[..|a + [sep] + m|] == a + [sep] + m;
      assert (a + [sep] + rest)[|a + [sep] + m|] == rest[|m|];
    }
  }

  lemma JoinCons(a: string, rest: seq<string>, sep: char)
    requires |rest| >= 1
    ensures Join([a] + rest, sep) == a + [sep] + Join(rest, sep)
  {
    assert ([a] + rest)[1..] == rest;
  }

  /** A path prefix that stops inside the first field is impossible, one that
      stops at its end is that field, and a longer one continues into the rest. */
  lemma PathPrefixCases(s: string, sep: char, n: string, k: nat)
    requires k < |s| && s[k] == sep && sep !in s[..k]
    requires IsPathPrefix(n, s, sep)
    ensures n == s[..k] || (k < |n| && n[..k] == s[..k] && n[k] == sep && IsPathPrefix(n[k + 1..], s[k + 1..], sep))
  {
    if n == s {
    } else if |n| < k {
      assert false;
    } else if |n| == k {
    } else {
      assert n[..k] == s[..|n|][..k];
      assert n[k] == s[..|n|][k];
      assert s[k + 1..][..|n[k + 1..]|] == s[..|n|][k + 1..];
      assert s[k + 1..][|n[k + 1..]|] == s[|n|];
    }
  }

  lemma {:induction false} PathPrefixIsJoinedPrefix(s: string, sep: char, n: string) returns (i: nat)
    requires IsPathPrefix(n, s, sep)
    ensures i < |Split(s, sep)| && Join(Split(s, sep)[..i + 1], sep) == n
    decreases |s|, 2
  {
    if sep !in s {
      i := 0;
      assert Split(s, sep)[..1] == [s];
    } else {
      i := PathPrefixAfterSeparator(s, sep, n);
    }
  }

  lemma {:induction false} PathPrefixAfterSeparator(s: string, sep: char, n: string) returns (i: nat)
    requires sep in s && IsPathPrefix(n, s, sep)
    ensures i < |Split(s, sep)| && Join(Split(s, sep)[..i + 1], sep) == n
    decreases |s|, 1
  {
    var k := SplitFirst(s, sep);
    PathPrefixCases(s, sep, n, k);
    if n == s[..k] {
      i := 0;
      assert Split(s, sep)[..1] == [s[..k]];
    } else {
      i := LongerPathPrefix(s, sep, n, k);
    }
  }

  lemma {:induction false} LongerPathPrefix(s: string, sep: char, n: string, k: nat) returns (i: nat)
    requires k < |s| && s[k] == sep && Split(s, sep) == [s[..k]] + Split(s[k + 1..], sep)
    requires k < |n| && n[..k] == s[..k] && n[k] == sep && IsPathPrefix(n[k + 1..], s[k + 1..], sep)
    ensures i < |Split(s, sep)| && Join(Split(s, sep)[..i + 1], sep) == n
    decreases |s|, 0
  {
    var rest := s[k + 1..];
    var i' := PathPrefixIsJoinedPrefix(rest, sep, n[k + 1..]);
    i := i' + 1;
    var parts := Split(s, sep);
    var tail := Split(rest, sep);
    assert parts == [s[..k]] + tail;
    assert Join(tail[..i' + 1], sep) == n[k + 1..];
    assert |n| > |s[..k]| && n[..|s[..k]|] == s[..k] && n[|s[..k]|] == sep;
    JoinLaterFields(parts, s[..k], sep, tail, n, i');
  }

  lemma JoinLaterFields(parts: seq<string>, a: string, sep: char, tail: seq<string>, n: string, i: nat)
    requires parts == [a] + tail && i < |tail|
    requires |n| > |a| && n[..|a|] == a && n[|a|] == sep && Join(tail[..i + 1], sep) == n[|a| + 1..]
    ensures i + 1 < |parts| && Join(parts[..i + 2], sep) == n
  {
    assert parts[..i + 2] == [a] + tail[..i + 1];
    JoinCons(a, tail[..i + 1], sep);
    assert n == a + [sep] + n[|a| + 1..];
  }

  /** The final `sep`-separated field of `s`: `s.split(sep)[-1]`. */
  function LastField(s: string, sep: char): string {
    var parts := Split(s, sep);
    parts[|parts| - 1]
  }

  predicate EndsWith(s: string, suffix: string) {
    |suffix| <= |s| && s[|s| - |suffix|..] == suffix
  }

  lemma NoDotInExtension(s: string, ext: string)
    requires '.' !in ext && EndsWith(s, "." + ext)
    ensures forall p :: |s| - |ext| <= p < |s| ==> s[p] != '.'
  {
    forall p | |s| - |ext| <= p < |s| ensures s[p] != '.' {
      assert s[p] == s[|s| - |ext| - 1..][p - (|s| - |ext| - 1)];
      assert s[p] == ext[p - (|s| - |ext|)];
    }
  }

  lemma DotBeforeExtension(s: string, ext: string)
    ensures EndsWith(s, "." + ext) ==> s[|s| - |ext| - 1] == '.'
  {
    if EndsWith(s, "." + ext) {
      assert s[|s| - |ext| - 1] == s[|s| - |ext| - 1..][0];
    }
  }

  /** Ending in `"." + ext` after the first dot is ending in it at all. */
  lemma EndsWithAfterDot(a: string, rest: string, ext: string)
    requires '.' !in ext
    ensures EndsWith(a + ['.'] + rest, "." + ext) <==> rest == ext || EndsWith(rest, "." + ext)
  {
    var s := a + ['.'] + rest;
    var L := |ext| + 1;
    if rest == ext {
      assert s[|s| - L..] == ['.'] + rest;
    }
    if EndsWith(rest, "." + ext) {
      assert s[|s| - L..] == rest[|rest| - L..];
    }
    if EndsWith(s, "." + ext) {
      NoDotInExtension(s, ext);
      assert s[|a|] == '.';
      if |rest| >= L {
        assert rest[|rest| - L..] == s[|s| - L..];
      } else if |rest| == |ext| {
        assert rest == s[|s| - L..][1..];
      } else {
        assert false;
      }
    }
  }

  /** `s.split(".")[-1] == ext` holds exactly when `s` is `ext` itself or ends
      in `"." + ext`, for an extension without dots. */
  lemma {:induction false} LastFieldIs(s: string, ext: string)
    requires '.' !in ext
    ensures LastField(s, '.') == ext <==> s == ext || EndsWith(s, "." + ext)
    decreases |s|
  {
    if '.' in s {
      var k := FirstIndex(s, '.');
      var a, rest := s[..k], s[k + 1..];
      assert Split(s, '.') == [a] + Split(rest, '.');
      assert LastField(s, '.') == LastField(rest, '.');
      assert s == a + ['.'] + rest;
      LastFieldIs(rest, ext);
      EndsWithAfterDot(a, rest, ext);
      assert s != ext by {
        assert s[k] == '.';
      }
    } else {
      assert Split(s, '.') == [s];
      DotBeforeExtension(s, ext);
    }
  }

  /** `pat` occurs somewhere in `s`. */
  predicate Occurs(pat: string, s: string) {
    exists i :: 0 <= i <= |s| && OccursAt(pat, s, i)
  }

  predicate OccursAt(pat: string, s: string, i: int) {
    0 <= i && i + |pat| <= |s| && s[i..i + |pat|] == pat
  }

  /** `rep` before, between and after the characters of `s`: `s.replace("", rep)`. */
  function Interleave(s: string, rep: string): (r: string)
    ensures rep == [] ==> r == s
  {
    if s == [] then rep else rep + [s[0]] + Interleave(s[1..], rep)
  }

  /** `s.replace(pat, rep)`: every occurrence of `pat`, scanning left to right
      without overlaps, becomes `rep`. */
  function ReplaceAll(s: string, pat: string, rep: string): (r: string)
    ensures pat == rep ==> r == s
    ensures pat != [] && |s| < |pat| ==> r == s
    decreases |s|
  {
    if pat == [] then Interleave(s, rep)
    else if |s| < |pat| then s
    else if s[..|pat|] == pat then
      assert s == s[..|pat|] + s[|pat|..];
      rep + ReplaceAll(s[|pat|..], pat, rep)
    else
      assert s == [s[0]] + s[1..];
      [s[0]] + ReplaceAll(s[1..], pat, rep)
  }

  lemma {:induction false} ReplaceAbsent(s: string, pat: string, rep: string)
    requires pat != [] && !Occurs(pat, s)
    ensures ReplaceAll(s, pat, rep) == s
    decreases |s|
  {
    if |s| >= |pat| {
      assert s[0..|pat|] == s[..|pat|];
      assert !OccursAt(pat, s, 0);
      assert !Occurs(pat, s[1..]) by {
        forall i | OccursAt(pat, s[1..], i) ensures false {
          assert s[1..][i..i + |pat|] == s[i + 1..i + 1 + |pat|];
          assert OccursAt(pat, s, i + 1);
        }
      }
      ReplaceAbsent(s[1..], pat, rep);
    }
  }

  /** Replacing a single character with nothing removes every copy of it. */
  lemma {:induction false} RemoveChar(s: string, c: char)
    ensures c !in ReplaceAll(s, [c], "")
    decreases |s|
  {
    if |s| >= 1 {
      RemoveChar(s[1..], c);
    }
  }
}
