/**
 * The three System.String operations the Route53 request fix-up relies on,
 * with ordinal (exact character) comparison: Contains, Replace and EndsWith.
 * Replace is characterised against an independent reference, splitting a
 * string at the occurrences of a pattern and joining the parts again.
 */
module DotNetStrings {

  /** `pat` occurs in `s` starting at index `i`. */
  predicate OccursAt(s: string, pat: string, i: int)
  {
    0 <= i && i + |pat| <= |s| && s[i..i + |pat|] == pat
  }

  /** String.Contains: some substring of `s` equals `pat`. */
  predicate Contains(s: string, pat: string)
    decreases |s|
  {
    |pat| <= |s| && (s[..|pat|] == pat || (0 < |s| && Contains(s[1..], pat)))
  }

  /** String.EndsWith. */
  predicate EndsWith(s: string, suffix: string)
  {
    |suffix| <= |s| && s[|s| - |suffix|..] == suffix
  }

  /** String.Replace(pattern, replacement): scanning left to right, each
      occurrence of `pat` not overlapping an earlier replaced one becomes `rep`. */
  function ReplaceAll(s: string, pat: string, rep: string): string
    requires |pat| > 0
    decreases |s|
  {
    if |s| < |pat| then s
    else if s[..|pat|] == pat then rep + ReplaceAll(s[|pat|..], pat, rep)
    else [s[0]] + ReplaceAll(s[1..], pat, rep)
  }

  /** The parts of `s` between the occurrences of `pat`, found left to right. */
  function Split(s: string, pat: string): (parts: seq<string>)
    requires |pat| > 0
    ensures |parts| >= 1
    decreases |s|
  {
    if |s| < |pat| then [s]
    else if s[..|pat|] == pat then [""] + Split(s[|pat|..], pat)
    else
      var rest := Split(s[1..], pat);
      [[s[0]] + rest[0]] + rest[1..]
  }

  /** The parts concatenated with `sep` between each two. */
  function Join(parts: seq<string>, sep: string): string
    requires |parts| >= 1
    decreases |parts|
  {
    if |parts| == 1 then parts[0] else parts[0] + sep + Join(parts[1..], sep)
  }

  /** Contains agrees with the existence of an occurrence. */
  lemma {:induction false} ContainsIffOccurs(s: string, pat: string)
    ensures Contains(s, pat) <==> exists i :: OccursAt(s, pat, i)
    decreases |s|
  {
    if |pat| > |s| {
      assert forall i :: !OccursAt(s, pat, i);
    } else if s[..|pat|] == pat {
      assert OccursAt(s, pat, 0);
    } else {
      assert 0 < |s|;
      ContainsIffOccurs(s[1..], pat);
      if Contains(s[1..], pat) {
        var i :| OccursAt(s[1..], pat, i);
        assert s[i + 1..i + 1 + |pat|] == s[1..][i..i + |pat|];
        assert OccursAt(s, pat, i + 1);
      }
      if exists i :: OccursAt(s, pat, i) {
        var i :| OccursAt(s, pat, i);
        assert i != 0;
        assert s[1..][i - 1..i - 1 + |pat|] == s[i..i + |pat|];
        assert OccursAt(s[1..], pat, i - 1);
      }
    }
  }

  /** EndsWith agrees with an occurrence at the last place the suffix fits. */
  lemma EndsWithIffOccurs(s: string, suffix: string)
    ensures EndsWith(s, suffix) <==> OccursAt(s, suffix, |s| - |suffix|)
  {
  }

  /** A string lacking some character of `pat` does not contain `pat`. */
  lemma MissingCharNotContained(s: string, pat: string, c: char)
    requires c in pat && c !in s
    ensures !Contains(s, pat)
  {
    ContainsIffOccurs(s, pat);
  }

  /** A string that contains `pat` still does when more is appended. */
  lemma ContainsExtend(a: string, b: string, pat: string)
    requires Contains(a, pat)
    ensures Contains(a + b, pat)
  {
    ContainsIffOccurs(a, pat);
    var i :| OccursAt(a, pat, i);
    assert (a + b)[i..i + |pat|] == a[i..i + |pat|];
    assert OccursAt(a + b, pat, i);
    ContainsIffOccurs(a + b, pat);
  }

  /** Replacing a pattern that does not occur leaves the string as it was. */
  lemma {:induction false} ReplaceAllAbsent(s: string, pat: string, rep: string)
    requires |pat| > 0 && !Contains(s, pat)
    ensures ReplaceAll(s, pat, rep) == s
    decreases |s|
  {
    if |s| >= |pat| {
      ReplaceAllAbsent(s[1..], pat, rep);
      assert [s[0]] + s[1..] == s;
    }
  }

  /** A replacement no longer than its pattern never lengthens the string,
      and a strictly shorter one shortens it exactly when the pattern occurs. */
  lemma {:induction false} ReplaceAllLength(s: string, pat: string, rep: string)
    requires |pat| > 0 && |rep| <= |pat|
    ensures |ReplaceAll(s, pat, rep)| <= |s|
    ensures |rep| < |pat| ==> (|ReplaceAll(s, pat, rep)| < |s| <==> Contains(s, pat))
    decreases |s|
  {
    if |s| < |pat| {
    } else if s[..|pat|] == pat {
      ReplaceAllLength(s[|pat|..], pat, rep);
    } else {
      ReplaceAllLength(s[1..], pat, rep);
    }
  }

  /** Joining after putting one more character in front of the first part. */
  lemma JoinConsFirst(c: char, parts: seq<string>, sep: string)
    requires |parts| >= 1
    ensures Join([[c] + parts[0]] + parts[1..], sep) == [c] + Join(parts, sep)
  {
    var consed := [[c] + parts[0]] + parts[1..];
    if |parts| > 1 {
      assert consed[1..] == parts[1..];
    }
  }

  /** Replace is Split followed by Join with the replacement. */
  lemma {:induction false} ReplaceAllIsJoinOfSplit(s: string, pat: string, rep: string)
    requires |pat| > 0
    ensures ReplaceAll(s, pat, rep) == Join(Split(s, pat), rep)
    decreases |s|
  {
    if |s| < |pat| {
    } else if s[..|pat|] == pat {
      ReplaceAllIsJoinOfSplit(s[|pat|..], pat, rep);
      assert ([""] + Split(s[|pat|..], pat))[1..] == Split(s[|pat|..], pat);
    } else {
      ReplaceAllIsJoinOfSplit(s[1..], pat, rep);
      JoinConsFirst(s[0], Split(s[1..], pat), rep);
    }
  }

  /** Joining the parts with the pattern itself gives back the string. */
  lemma {:induction false} SplitJoinRoundTrip(s: string, pat: string)
    requires |pat| > 0
    ensures Join(Split(s, pat), pat) == s
    decreases |s|
  {
    if |s| < |pat| {
    } else if s[..|pat|] == pat {
      var rest := Split(s[|pat|..], pat);
      SplitJoinRoundTrip(s[|pat|..], pat);
      assert Split(s, pat) == [""] + rest;
      assert ([""] + rest)[1..] == rest;
      assert Join([""] + rest, pat) == "" + pat + Join(rest, pat);
      assert s == s[..|pat|] + s[|pat|..];
    } else {
      SplitJoinRoundTrip(s[1..], pat);
      JoinConsFirst(s[0], Split(s[1..], pat), pat);
      assert s == [s[0]] + s[1..];
    }
  }

  /** The first part is all of `s` when there is one part, and is followed
      by the pattern in `s` otherwise. */
  lemma {:induction false} SplitFirstPart(s: string, pat: string)
    requires |pat| > 0
    ensures |Split(s, pat)| == 1 ==> Split(s, pat)[0] == s
    ensures |Split(s, pat)| > 1 ==> Split(s, pat)[0] + pat <= s
    decreases |s|
  {
    if |s| < |pat| {
    } else if s[..|pat|] == pat {
    } else {
      SplitFirstPart(s[1..], pat);
      var rest := Split(s[1..], pat);
      if |rest| > 1 {
        assert [s[0]] + rest[0] + pat == [s[0]] + (rest[0] + pat);
        assert s == [s[0]] + s[1..];
      } else {
        assert s == [s[0]] + s[1..];
      }
    }
  }

  /**
   * The parts are found leftmost first: no occurrence of `pat` starts inside
   * a part that a `pat` follows (none lies within the part and the first
   * |pat| - 1 characters of that `pat`), and the last part holds none.
   */
  lemma {:induction false} SplitPartsLeftmost(s: string, pat: string)
    requires |pat| > 0
    ensures var parts := Split(s, pat);
            forall k :: 0 <= k < |parts| - 1 ==> !Contains(parts[k] + pat[..|pat| - 1], pat)
    ensures var parts := Split(s, pat); !Contains(parts[|parts| - 1], pat)
    decreases |s|
  {
    var m := |pat|;
    if |s| < m {
    } else if s[..m] == pat {
      var rest := Split(s[m..], pat);
      SplitPartsLeftmost(s[m..], pat);
      assert Split(s, pat) == [""] + rest[0..];
      assert !Contains("" + pat[..m - 1], pat);
      ConsParts("", rest, 0, x => !Contains(x + pat[..m - 1], pat), x => !Contains(x, pat));
    } else {
      var rest := Split(s[1..], pat);
      SplitPartsLeftmost(s[1..], pat);
      SplitFirstPart(s[1..], pat);
      var head := [s[0]] + rest[0];
      assert Split(s, pat) == [head] + rest[1..];
      if |rest| > 1 {
        HeadBeforeMatchLeftmost(s, pat, rest[0]);
        ConsParts(head, rest, 1, x => !Contains(x + pat[..m - 1], pat), x => !Contains(x, pat));
      } else {
        assert head == s by {
          assert s == [s[0]] + s[1..];
        }
      }
    }
  }

  /** Putting a part that satisfies `inner` in front of the tail `rest[d..]`
      of a sequence whose parts before the last satisfy `inner` and whose
      last part satisfies `last` keeps that shape. */
  lemma ConsParts(first: string, rest: seq<string>, d: nat, inner: string -> bool, last: string -> bool)
    requires d < |rest|
    requires inner(first)
    requires forall k :: 0 <= k < |rest| - 1 ==> inner(rest[k])
    requires last(rest[|rest| - 1])
    ensures var parts := [first] + rest[d..];
            forall k :: 0 <= k < |parts| - 1 ==> inner(parts[k])
    ensures var parts := [first] + rest[d..]; last(parts[|parts| - 1])
  {
    var parts := [first] + rest[d..];
    forall k | 1 <= k < |parts| - 1
      ensures inner(parts[k])
    {
      assert parts[k] == rest[k - 1 + d];
    }
    assert parts[|parts| - 1] == rest[|rest| - 1];
  }

  /** When `pat` does not start `s` and the first part of the split of
      `s[1..]` is followed there by `pat` with no earlier occurrence, the
      same holds for that part with `s[0]` put in front. */
  lemma HeadBeforeMatchLeftmost(s: string, pat: string, part: string)
    requires 0 < |pat| <= |s| && s[..|pat|] != pat
    requires part + pat <= s[1..]
    requires !Contains(part + pat[..|pat| - 1], pat)
    ensures !Contains([s[0]] + part + pat[..|pat| - 1], pat)
  {
    HeadBeforeMatchPrefix(s, pat, part);
    NotContainsCons(s[0], part + pat[..|pat| - 1], pat);
    assert [s[0]] + part + pat[..|pat| - 1] == [s[0]] + (part + pat[..|pat| - 1]);
  }

  /** A string that `pat` does not start has `pat` only if its tail has. */
  lemma NotContainsCons(c: char, rest: string, pat: string)
    requires |[c] + rest| < |pat| || ([c] + rest)[..|pat|] != pat
    requires !Contains(rest, pat)
    ensures !Contains([c] + rest, pat)
  {
    assert ([c] + rest)[1..] == rest;
  }

  /** The first `|pat|` characters of the extended head are those of `s`. */
  lemma HeadBeforeMatchPrefix(s: string, pat: string, part: string)
    requires 0 < |pat| <= |s|
    requires part + pat <= s[1..]
    ensures ([s[0]] + (part + pat[..|pat| - 1]))[..|pat|] == s[..|pat|]
  {
    var m := |pat|;
    var rest := part + pat[..m - 1];
    var q := [s[0]] + rest;
    forall i | 0 <= i < m
      ensures q[i] == s[i]
    {
      if 0 < i {
        assert q[i] == rest[i - 1];
        assert s[i] == s[1..][i - 1] == (part + pat)[i - 1];
      }
    }
  }

  /** No part of the split contains the pattern. */
  lemma SplitPartsFree(s: string, pat: string)
    requires |pat| > 0
    ensures var parts := Split(s, pat); forall k :: 0 <= k < |parts| ==> !Contains(parts[k], pat)
  {
    var parts := Split(s, pat);
    SplitPartsLeftmost(s, pat);
    forall k | 0 <= k < |parts| - 1
      ensures !Contains(parts[k], pat)
    {
      if Contains(parts[k], pat) {
        ContainsExtend(parts[k], pat[..|pat| - 1], pat);
      }
    }
  }

  /** Replace through the reference split: the parts of `s` between the
      occurrences of `pat`, found leftmost first and none containing `pat`,
      are joined with `rep` where `s` has `pat`. */
  lemma ReplaceAllByParts(s: string, pat: string, rep: string)
    requires |pat| > 0
    ensures var parts := Split(s, pat);
            && s == Join(parts, pat)
            && ReplaceAll(s, pat, rep) == Join(parts, rep)
            && (forall k :: 0 <= k < |parts| ==> !Contains(parts[k], pat))
            && (forall k :: 0 <= k < |parts| - 1 ==> !Contains(parts[k] + pat[..|pat| - 1], pat))
  {
    SplitJoinRoundTrip(s, pat);
    ReplaceAllIsJoinOfSplit(s, pat, rep);
    SplitPartsFree(s, pat);
    SplitPartsLeftmost(s, pat);
  }
}
