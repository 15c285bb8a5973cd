/** The few java.lang.String operations the vault command relies on:
    startsWith, replace(target, ""), trim, toLowerCase(Locale.ROOT) on ASCII,
    and the space-separated report the "list" branch builds. */
module JavaText {

  /** String.startsWith */
  predicate StartsWith(s: string, prefix: string) {
    |prefix| <= |s| && s[..|prefix|] == prefix
  }

  /** True when `target` occurs somewhere in `s` as a contiguous block. */
  predicate Contains(s: string, target: string)
    decreases |s|
  {
    StartsWith(s, target) || (|s| > 0 && Contains(s[1..], target))
  }

  /** String.replace(target, ""): one left-to-right scan that drops every
      non-overlapping occurrence of `target`.  An empty target leaves the
      string as it is (Java inserts the empty replacement between characters). */
  function RemoveAll(s: string, target: string): (r: string)
    ensures |r| <= |s|
    ensures !Contains(s, target) ==> r == s
    decreases |s|
  {
    if |target| == 0 || |s| < |target| then s
    else if s[..|target|] == target then RemoveAll(s[|target|..], target)
    else [s[0]] + RemoveAll(s[1..], target)
  }

  /** `target` occurs in `s` starting at index `i`. */
  predicate OccursAt(s: string, target: string, i: nat) {
    i + |target| <= |s| && s[i..i + |target|] == target
  }

  /** String.indexOf: where `target` first occurs in `s`, or -1. */
  function IndexOf(s: string, target: string): (k: int)
    ensures k >= 0 ==> OccursAt(s, target, k)
    ensures forall j: nat :: j < k ==> !OccursAt(s, target, j)
    ensures k < 0 ==> k == -1 && forall j: nat :: !OccursAt(s, target, j)
    decreases |s|
  {
    if |s| < |target| then -1
    else if s[..|target|] == target then 0
    else
      assert !OccursAt(s, target, 0) by {
        assert s[0..|target|] == s[..|target|];
      }
      var k := IndexOf(s[1..], target);
      OccursAtShiftAll(s, target);
      if k < 0 then -1 else k + 1
  }

  /** contains and indexOf agree: Java's contains is indexOf(target) >= 0. */
  lemma {:induction false} ContainsIsIndexOf(s: string, target: string)
    ensures Contains(s, target) <==> IndexOf(s, target) >= 0
    decreases |s|
  {
    if |s| > 0 && !StartsWith(s, target) {
      ContainsIsIndexOf(s[1..], target);
    }
  }

  /** The step Java's replace repeats: find the first occurrence with indexOf,
      keep everything before it, drop the occurrence, and carry on after it. */
  lemma RemoveAllAtIndexOf(s: string, target: string, i: nat)
    requires |target| > 0 && i == IndexOf(s, target)
    ensures i + |target| <= |s|
    ensures RemoveAll(s, target) == s[..i] + RemoveAll(s[i + |target|..], target)
  {
    assert s == s[..i] + target + s[i + |target|..];
    RemoveAllBeforeFirst(s[..i], target, s[i + |target|..]);
  }

  /** The same step with the string written as the text before the first
      occurrence, the occurrence, and the text after it. */
  lemma {:induction false} RemoveAllBeforeFirst(p: string, target: string, q: string)
    requires |target| > 0 && IndexOf(p + target + q, target) == |p|
    ensures RemoveAll(p + target + q, target) == p + RemoveAll(q, target)
    decreases |p|
  {
    var s := p + target + q;
    if |p| == 0 {
      assert s[..|target|] == target && s[|target|..] == q;
    } else {
      IndexOfTail(s, target);
      assert s[1..] == p[1..] + target + q;
      var rest := RemoveAll(q, target);
      calc {
        RemoveAll(s, target);
        { RemoveAllKeepsFirst(s, target); }
        [s[0]] + RemoveAll(s[1..], target);
        [p[0]] + RemoveAll(p[1..] + target + q, target);
        { RemoveAllBeforeFirst(p[1..], target, q); }
        [p[0]] + (p[1..] + rest);
        { AppendAssociative([p[0]], p[1..], rest); }
        ([p[0]] + p[1..]) + rest;
        { assert [p[0]] + p[1..] == p; }
        p + rest;
      }
    }
  }

  /** Concatenation is associative; stated once so the step above stays cheap. */
  lemma AppendAssociative(a: string, b: string, c: string)
    ensures a + (b + c) == (a + b) + c
  {
  }

  /** A later first occurrence is one place earlier once the first character is dropped. */
  lemma IndexOfTail(s: string, target: string)
    requires IndexOf(s, target) > 0
    ensures |target| <= |s| && !OccursAt(s, target, 0)
    ensures IndexOf(s[1..], target) == IndexOf(s, target) - 1
  {
    assert s[0..|target|] == s[..|target|];
  }

  /** Without an occurrence, replace returns the string unchanged. */
  lemma {:induction false} RemoveAllWithoutIndex(s: string, target: string)
    requires IndexOf(s, target) < 0
    ensures RemoveAll(s, target) == s
    decreases |s|
  {
    if |target| > 0 && |s| >= |target| {
      assert !OccursAt(s, target, 0);
      RemoveAllWithoutIndex(s[1..], target);
      assert [s[0]] + s[1..] == s;
    }
  }

  /** Occurrence at i with none before it: the string is its prefix up to i,
      then whatever replace makes of the text after the occurrence. */
  lemma RemoveAllAtFirstOccurrence(s: string, target: string, i: nat)
    requires |target| > 0
    requires OccursAt(s, target, i)
    requires forall j: nat :: j < i ==> !OccursAt(s, target, j)
    ensures RemoveAll(s, target) == s[..i] + RemoveAll(s[i + |target|..], target)
  {
    var k := IndexOf(s, target);
    assert k == i;
    RemoveAllAtIndexOf(s, target, i);
  }

  /** A string that does not start with `target` keeps its first character. */
  lemma RemoveAllKeepsFirst(s: string, target: string)
    requires 0 < |target| <= |s|
    requires !OccursAt(s, target, 0)
    ensures RemoveAll(s, target) == [s[0]] + RemoveAll(s[1..], target)
  {
  }

  /** Dropping the first character moves every occurrence one place left. */
  lemma OccursAtShiftAll(s: string, target: string)
    requires |s| > 0
    ensures forall j: nat :: 0 < j ==> (OccursAt(s, target, j) <==> OccursAt(s[1..], target, j - 1))
  {
    forall j: nat | 0 < j
      ensures OccursAt(s, target, j) <==> OccursAt(s[1..], target, j - 1)
    {
      if j + |target| <= |s| {
        assert s[1..][j - 1..j - 1 + |target|] == s[j..j + |target|];
      }
    }
  }

  /** Removing occurrences never looks at a leading occurrence twice:
      a string that starts with `target` loses that copy and is otherwise
      treated like the rest. */
  lemma RemoveAllLeading(target: string, s: string)
    requires |target| > 0
    ensures RemoveAll(target + s, target) == RemoveAll(s, target)
  {
    assert (target + s)[..|target|] == target;
    assert (target + s)[|target|..] == s;
  }

  /** A string that never contains the first character of `target` is left unchanged. */
  lemma {:induction false} RemoveAllWithoutFirstChar(s: string, target: string)
    requires |target| > 0
    requires forall i :: 0 <= i < |s| ==> s[i] != target[0]
    ensures RemoveAll(s, target) == s
    decreases |s|
  {
    if |s| < |target| {
    } else {
      assert s[..|target|][0] == s[0] != target[0];
      RemoveAllWithoutFirstChar(s[1..], target);
      assert [s[0]] + s[1..] == s;
    }
  }

  /** The code units String.trim() strips: everything up to U+0020. */
  predicate IsTrimmable(c: char) {
    c <= ' '
  }

  /** Number of leading trimmable characters. */
  function LeadingTrimmable(s: string): (n: nat)
    ensures n <= |s|
    ensures forall k :: 0 <= k < n ==> IsTrimmable(s[k])
    ensures n < |s| ==> !IsTrimmable(s[n])
    decreases |s|
  {
    if |s| == 0 || !IsTrimmable(s[0]) then 0 else 1 + LeadingTrimmable(s[1..])
  }

  /** Length of `s` once its trailing trimmable characters are dropped. */
  function UntrimmedLength(s: string): (n: nat)
    ensures n <= |s|
    ensures forall k :: n <= k < |s| ==> IsTrimmable(s[k])
    ensures n > 0 ==> !IsTrimmable(s[n - 1])
    decreases |s|
  {
    if |s| == 0 || !IsTrimmable(s[|s| - 1]) then |s| else UntrimmedLength(s[..|s| - 1])
  }

  /** String.trim() */
  function Trim(s: string): (r: string)
    ensures |r| <= |s|
    ensures |r| > 0 ==> !IsTrimmable(r[0]) && !IsTrimmable(r[|r| - 1])
  {
    var rest := s[LeadingTrimmable(s)..];
    rest[..UntrimmedLength(rest)]
  }

  /** What trim promises, independently of how it scans: the result is the
      block s[i..j] of `s` left once the trimmable characters at both ends are gone. */
  ghost predicate IsTrimBlock(s: string, i: int, j: int) {
    && 0 <= i <= j <= |s|
    && (forall k :: 0 <= k < i ==> IsTrimmable(s[k]))
    && (forall k :: j <= k < |s| ==> IsTrimmable(s[k]))
    && (i < j ==> !IsTrimmable(s[i]) && !IsTrimmable(s[j - 1]))
  }

  ghost predicate IsTrimOf(s: string, r: string) {
    exists i, j :: IsTrimBlock(s, i, j) && r == s[i..j]
  }

  lemma TrimMeetsDefinition(s: string)
    ensures IsTrimOf(s, Trim(s))
  {
    var i := LeadingTrimmable(s);
    var rest := s[i..];
    var n := UntrimmedLength(rest);
    assert Trim(s) == s[i..i + n];
    if n == 0 {
      assert IsTrimBlock(s, i + n, i + n);
      assert Trim(s) == s[i + n..i + n];
    } else {
      assert IsTrimBlock(s, i, i + n);
    }
  }

  /** Trimming is determined by its definition: any block meeting it is the result of Trim. */
  lemma TrimUnique(s: string, r: string)
    requires IsTrimOf(s, r)
    ensures r == Trim(s)
  {
    var i, j :| IsTrimBlock(s, i, j) && r == s[i..j];
    TrimMeetsDefinition(s);
    var i', j' :| IsTrimBlock(s, i', j') && Trim(s) == s[i'..j'];
    if i < j && i' < j' {
      assert i == i' && j == j';
    }
  }

  /** A trailing space never survives trim. */
  lemma TrimDropsTrailingSpace(s: string)
    ensures Trim(s + " ") == Trim(s)
  {
    TrimMeetsDefinition(s);
    var i, j :| IsTrimBlock(s, i, j) && Trim(s) == s[i..j];
    var t := s + " ";
    assert t[..|s|] == s;
    assert t[i..j] == t[..|s|][i..j];
    forall k | j <= k < |t|
      ensures IsTrimmable(t[k])
    {
      if k < |s| {
        assert t[k] == s[k];
      }
    }
    assert IsTrimBlock(t, i, j);
    TrimUnique(t, Trim(s));
  }

  /** A string that neither starts nor ends with a trimmable character is its own trim. */
  lemma TrimOfTrimmed(s: string)
    requires |s| > 0 ==> !IsTrimmable(s[0]) && !IsTrimmable(s[|s| - 1])
    ensures Trim(s) == s
  {
    assert IsTrimBlock(s, 0, |s|) && s[0..|s|] == s;
    TrimUnique(s, s);
  }

  /** The strings joined with one space between neighbours. */
  function JoinSpaces(parts: seq<string>): string
    decreases |parts|
  {
    if |parts| == 0 then ""
    else if |parts| == 1 then parts[0]
    else parts[0] + " " + JoinSpaces(parts[1..])
  }

  /** Appending every part followed by one space, as a StringBuilder loop does. */
  function AppendEachWithSpace(parts: seq<string>): (r: string)
    decreases |parts|
  {
    if |parts| == 0 then "" else parts[0] + " " + AppendEachWithSpace(parts[1..])
  }

  /** The builder's output is the joined string followed by a single trailing space. */
  lemma {:induction false} AppendEachIsJoinPlusSpace(parts: seq<string>)
    requires |parts| > 0
    ensures AppendEachWithSpace(parts) == JoinSpaces(parts) + " "
    decreases |parts|
  {
    if |parts| > 1 {
      AppendEachIsJoinPlusSpace(parts[1..]);
      assert parts[0] + " " + (JoinSpaces(parts[1..]) + " ")
          == (parts[0] + " " + JoinSpaces(parts[1..])) + " ";
    } else {
      assert AppendEachWithSpace(parts[1..]) == "";
    }
  }

  /** The joined string starts with the first part and ends with the last
      when neither is empty. */
  lemma {:induction false} JoinSpacesEnds(parts: seq<string>)
    requires |parts| > 0
    requires forall k :: 0 <= k < |parts| ==> |parts[k]| > 0
    ensures |JoinSpaces(parts)| > 0
    ensures JoinSpaces(parts)[0] == parts[0][0]
    ensures JoinSpaces(parts)[|JoinSpaces(parts)| - 1] == parts[|parts| - 1][|parts[|parts| - 1]| - 1]
    decreases |parts|
  {
    if |parts| > 1 {
      JoinSpacesEnds(parts[1..]);
      var tail := JoinSpaces(parts[1..]);
      assert JoinSpaces(parts) == parts[0] + " " + tail;
      assert parts[1..][|parts[1..]| - 1] == parts[|parts| - 1];
    }
  }

  /** toLowerCase(Locale.ROOT) restricted to ASCII letters. */
  function LowerAscii(c: char): char {
    if 'A' <= c <= 'Z' then (c as int + 32) as char else c
  }

  function LowerRoot(s: string): (r: string)
    ensures |r| == |s|
    ensures forall i :: 0 <= i < |s| && !('A' <= s[i] <= 'Z') ==> r[i] == s[i]
    ensures forall i :: 0 <= i < |r| ==> !('A' <= r[i] <= 'Z')
    ensures forall i :: 0 <= i < |s| && 'A' <= s[i] <= 'Z' ==> r[i] as int == s[i] as int + 32
  {
    seq(|s|, i requires 0 <= i < |s| => LowerAscii(s[i]))
  }

  /** Lower-casing twice is lower-casing once. */
  lemma LowerRootIdempotent(s: string)
    ensures LowerRoot(LowerRoot(s)) == LowerRoot(s)
  {
  }

  /** The case of the typed text never matters to the prefix test. */
  lemma StartsWithIgnoresTypedCase(candidate: string, typed: string)
    ensures StartsWithIgnoreCase(candidate, LowerRoot(typed)) == StartsWithIgnoreCase(candidate, typed)
  {
    LowerRootIdempotent(typed);
  }

  /** The prefix test of tab completion: startsWith after lower-casing both sides. */
  predicate StartsWithIgnoreCase(candidate: string, typed: string) {
    StartsWith(LowerRoot(candidate), LowerRoot(typed))
  }
}
