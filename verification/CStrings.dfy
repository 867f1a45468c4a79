/** Substring search as `strstr` does it, and when a pattern can be found where it was put. */
module CStrings {

  predicate OccursAt(s: string, i: nat, pattern: string) {
    i + |pattern| <= |s| && s[i..i + |pattern|] == pattern
  }

  /** `strstr` from position `p` on: the first occurrence, or -1 for NULL. */
  function Find(s: string, pattern: string, p: nat): (r: int)
    ensures r == -1 || (p <= r && OccursAt(s, r, pattern))
    ensures forall i: nat :: p <= i && (r == -1 || i < r) ==> !OccursAt(s, i, pattern)
    decreases |s| - p
  {
    if |s| < p + |pattern| then -1
    else if OccursAt(s, p, pattern) then p
    else Find(s, pattern, p + 1)
  }

  /** The text of the C string that memory holds: what precedes the first NUL. */
  function TextOf(memory: string): (t: string)
    ensures |t| <= |memory| && t == memory[..|t|] && '\0' !in t
    ensures |t| < |memory| ==> memory[|t|] == '\0'
  {
    if memory == "" || memory[0] == '\0' then ""
    else
      var rest := TextOf(memory[1..]);
      assert memory[..|rest| + 1] == [memory[0]] + memory[1..][..|rest|];
      [memory[0]] + rest
  }

  /** A part of memory from its start belongs to the text if and only if it is free of NULs. */
  lemma TextReaches(memory: string, n: nat)
    requires n <= |memory|
    ensures n <= |TextOf(memory)| <==> '\0' !in memory[..n]
  {
    var t := TextOf(memory);
    if n <= |t| {
      assert forall i :: 0 <= i < n ==> memory[..n][i] == t[i];
    } else {
      assert memory[..n][|t|] == '\0';
    }
  }

  /** What follows a terminator does not matter. */
  lemma TextEnds(memory: string, n: nat)
    requires n < |memory| && memory[n] == '\0'
    ensures TextOf(memory) == TextOf(memory[..n])
  {
    var t, u := TextOf(memory), TextOf(memory[..n]);
    TextReaches(memory, |u|);
    assert memory[..|u|] == memory[..n][..|u|];
    assert |u| == n || memory[|u|] == '\0';
  }

  /** A search in the first part of a string finds what the search in the string finds, if it lies in
      that part. */
  lemma FindInPart(s: string, m: nat, pattern: string, p: nat)
    requires m <= |s|
    ensures var r := Find(s, pattern, p);
      Find(s[..m], pattern, p) == if r != -1 && r + |pattern| <= m then r else -1
  {
    var r, part := Find(s, pattern, p), s[..m];
    forall i: nat | i + |pattern| <= m ensures OccursAt(part, i, pattern) <==> OccursAt(s, i, pattern) {
      assert part[i..i + |pattern|] == s[i..i + |pattern|];
    }
    if r != -1 && r + |pattern| <= m {
      assert OccursAt(part, r, pattern);
      FindIs(part, pattern, p, r);
    }
  }

  /** The pattern does not occur in the string. */
  ghost predicate Free(s: string, pattern: string) {
    forall i: nat :: !OccursAt(s, i, pattern)
  }

  /** No proper suffix of the pattern is a prefix of it. */
  predicate Borderless(pattern: string) {
    forall d :: 0 < d < |pattern| ==> pattern[d..] != pattern[..|pattern| - d]
  }

  /** The first occurrence is determined by what it is. */
  lemma FindIs(s: string, pattern: string, p: nat, r: nat)
    requires p <= r && OccursAt(s, r, pattern)
    requires forall i: nat :: p <= i < r ==> !OccursAt(s, i, pattern)
    ensures Find(s, pattern, p) == r
  {
  }

  lemma OccursShifted(s: string, i: nat, pattern: string, p: nat)
    requires p <= |s|
    ensures OccursAt(s[p..], i, pattern) <==> OccursAt(s, p + i, pattern)
  {
    if p + i + |pattern| <= |s| {
      assert s[p..][i..i + |pattern|] == s[p + i..p + i + |pattern|];
    }
  }

  /** Searching from a position is searching the rest. */
  lemma FindShift(s: string, pattern: string, p: nat)
    requires p <= |s|
    ensures Find(s, pattern, p) == if Find(s[p..], pattern, 0) == -1 then -1 else p + Find(s[p..], pattern, 0)
  {
    var r := Find(s[p..], pattern, 0);
    if r == -1 {
      forall i: nat | p <= i ensures !OccursAt(s, i, pattern) {
        OccursShifted(s, i - p, pattern, p);
      }
    } else {
      OccursShifted(s, r, pattern, p);
      forall i: nat | p <= i < p + r ensures !OccursAt(s, i, pattern) {
        OccursShifted(s, i - p, pattern, p);
      }
      FindIs(s, pattern, p, p + r);
    }
  }

  lemma OccursChars(s: string, i: nat, pattern: string)
    requires OccursAt(s, i, pattern)
    ensures forall k :: 0 <= k < |pattern| ==> s[i + k] == pattern[k]
  {
    forall k | 0 <= k < |pattern| ensures s[i + k] == pattern[k] {
      assert s[i..i + |pattern|][k] == s[i + k];
    }
  }

  /** Overlapping occurrences make a border. */
  lemma OverlapIsBorder(s: string, pattern: string, i: nat, d: nat)
    requires OccursAt(s, i, pattern) && OccursAt(s, i + d, pattern) && d < |pattern|
    ensures pattern[d..] == pattern[..|pattern| - d]
  {
    OccursChars(s, i, pattern);
    OccursChars(s, i + d, pattern);
    forall k | 0 <= k < |pattern| - d ensures pattern[d..][k] == pattern[k] {
      assert s[i + (d + k)] == pattern[d + k];
      assert s[i + d + k] == pattern[k];
    }
  }

  /** Two occurrences of a borderless pattern do not overlap. */
  lemma NoOverlap(s: string, pattern: string, i: nat, j: nat)
    requires Borderless(pattern) && OccursAt(s, i, pattern) && OccursAt(s, j, pattern) && i < j
    ensures i + |pattern| <= j
  {
    if j < i + |pattern| {
      OverlapIsBorder(s, pattern, i, j - i);
    }
  }

  /** A borderless pattern is found first where it was put, if what precedes is free of it. */
  lemma FindsFirst(a: string, pattern: string, rest: string)
    requires Free(a, pattern) && Borderless(pattern) && pattern != ""
    ensures Find(a + pattern + rest, pattern, 0) == |a|
  {
    var s := a + pattern + rest;
    assert OccursAt(s, |a|, pattern) by {
      assert s[|a|..|a| + |pattern|] == pattern;
    }
    forall i: nat | i < |a| ensures !OccursAt(s, i, pattern) {
      if OccursAt(s, i, pattern) {
        NoOverlap(s, pattern, i, |a|);
        assert a[i..i + |pattern|] == s[i..i + |pattern|];
        assert OccursAt(a, i, pattern);
      }
    }
    FindIs(s, pattern, 0, |a|);
  }

  lemma OccursHas(s: string, i: nat, pattern: string, k: nat)
    requires OccursAt(s, i, pattern) && k < |pattern|
    ensures s[i + k] == pattern[k] && s[i + k] in pattern && s[i + k] in s
  {
    OccursChars(s, i, pattern);
  }

  /** Strings free of a pattern can be joined by a character that is not in it. */
  lemma FreeJoin(a: string, c: char, b: string, pattern: string)
    requires Free(a, pattern) && Free(b, pattern) && c !in pattern && pattern != ""
    ensures Free(a + [c] + b, pattern)
  {
    var s := a + [c] + b;
    forall i: nat ensures !OccursAt(s, i, pattern) {
      if OccursAt(s, i, pattern) {
        if i + |pattern| <= |a| {
          assert a[i..i + |pattern|] == s[i..i + |pattern|];
          assert OccursAt(a, i, pattern);
        } else if |a| < i {
          assert b[i - |a| - 1..i - |a| - 1 + |pattern|] == s[i..i + |pattern|];
          assert OccursAt(b, i - |a| - 1, pattern);
        } else {
          OccursHas(s, i, pattern, |a| - i);
        }
      }
    }
  }

  /** A string shares no character with the pattern's first one. */
  lemma FreeOf(s: string, pattern: string)
    requires pattern != "" && pattern[0] !in s
    ensures Free(s, pattern)
  {
    forall i: nat ensures !OccursAt(s, i, pattern) {
      if OccursAt(s, i, pattern) {
        OccursHas(s, i, pattern, 0);
      }
    }
  }
}
