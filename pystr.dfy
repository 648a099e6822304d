/** The handful of Python `str` methods the request handler relies on:
    `isspace`, `lower`, `strip`, `find` and `replace("**:", "**")`.
    Strings are sequences of characters; `lower` is taken to be the ASCII,
    length-preserving map (see README, "Left out"). */
module PyStr {

  /** `c.isspace()` for the characters Python's `str.strip()` removes. */
  predicate IsSpace(c: char)
    ensures c == ' ' || c == '\t' || c == '\n' || c == '\r' ==> IsSpace(c)
    ensures IsSpace(c) ==> c != '*' && !('0' <= c <= '9') && !('A' <= c <= 'Z') && !('a' <= c <= 'z')
  {
    var n := c as int;
    (9 <= n <= 13) || (28 <= n <= 32) || n == 0x85 || n == 0xA0 || n == 0x1680 ||
    (0x2000 <= n <= 0x200A) || n == 0x2028 || n == 0x2029 || n == 0x202F ||
    n == 0x205F || n == 0x3000
  }

  predicate AllSpace(s: string)
  {
    forall i :: 0 <= i < |s| ==> IsSpace(s[i])
  }

  /** `c.lower()` restricted to the ASCII upper-case letters. */
  function LowerChar(c: char): (d: char)
    ensures 'A' <= c <= 'Z' ==> d as int == c as int + 32
    ensures !('A' <= c <= 'Z') ==> d == c
    ensures !('A' <= d <= 'Z')
  {
    if 'A' <= c <= 'Z' then (c as int + 32) as char else c
  }

  /** `s.lower()`: one character in, one character out. */
  function Lower(s: string): (r: string)
    ensures |r| == |s|
    ensures forall i :: 0 <= i < |s| ==> r[i] == LowerChar(s[i])
  {
    seq(|s|, i requires 0 <= i < |s| => LowerChar(s[i]))
  }

  /** `s[i:j]` for non-negative bounds: Python clamps both bounds to the
      length and yields the empty string when they cross, so it never fails. */
  function Slice(s: string, i: nat, j: nat): (r: string)
    ensures i <= j <= |s| ==> r == s[i..j]
    ensures |s| <= i || j <= i ==> r == []
    ensures i <= |s| <= j ==> r == s[i..]
  {
    var lo := if i <= |s| then i else |s|;
    var hi := if j <= |s| then j else |s|;
    if hi <= lo then [] else s[lo..hi]
  }

  /** `pat` occurs in `s` starting at index `i`. */
  predicate OccursAt(s: string, pat: string, i: int)
  {
    0 <= i && i + |pat| <= |s| && s[i..i + |pat|] == pat
  }

  ghost predicate Contains(s: string, pat: string)
  {
    exists i :: OccursAt(s, pat, i)
  }

  /** `pat` occurs at `i`, compared one character at a time. */
  predicate MatchesAt(s: string, pat: string, i: nat)
    decreases |pat|
  {
    i <= |s| && (pat == [] || (i < |s| && s[i] == pat[0] && MatchesAt(s, pat[1..], i + 1)))
  }

  lemma {:induction false} MatchesAtMeaning(s: string, pat: string, i: nat)
    ensures MatchesAt(s, pat, i) <==> OccursAt(s, pat, i)
    decreases |pat|
  {
    if pat != [] && i < |s| {
      MatchesAtMeaning(s, pat[1..], i + 1);
      if OccursAt(s, pat, i) {
        assert s[i + 1..i + |pat|] == s[i..i + |pat|][1..];
      }
      if OccursAt(s, pat[1..], i + 1) && s[i] == pat[0] {
        assert s[i..i + |pat|] == [s[i]] + s[i + 1..i + |pat|];
      }
    }
  }

  /** `s.find(pat, from)`: the first index at or after `from` where `pat`
      occurs, or -1 when there is none. */
  function Find(s: string, pat: string, from: nat): (r: int)
    ensures r == -1 || from <= r
    decreases |s| - from
  {
    if from + |pat| > |s| then -1
    else if MatchesAt(s, pat, from) then from
    else Find(s, pat, from + 1)
  }

  /** `find` returns the first occurrence at or after `from`, and -1 only
      when there is none. */
  lemma {:induction false} FindMeaning(s: string, pat: string, from: nat)
    ensures var r := Find(s, pat, from);
      (r == -1 || (from <= r && OccursAt(s, pat, r))) &&
      (r == -1 ==> forall i :: from <= i ==> !OccursAt(s, pat, i)) &&
      (r != -1 ==> forall i :: from <= i < r ==> !OccursAt(s, pat, i))
    decreases |s| - from
  {
    MatchesAtMeaning(s, pat, from);
    if from + |pat| <= |s| && !MatchesAt(s, pat, from) {
      FindMeaning(s, pat, from + 1);
    }
  }

  /** The first occurrence at or after `from` is what `find` returns. */
  lemma FindFirst(s: string, pat: string, from: nat, at: nat)
    requires from <= at && OccursAt(s, pat, at)
    requires forall i :: from <= i < at ==> !OccursAt(s, pat, i)
    ensures Find(s, pat, from) == at
  {
    FindMeaning(s, pat, from);
  }

  /** `s.lstrip()` */
  function TrimStart(s: string): string
  {
    if s != [] && IsSpace(s[0]) then TrimStart(s[1..]) else s
  }

  /** `s.rstrip()` */
  function TrimEnd(s: string): string
  {
    if s != [] && IsSpace(s[|s| - 1]) then TrimEnd(s[..|s| - 1]) else s
  }

  /** `lstrip()` drops exactly the leading whitespace. */
  lemma {:induction false} TrimStartMeaning(s: string)
    ensures var r := TrimStart(s);
      |r| <= |s| && r == s[|s| - |r|..] &&
      (forall k :: 0 <= k < |s| - |r| ==> IsSpace(s[k])) &&
      (r != [] ==> !IsSpace(r[0]))
  {
    if s != [] && IsSpace(s[0]) {
      var t := s[1..];
      TrimStartMeaning(t);
      var r := TrimStart(t);
      assert t[|t| - |r|..] == s[|s| - |r|..];
      forall k | 0 <= k < |s| - |r|
        ensures IsSpace(s[k])
      {
        if k > 0 {
          assert s[k] == t[k - 1];
        }
      }
    }
  }

  /** `rstrip()` drops exactly the trailing whitespace. */
  lemma {:induction false} TrimEndMeaning(s: string)
    ensures var r := TrimEnd(s);
      |r| <= |s| && r == s[..|r|] &&
      (forall k :: |r| <= k < |s| ==> IsSpace(s[k])) &&
      (r != [] ==> !IsSpace(r[|r| - 1]))
  {
    if s != [] && IsSpace(s[|s| - 1]) {
      TrimEndMeaning(s[..|s| - 1]);
    }
  }

  /** `s.strip()` */
  function Strip(s: string): (r: string)
    ensures |r| <= |s|
    ensures r != [] ==> !IsSpace(r[0]) && !IsSpace(r[|r| - 1])
  {
    TrimStartMeaning(s);
    TrimEndMeaning(TrimStart(s));
    TrimEnd(TrimStart(s))
  }

  /** `strip()` returns the empty string exactly for a blank string. */
  lemma StripBlank(s: string)
    ensures Strip(s) == [] <==> AllSpace(s)
  {
    var t := TrimStart(s);
    TrimStartMeaning(s);
    TrimEndMeaning(t);
    if TrimEnd(t) != [] {
      assert !IsSpace(s[|s| - |t| + |TrimEnd(t)| - 1]);
    }
  }

  /** Otherwise `strip()` returns the piece of `s` that starts at `lstrip`'s
      cut, neither starts nor ends with whitespace, and has only whitespace
      on either side. */
  lemma StripMeaning(s: string)
    ensures var r, i := Strip(s), |s| - |TrimStart(s)|;
      OccursAt(s, r, i) && AllSpace(s[..i]) && AllSpace(s[i + |r|..]) &&
      (r != [] ==> !IsSpace(r[0]) && !IsSpace(r[|r| - 1]))
  {
    var t := TrimStart(s);
    var r := TrimEnd(t);
    TrimStartMeaning(s);
    TrimEndMeaning(t);
    var i := |s| - |t|;
    assert t == s[i..] && r == t[..|r|];
    assert s[i..i + |r|] == r;
    forall k | 0 <= k < i ensures IsSpace(s[..i][k]) {
      assert s[..i][k] == s[k];
    }
    var tail := s[i + |r|..];
    forall k | 0 <= k < |tail| ensures IsSpace(tail[k]) {
      assert tail[k] == t[|r| + k];
    }
  }

  /** The stripped slice `s[lo..hi]` sits at the returned index `a` of `s`. */
  lemma StripInSlice(s: string, lo: nat, hi: nat) returns (a: nat)
    requires lo <= hi <= |s|
    ensures var v := Strip(s[lo..hi]);
      lo <= a && a + |v| <= hi && s[a..a + |v|] == v &&
      (v != [] ==> !IsSpace(v[0]) && !IsSpace(v[|v| - 1]))
  {
    var slice := s[lo..hi];
    var v := Strip(slice);
    StripMeaning(slice);
    var i := |slice| - |TrimStart(slice)|;
    assert OccursAt(slice, v, i);
    SliceOfSlice(s, lo, hi, i, i + |v|);
    a := lo + i;
  }

  lemma SliceOfSlice(s: string, lo: nat, hi: nat, i: nat, j: nat)
    requires lo <= hi <= |s| && i <= j <= hi - lo
    ensures s[lo..hi][i..j] == s[lo + i..lo + j]
  {
    forall k | 0 <= k < j - i
      ensures s[lo..hi][i..j][k] == s[lo + i..lo + j][k]
    {
      assert s[lo..hi][i..j][k] == s[lo + i + k];
    }
  }

  /** `s.replace("**:", "**")`: one left-to-right pass over `s` that
      replaces each non-overlapping occurrence of `**:` by `**`. */
  function NormalizeColons(s: string): (r: string)
    ensures |r| <= |s|
  {
    if StartsColonBold(s) then "**" + NormalizeColons(s[3..])
    else if s == [] then []
    else [s[0]] + NormalizeColons(s[1..])
  }

  /** Each `**:` becomes `**`: a cut just before an occurrence splits the
      pass in two, since no occurrence of `**:` can reach across the cut
      (the pattern does not overlap itself). */
  lemma {:induction false} NormalizeSplit(a: string, b: string)
    ensures NormalizeColons(a + "**:" + b) == NormalizeColons(a) + "**" + NormalizeColons(b)
    decreases |a|
  {
    if a == [] {
      var s := a + "**:" + b;
      assert StartsColonBold(s) && s[3..] == b;
    } else if StartsColonBold(a) {
      NormalizeSplit(a[3..], b);
      SplitAfterPattern(a, b);
    } else {
      NormalizeSplit(a[1..], b);
      SplitAfterChar(a, b);
    }
  }

  /** The step of NormalizeSplit when `a` starts with `**:`. */
  lemma SplitAfterPattern(a: string, b: string)
    requires StartsColonBold(a)
    requires NormalizeColons(a[3..] + "**:" + b) == NormalizeColons(a[3..]) + "**" + NormalizeColons(b)
    ensures NormalizeColons(a + "**:" + b) == NormalizeColons(a) + "**" + NormalizeColons(b)
  {
    var s := a + "**:" + b;
    assert StartsColonBold(s);
    assert s[3..] == a[3..] + "**:" + b;
  }

  /** The step of NormalizeSplit when `a` starts with anything else. */
  lemma SplitAfterChar(a: string, b: string)
    requires a != [] && !StartsColonBold(a)
    requires NormalizeColons(a[1..] + "**:" + b) == NormalizeColons(a[1..]) + "**" + NormalizeColons(b)
    ensures NormalizeColons(a + "**:" + b) == NormalizeColons(a) + "**" + NormalizeColons(b)
  {
    var s := a + "**:" + b;
    var rest, nb := NormalizeColons(a[1..]), NormalizeColons(b);
    assert NormalizeColons(s) == [a[0]] + (rest + "**" + nb) by {
      NoColonBoldAcross(a, b);
      assert s[1..] == a[1..] + "**:" + b;
    }
    assert NormalizeColons(a) == [a[0]] + rest;
    assert [a[0]] + (rest + "**" + nb) == ([a[0]] + rest) + "**" + nb;
  }

  /** `s` starts with `**:`, tested one character at a time. */
  predicate StartsColonBold(s: string)
  {
    |s| >= 3 && s[0] == '*' && s[1] == '*' && s[2] == ':'
  }

  /** No `**:` starts inside a non-empty `a` that does not itself start
      with one and reaches into a following `**:`. */
  lemma NoColonBoldAcross(a: string, b: string)
    requires a != [] && !StartsColonBold(a)
    ensures !StartsColonBold(a + "**:" + b)
  {
    var s := a + "**:" + b;
    if |a| < 3 {
      assert s[2] == '*';
    } else {
      assert s[0] == a[0] && s[1] == a[1] && s[2] == a[2];
    }
  }

  /** The character test agrees with an occurrence of `**:` at 0. */
  lemma ColonBoldOccurs(s: string)
    ensures StartsColonBold(s) ==> OccursAt(s, "**:", 0)
  {
    if StartsColonBold(s) {
      assert s[..3] == "**:";
    }
  }

  /** `s` with every colon deleted. */
  function DropColons(s: string): string
  {
    if s == [] then []
    else (if s[0] == ':' then [] else [s[0]]) + DropColons(s[1..])
  }

  /** Lower-casing commutes with slicing, which is what lets the handler
      search the lower-cased copy and cut the original at the same indices. */
  lemma LowerSlice(s: string, i: nat, j: nat)
    requires i <= j <= |s|
    ensures Lower(s[i..j]) == Lower(s)[i..j]
  {
  }

  /** An occurrence inside a slice is an occurrence in the whole string. */
  lemma OccursInSlice(s: string, pat: string, a: nat, b: nat, k: int)
    requires a <= b <= |s|
    ensures OccursAt(s[a..b], pat, k) ==> OccursAt(s, pat, a + k)
  {
    if OccursAt(s[a..b], pat, k) {
      forall j | 0 <= j < |pat|
        ensures s[a + k..a + k + |pat|][j] == pat[j]
      {
        assert s[a..b][k..k + |pat|][j] == pat[j];
      }
    }
  }

  /** Lower-casing neither creates nor removes a `**`. */
  lemma LowerKeepsBold(s: string)
    ensures Contains(Lower(s), "**") <==> Contains(s, "**")
  {
    var l := Lower(s);
    if Contains(l, "**") {
      var i :| OccursAt(l, "**", i);
      assert l[i] == l[i..i + 2][0] == '*';
      assert l[i + 1] == l[i..i + 2][1] == '*';
      assert s[i..i + 2] == [s[i], s[i + 1]] == "**";
      assert OccursAt(s, "**", i);
    }
    if Contains(s, "**") {
      var i :| OccursAt(s, "**", i);
      assert s[i] == s[i..i + 2][0] == '*';
      assert s[i + 1] == s[i..i + 2][1] == '*';
      assert l[i..i + 2] == [l[i], l[i + 1]] == "**";
      assert OccursAt(l, "**", i);
    }
  }

  /** A text without `**:` is left as it is by the colon normalisation. */
  lemma {:induction false} NormalizeWithoutPattern(s: string)
    requires !Contains(s, "**:")
    ensures NormalizeColons(s) == s
  {
    assert !OccursAt(s, "**:", 0);
    ColonBoldOccurs(s);
    if s != [] {
      assert !Contains(s[1..], "**:") by {
        if Contains(s[1..], "**:") {
          var i :| OccursAt(s[1..], "**:", i);
          assert s[1..][i..i + 3] == s[i + 1..i + 4];
          assert OccursAt(s, "**:", i + 1);
        }
      }
      NormalizeWithoutPattern(s[1..]);
    }
  }

  /** The normalisation deletes colons and nothing else. */
  lemma {:induction false} NormalizeOnlyDropsColons(s: string)
    ensures DropColons(NormalizeColons(s)) == DropColons(s)
  {
    if StartsColonBold(s) {
      assert s[..3] == "**:";
      NormalizeOnlyDropsColons(s[3..]);
      DropColonsAppend("**", NormalizeColons(s[3..]));
      assert s == s[..3] + s[3..];
      DropColonsAppend(s[..3], s[3..]);
      assert DropColons(s[..3]) == "**" == DropColons("**") by {
        var t := s[..3];
        assert t[2..] == [':'] && t[2..][1..] == [];
        assert DropColons(t[2..]) == [];
        assert t[1..][1..] == t[2..] && t[1..][0] == '*';
        assert DropColons(t[1..]) == "*";
        assert "**"[1..][1..] == [];
      }
    } else if s != [] {
      NormalizeOnlyDropsColons(s[1..]);
      DropColonsAppend([s[0]], NormalizeColons(s[1..]));
    }
  }

  lemma {:induction false} DropColonsAppend(a: string, b: string)
    ensures DropColons(a + b) == DropColons(a) + DropColons(b)
  {
    if a == [] {
      assert a + b == b;
    } else {
      assert (a + b)[0] == a[0] && (a + b)[1..] == a[1..] + b;
      DropColonsAppend(a[1..], b);
    }
  }
}
