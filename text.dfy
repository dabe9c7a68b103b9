/**
 The string primitives the remediation client relies on (Go's strings.Index,
 strings.Contains, strings.Count and strings.Replace with n = -1), stated over
 `string` = `seq<char>`. Matching is left to right and non-overlapping, as in
 Go. Split and Join are the reference view of a replace-all: the text between
 the occurrences of a pattern, and the same text glued back together.
 */
module Text {

  /** `pat` occurs in `s` starting at index `i`. */
  predicate OccursAt(s: string, pat: string, i: int)
  {
    0 <= i && i + |pat| <= |s| && s[i..i + |pat|] == pat
  }

  /** `pat` occurs somewhere in `s`: the specification of Go's strings.Contains. */
  ghost predicate Occurs(s: string, pat: string)
  {
    exists i :: OccursAt(s, pat, i)
  }

  /** Go's strings.Index: the first index at which `pat` occurs, or -1. */
  function Index(s: string, pat: string): (r: int)
    ensures -1 <= r <= |s|
    ensures r >= 0 ==> OccursAt(s, pat, r)
    ensures forall j :: 0 <= j && (r < 0 || j < r) ==> !OccursAt(s, pat, j)
    decreases |s|
  {
    if |s| < |pat| then -1
    else if s[..|pat|] == pat then 0
    else
      var k := Index(s[1..], pat);
      ShiftOccurrences(s, pat);
      if k < 0 then -1 else k + 1
  }

  /** Occurrences past the first character are the occurrences in the tail, one place later. */
  lemma ShiftOccurrences(s: string, pat: string)
    requires |s| > 0
    ensures forall j :: 1 <= j ==> (OccursAt(s, pat, j) <==> OccursAt(s[1..], pat, j - 1))
  {
    forall j | 1 <= j ensures OccursAt(s, pat, j) <==> OccursAt(s[1..], pat, j - 1) {
      if j + |pat| <= |s| {
        assert s[1..][j - 1..j - 1 + |pat|] == s[j..j + |pat|];
      }
    }
  }

  /** Go's strings.Contains, which is `Index(s, pat) >= 0`. */
  predicate Contains(s: string, pat: string)
  {
    Index(s, pat) >= 0
  }

  lemma ContainsIffOccurs(s: string, pat: string)
    ensures Contains(s, pat) <==> Occurs(s, pat)
  {
    if Contains(s, pat) {
      assert OccursAt(s, pat, Index(s, pat));
    }
  }

  /** One mismatching character rules out an occurrence at `i`. */
  lemma MismatchNotAt(s: string, pat: string, i: nat, k: nat)
    requires k < |pat| && i + k < |s| && s[i + k] != pat[k]
    ensures !OccursAt(s, pat, i)
  {
    if i + |pat| <= |s| {
      assert s[i..i + |pat|][k] == s[i + k];
    }
  }

  /** An occurrence in the tail is an occurrence in the whole, one place later. */
  lemma OccursInTail(s: string, pat: string, j: int)
    requires |s| > 0 && OccursAt(s[1..], pat, j)
    ensures OccursAt(s, pat, j + 1)
  {
    assert s[j + 1..j + 1 + |pat|] == s[1..][j..j + |pat|];
  }

  /** An occurrence in a suffix is an occurrence in the whole. */
  lemma OccursInSuffix(s: string, pat: string, d: nat, j: int)
    requires d <= |s| && OccursAt(s[d..], pat, j)
    ensures OccursAt(s, pat, j + d)
  {
    assert s[j + d..j + d + |pat|] == s[d..][j..j + |pat|];
  }

  /** Go's strings.Count: the number of non-overlapping occurrences, scanning left to right. */
  function Count(s: string, pat: string): nat
    requires |pat| > 0
    decreases |s|
  {
    if |s| < |pat| then 0
    else if s[..|pat|] == pat then 1 + Count(s[|pat|..], pat)
    else Count(s[1..], pat)
  }

  /**
   Go's strings.Replace(s, pat, rep, -1): every non-overlapping occurrence of
   `pat`, found left to right, is replaced by `rep`.
   */
  function ReplaceAll(s: string, pat: string, rep: string): string
    requires |pat| > 0
    decreases |s|
  {
    if |s| < |pat| then s
    else if s[..|pat|] == pat then rep + ReplaceAll(s[|pat|..], pat, rep)
    else [s[0]] + ReplaceAll(s[1..], pat, rep)
  }

  /** The pieces of `s` between the non-overlapping occurrences of `pat` (Go's strings.Split). */
  function Split(s: string, pat: string): (parts: seq<string>)
    requires |pat| > 0
    ensures |parts| > 0
    decreases |s|
  {
    if |s| < |pat| then [s]
    else if s[..|pat|] == pat then [""] + Split(s[|pat|..], pat)
    else
      var t := Split(s[1..], pat);
      [[s[0]] + t[0]] + t[1..]
  }

  /** The pieces glued together with `sep` between consecutive ones (Go's strings.Join). */
  function Join(parts: seq<string>, sep: string): string
    requires |parts| > 0
    decreases |parts|
  {
    if |parts| == 1 then parts[0]
    else parts[0] + sep + Join(parts[1..], sep)
  }

  /** Prepending a character to the first piece prepends it to the joined text. */
  lemma JoinConsFirst(c: char, parts: seq<string>, sep: string)
    requires |parts| > 0
    ensures Join([[c] + parts[0]] + parts[1..], sep) == [c] + Join(parts, sep)
  {
    var q := [[c] + parts[0]] + parts[1..];
    assert q[1..] == parts[1..];
  }

  /** Gluing the pieces back with the pattern gives the original text: the pieces are all the text outside the occurrences. */
  lemma {:induction false} JoinSplit(s: string, pat: string)
    requires |pat| > 0
    ensures Join(Split(s, pat), pat) == s
    decreases |s|
  {
    if |s| < |pat| {
    } else if s[..|pat|] == pat {
      var rest := s[|pat|..];
      var t := Split(rest, pat);
      JoinSplit(rest, pat);
      var parts := [""] + t;
      assert Split(s, pat) == parts;
      assert parts[1..] == t;
      assert Join(parts, pat) == "" + pat + Join(t, pat);
      assert s == s[..|pat|] + rest;
    } else {
      var t := Split(s[1..], pat);
      JoinSplit(s[1..], pat);
      JoinConsFirst(s[0], t, pat);
      assert Split(s, pat) == [[s[0]] + t[0]] + t[1..];
      assert s == [s[0]] + s[1..];
    }
  }

  /** Replace-all keeps every piece between occurrences and puts `rep` in place of each occurrence. */
  lemma {:induction false} ReplaceAllIsJoin(s: string, pat: string, rep: string)
    requires |pat| > 0
    ensures ReplaceAll(s, pat, rep) == Join(Split(s, pat), rep)
    decreases |s|
  {
    if |s| < |pat| {
    } else if s[..|pat|] == pat {
      ReplaceAllIsJoin(s[|pat|..], pat, rep);
      var t := Split(s[|pat|..], pat);
      assert Split(s, pat) == [""] + t;
      assert ReplaceAll(s, pat, rep) == rep + ReplaceAll(s[|pat|..], pat, rep);
      assert ([""] + t)[1..] == t;
    } else {
      ReplaceAllIsJoin(s[1..], pat, rep);
      var t := Split(s[1..], pat);
      assert Split(s, pat) == [[s[0]] + t[0]] + t[1..];
      assert ReplaceAll(s, pat, rep) == [s[0]] + ReplaceAll(s[1..], pat, rep);
      JoinConsFirst(s[0], t, rep);
    }
  }

  /** There is one more piece than there are occurrences. */
  lemma {:induction false} SplitCount(s: string, pat: string)
    requires |pat| > 0
    ensures |Split(s, pat)| == Count(s, pat) + 1
    decreases |s|
  {
    if |s| < |pat| {
    } else if s[..|pat|] == pat {
      SplitCount(s[|pat|..], pat);
    } else {
      SplitCount(s[1..], pat);
    }
  }

  /** The first piece is a prefix of the text. */
  lemma {:induction false} SplitFirstIsPrefix(s: string, pat: string)
    requires |pat| > 0
    ensures |Split(s, pat)[0]| <= |s| && Split(s, pat)[0] == s[..|Split(s, pat)[0]|]
    decreases |s|
  {
    if |s| < |pat| {
    } else if s[..|pat|] == pat {
    } else {
      SplitFirstIsPrefix(s[1..], pat);
      var t := Split(s[1..], pat);
      assert Split(s, pat) == [[s[0]] + t[0]] + t[1..];
      PrefixCons(s[0], t[0], s[1..]);
      assert [s[0]] + s[1..] == s;
    }
  }

  /** A prefix stays a prefix when the same character is put in front of both. */
  lemma PrefixCons(c: char, p: string, u: string)
    requires |p| <= |u| && p == u[..|p|]
    ensures [c] + p == ([c] + u)[..|p| + 1]
  {
    assert ([c] + u)[..|p| + 1] == [c] + u[..|p|];
  }

  /** A character put in front of a pattern-free text adds no occurrence unless the pattern starts right there. */
  lemma NotOccursCons(c: char, u: string, pat: string)
    requires !Occurs(u, pat)
    requires |[c] + u| < |pat| || ([c] + u)[..|pat|] != pat
    ensures !Occurs([c] + u, pat)
  {
    var w := [c] + u;
    forall j | 0 < j && j + |pat| <= |w| ensures !OccursAt(w, pat, j) {
      assert w[j..j + |pat|] == u[j - 1..j - 1 + |pat|];
      assert !OccursAt(u, pat, j - 1);
    }
  }

  /** No piece contains the pattern: every occurrence in the text was taken as a separator. */
  lemma {:induction false} SplitPiecesFree(s: string, pat: string)
    requires |pat| > 0
    ensures forall k :: 0 <= k < |Split(s, pat)| ==> !Occurs(Split(s, pat)[k], pat)
    decreases |s|
  {
    var parts := Split(s, pat);
    if |s| < |pat| {
      assert parts == [s];
      assert forall j :: !OccursAt(s, pat, j);
    } else if s[..|pat|] == pat {
      SplitPiecesFree(s[|pat|..], pat);
      var t := Split(s[|pat|..], pat);
      assert parts == [""] + t;
      assert forall j :: !OccursAt("", pat, j);
      forall k | 0 < k < |parts| ensures !Occurs(parts[k], pat) {
        assert parts[k] == t[k - 1];
      }
    } else {
      SplitPiecesFree(s[1..], pat);
      var t := Split(s[1..], pat);
      SplitFirstIsPrefix(s[1..], pat);
      var first := [s[0]] + t[0];
      assert parts == [first] + t[1..];
      assert first == s[..|first|];
      assert |first| >= |pat| ==> first[..|pat|] == s[..|pat|];
      NotOccursCons(s[0], t[0], pat);
      forall k | 0 < k < |parts| ensures !Occurs(parts[k], pat) {
        assert parts[k] == t[k];
      }
    }
  }

  /** The count is zero exactly when the pattern does not occur. */
  lemma CountZeroIffAbsent(s: string, pat: string)
    requires |pat| > 0
    ensures Count(s, pat) == 0 <==> !Occurs(s, pat)
  {
    var parts := Split(s, pat);
    SplitCount(s, pat);
    JoinSplit(s, pat);
    SplitPiecesFree(s, pat);
    if |parts| == 1 {
      assert Join(parts, pat) == parts[0];
      assert !Occurs(parts[0], pat);
    } else {
      var n := |parts[0]|;
      assert s == parts[0] + pat + Join(parts[1..], pat);
      assert s[n..n + |pat|] == pat;
      assert OccursAt(s, pat, n);
    }
  }

  /** With no occurrence, replace-all returns its input unchanged. */
  lemma ReplaceAllAbsent(s: string, pat: string, rep: string)
    requires |pat| > 0 && !Occurs(s, pat)
    ensures ReplaceAll(s, pat, rep) == s
  {
    SplitCount(s, pat);
    CountZeroIffAbsent(s, pat);
    ReplaceAllIsJoin(s, pat, rep);
    JoinSplit(s, pat);
  }

  /** The length grows by (|rep| - |pat|) for each occurrence replaced. */
  lemma {:induction false} ReplaceAllLength(s: string, pat: string, rep: string)
    requires |pat| > 0
    ensures |ReplaceAll(s, pat, rep)| == |s| + Count(s, pat) * (|rep| - |pat|)
    decreases |s|
  {
    if |s| < |pat| {
    } else if s[..|pat|] == pat {
      var rest := s[|pat|..];
      ReplaceAllLength(rest, pat, rep);
      assert Count(s, pat) == Count(rest, pat) + 1;
      assert ReplaceAll(s, pat, rep) == rep + ReplaceAll(rest, pat, rep);
      assert (Count(rest, pat) + 1) * (|rep| - |pat|) == Count(rest, pat) * (|rep| - |pat|) + (|rep| - |pat|);
    } else {
      ReplaceAllLength(s[1..], pat, rep);
    }
  }

  /**
   The step Go's strings.Replace takes: find the first occurrence with
   strings.Index, copy the text before it, write `rep`, and carry on after the
   occurrence.
   */
  lemma ReplaceAllAtFirst(s: string, pat: string, rep: string, i: nat)
    requires |pat| > 0
    requires OccursAt(s, pat, i) && forall j :: 0 <= j < i ==> !OccursAt(s, pat, j)
    ensures ReplaceAll(s, pat, rep) == s[..i] + rep + ReplaceAll(s[i + |pat|..], pat, rep)
  {
    ReplaceAllCopies(s, pat, rep, i);
    assert s[i..][..|pat|] == s[i..i + |pat|];
    ReplaceAllHit(s[i..], pat, rep);
    assert s[i..][|pat|..] == s[i + |pat|..];
  }

  /** Replace-all copies a prefix in which no occurrence starts. */
  lemma {:induction false} ReplaceAllCopies(s: string, pat: string, rep: string, k: nat)
    requires |pat| > 0 && k <= |s| && forall j :: 0 <= j < k ==> !OccursAt(s, pat, j)
    ensures ReplaceAll(s, pat, rep) == s[..k] + ReplaceAll(s[k..], pat, rep)
    decreases k
  {
    if k == 0 {
      assert s[..0] == [] && s[0..] == s;
    } else {
      ReplaceAllCopies(s, pat, rep, k - 1);
      var u := s[k - 1..];
      assert !OccursAt(u, pat, 0) by {
        assert !OccursAt(s, pat, k - 1);
        if |pat| <= |u| { assert u[..|pat|] == s[k - 1..k - 1 + |pat|]; }
      }
      ReplaceAllSkip(u, pat, rep);
      assert u[1..] == s[k..];
      assert s[..k - 1] + [u[0]] == s[..k];
    }
  }

  /** Where the pattern starts, replace-all writes the replacement and skips the occurrence. */
  lemma ReplaceAllHit(s: string, pat: string, rep: string)
    requires |pat| > 0 && |s| >= |pat| && s[..|pat|] == pat
    ensures ReplaceAll(s, pat, rep) == rep + ReplaceAll(s[|pat|..], pat, rep)
  {
  }

  /** Where the pattern does not start, replace-all copies the first character. */
  lemma ReplaceAllSkip(u: string, pat: string, rep: string)
    requires |pat| > 0 && |u| > 0 && !OccursAt(u, pat, 0)
    ensures ReplaceAll(u, pat, rep) == [u[0]] + ReplaceAll(u[1..], pat, rep)
  {
    if |u| >= |pat| {
      assert u[..|pat|] != pat;
    } else {
      assert u == [u[0]] + u[1..];
    }
  }

  /** One more copy of `d`; kept apart so that the nonlinear step stays cheap inside `ReplaceAllGrows`. */
  lemma MulSucc(c: nat, d: int)
    ensures (c + 1) * d == c * d + d
  {
  }

  /** Replacing a present pattern by a longer text makes the text longer. */
  lemma ReplaceAllGrows(s: string, pat: string, rep: string)
    requires |pat| > 0 && |rep| > |pat| && Occurs(s, pat)
    ensures |ReplaceAll(s, pat, rep)| > |s|
  {
    CountZeroIffAbsent(s, pat);
    ReplaceAllLength(s, pat, rep);
    var c := Count(s, pat);
    var d := |rep| - |pat|;
    MulSucc(c - 1, d);
  }

  /** A single occurrence is replaced and everything around it kept. */
  lemma ReplaceAllOne(s: string, pat: string, rep: string, i: nat)
    requires |pat| > 0
    requires OccursAt(s, pat, i) && forall j :: 0 <= j < i ==> !OccursAt(s, pat, j)
    requires !Occurs(s[i + |pat|..], pat)
    ensures ReplaceAll(s, pat, rep) == s[..i] + rep + s[i + |pat|..]
  {
    ReplaceAllAbsent(s[i + |pat|..], pat, rep);
    ReplaceAllAtFirst(s, pat, rep, i);
  }

  /** After the first of two occurrences, the rest holds exactly one, which is replaced. */
  lemma ReplaceAllAfterFirst(s: string, pat: string, rep: string, i: nat, i2: nat)
    requires |pat| > 0
    requires OccursAt(s, pat, i2) && i + |pat| <= i2
    requires forall j :: i + |pat| <= j < i2 ==> !OccursAt(s, pat, j)
    requires !Occurs(s[i2 + |pat|..], pat)
    ensures ReplaceAll(s[i + |pat|..], pat, rep) == s[i + |pat|..i2] + rep + s[i2 + |pat|..]
  {
    var n := |pat|;
    var rest := s[i + n..];
    var m := i2 - (i + n);
    assert OccursAt(rest, pat, m) by {
      assert rest[m..m + n] == s[i2..i2 + n];
    }
    forall j | 0 <= j < m ensures !OccursAt(rest, pat, j) {
      if OccursAt(rest, pat, j) { OccursInSuffix(s, pat, i + n, j); }
    }
    assert rest[m + n..] == s[i2 + n..];
    ReplaceAllOne(rest, pat, rep, m);
    assert rest[..m] == s[i + n..i2];
  }

  /** Two occurrences with no other before, between or after them are both replaced, by the same text. */
  lemma ReplaceAllTwo(s: string, pat: string, rep: string, i: nat, i2: nat)
    requires |pat| > 0
    requires OccursAt(s, pat, i) && OccursAt(s, pat, i2) && i + |pat| <= i2
    requires forall j :: 0 <= j < i ==> !OccursAt(s, pat, j)
    requires forall j :: i + |pat| <= j < i2 ==> !OccursAt(s, pat, j)
    requires !Occurs(s[i2 + |pat|..], pat)
    ensures ReplaceAll(s, pat, rep) == s[..i] + rep + s[i + |pat|..i2] + rep + s[i2 + |pat|..]
  {
    var n := |pat|;
    ReplaceAllAfterFirst(s, pat, rep, i, i2);
    ReplaceAllAtFirst(s, pat, rep, i);
    ConcatAssoc(s[..i] + rep, s[i + n..i2], rep, s[i2 + n..]);
  }

  /** Regrouping a four-part concatenation; kept apart so that the step stays cheap inside `ReplaceAllTwo`. */
  lemma ConcatAssoc(a: string, b: string, r: string, c: string)
    ensures a + (b + r + c) == a + b + r + c
  {
  }
}
