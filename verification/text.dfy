/**
 Python's `str.find` and `str.replace`, for a non-empty needle, over `string`
 (a `seq<char>`). Every needle the mailer uses is a placeholder `{{column}}`,
 which is never empty.
 */
module Text {
  import opened Wrappers

  /** `pat` occurs in `s` starting at index `i`. */
  predicate OccursAt(s: string, pat: string, i: int)
  {
    0 <= i && i + |pat| <= |s| && s[i..i + |pat|] == pat
  }

  /** `pat` occurs somewhere in `s`. */
  predicate Occurs(s: string, pat: string)
  {
    exists i :: 0 <= i <= |s| && OccursAt(s, pat, i)
  }

  /** Python `s.find(pat)`: the leftmost index at which `pat` occurs, if any. */
  function Find(s: string, pat: string): (r: Option<nat>)
    requires pat != []
    ensures r.Some? ==> r.value + |pat| <= |s|
    decreases |s|
  {
    if |s| < |pat| then None
    else if s[..|pat|] == pat then Some(0)
    else
      match Find(s[1..], pat)
      case None => None
      case Some(i) => Some(i + 1)
  }

  /**
   `Find` answers the leftmost occurrence: there is one at the index it
   returns and none before it, and it answers None exactly when `pat` does
   not occur at all.
   */
  lemma {:induction false} FindIsLeftmost(s: string, pat: string)
    requires pat != []
    ensures Find(s, pat).Some? ==> OccursAt(s, pat, Find(s, pat).value)
    ensures Find(s, pat).Some? ==> forall j :: 0 <= j < Find(s, pat).value ==> !OccursAt(s, pat, j)
    ensures Find(s, pat).None? <==> !Occurs(s, pat)
    decreases |s|
  {
    if |s| < |pat| {
    } else if s[..|pat|] == pat {
      assert OccursAt(s, pat, 0);
    } else {
      FindIsLeftmost(s[1..], pat);
      ShiftOccurrence(s, pat);
    }
  }

  /**
   When `s` does not start with `pat`, its occurrences are exactly those of
   `s[1..]`, one place further on.
   */
  lemma ShiftOccurrence(s: string, pat: string)
    requires |s| >= 1
    ensures forall j :: 0 <= j ==> (OccursAt(s[1..], pat, j) <==> OccursAt(s, pat, j + 1))
    ensures forall j :: 1 <= j ==> (OccursAt(s, pat, j) <==> OccursAt(s[1..], pat, j - 1))
    ensures |s| >= |pat| ==> (OccursAt(s, pat, 0) <==> s[..|pat|] == pat)
    ensures !OccursAt(s, pat, 0) ==> (Occurs(s, pat) <==> Occurs(s[1..], pat))
  {
    forall j | 0 <= j
      ensures OccursAt(s[1..], pat, j) <==> OccursAt(s, pat, j + 1)
    {
      if j + |pat| <= |s| - 1 {
        SliceOfTail(s, j + 1, j + 1 + |pat|);
      }
    }
    forall j | 1 <= j
      ensures OccursAt(s, pat, j) <==> OccursAt(s[1..], pat, j - 1)
    {
      if j + |pat| <= |s| {
        SliceOfTail(s, j, j + |pat|);
      }
    }
    if !OccursAt(s, pat, 0) {
      if Occurs(s, pat) {
        var i :| 0 <= i <= |s| && OccursAt(s, pat, i);
        assert OccursAt(s[1..], pat, i - 1);
      }
      if Occurs(s[1..], pat) {
        var i :| 0 <= i <= |s[1..]| && OccursAt(s[1..], pat, i);
        assert OccursAt(s, pat, i + 1);
      }
    }
  }

  /** A slice of `s[1..]` is the slice of `s` one place further on. */
  lemma SliceOfTail(s: string, a: int, b: int)
    requires 1 <= a <= b <= |s|
    ensures s[1..][a - 1..b - 1] == s[a..b]
  {
    forall m | 0 <= m < b - a
      ensures s[1..][a - 1..b - 1][m] == s[a..b][m]
    {
    }
  }

  /**
   Python `s.replace(pat, rep)`: scanning left to right, every non-overlapping
   occurrence of `pat` is replaced by `rep`; the replacement text is never
   rescanned.
   */
  function Replace(s: string, pat: string, rep: string): string
    requires pat != []
    decreases |s|
  {
    if |s| < |pat| then s
    else if s[..|pat|] == pat then rep + Replace(s[|pat|..], pat, rep)
    else [s[0]] + Replace(s[1..], pat, rep)
  }

  /**
   `replace` cuts at the leftmost occurrence `i` that `find` reports: the text
   before it is kept, `rep` takes the needle's place and the scan carries on
   with `rest`, the text after the needle.
   */
  lemma {:induction false} ReplaceAtFind(s: string, pat: string, rep: string, i: nat, rest: string)
    requires pat != [] && Find(s, pat) == Some(i)
    requires rest == s[i + |pat|..]
    ensures Replace(s, pat, rep) == s[..i] + rep + Replace(rest, pat, rep)
    decreases |s|, 1
  {
    if s[..|pat|] == pat {
      assert s[..0] + rep == rep;
    } else {
      ReplaceAtLater(s, pat, rep, i, rest);
    }
  }

  /** The step of `ReplaceAtFind` when `s` does not start with the needle. */
  lemma {:induction false} ReplaceAtLater(s: string, pat: string, rep: string, i: nat, rest: string)
    requires pat != [] && Find(s, pat) == Some(i) && s[..|pat|] != pat
    requires rest == s[i + |pat|..]
    ensures Replace(s, pat, rep) == s[..i] + rep + Replace(rest, pat, rep)
    decreases |s|, 0
  {
    var t := s[1..];
    FindStep(s, pat, i);
    assert t[i - 1 + |pat|..] == rest;
    ReplaceAtFind(t, pat, rep, i - 1, rest);
    LeadStep(s, i, rep + Replace(rest, pat, rep));
  }

  /** Away from an occurrence at the front, `find` on `s` answers one more than on `s[1..]`. */
  lemma FindStep(s: string, pat: string, i: nat)
    requires pat != [] && Find(s, pat) == Some(i) && s[..|pat|] != pat
    ensures 1 <= i && Find(s[1..], pat) == Some(i - 1)
  {
  }

  /** Putting back the first character of `s` in front of a cut of `s[1..]`. */
  lemma LeadStep(s: string, i: nat, tail: string)
    requires 1 <= i <= |s|
    ensures [s[0]] + (s[1..][..i - 1] + tail) == s[..i] + tail
  {
    assert [s[0]] + s[1..][..i - 1] == s[..i];
  }

  /** With no occurrence reported by `find`, `replace` gives the text back unchanged. */
  lemma {:induction false} ReplaceWithoutFind(s: string, pat: string, rep: string)
    requires pat != [] && Find(s, pat) == None
    ensures Replace(s, pat, rep) == s
    decreases |s|
  {
    if |s| >= |pat| {
      ReplaceWithoutFind(s[1..], pat, rep);
      assert [s[0]] + s[1..] == s;
    }
  }

  /** Text in which `pat` does not occur comes back from `replace` unchanged. */
  lemma ReplaceAbsent(s: string, pat: string, rep: string)
    requires pat != []
    requires !Occurs(s, pat)
    ensures Replace(s, pat, rep) == s
  {
    FindIsLeftmost(s, pat);
    ReplaceWithoutFind(s, pat, rep);
  }

  /** Replacing a needle by itself changes nothing. */
  lemma {:induction false} ReplaceBySelf(s: string, pat: string)
    requires pat != []
    ensures Replace(s, pat, pat) == s
    decreases |s|
  {
    if |s| < |pat| {
    } else if s[..|pat|] == pat {
      ReplaceBySelf(s[|pat|..], pat);
      assert s[..|pat|] + s[|pat|..] == s;
    } else {
      ReplaceBySelf(s[1..], pat);
      assert [s[0]] + s[1..] == s;
    }
  }

  /** A lead-in that never shows the needle's first character is copied through untouched. */
  lemma {:induction false} ReplaceSkip(lead: string, s: string, pat: string, rep: string)
    requires pat != []
    requires forall i :: 0 <= i < |lead| ==> lead[i] != pat[0]
    ensures Replace(lead + s, pat, rep) == lead + Replace(s, pat, rep)
    decreases |lead|
  {
    if lead == [] {
      assert lead + s == s;
    } else {
      var t := lead + s;
      assert t[1..] == lead[1..] + s;
      ReplaceSkip(lead[1..], s, pat, rep);
      if |t| >= |pat| {
        assert t[..|pat|][0] != pat[0];
      } else {
        assert |s| < |pat|;
      }
      assert [lead[0]] + lead[1..] == lead;
    }
  }

  /**
   A lead-in at none of whose positions an occurrence of the needle starts is
   copied through untouched, and the scan resumes right after it.
   */
  lemma {:induction false} ReplaceKeepsPrefix(lead: string, s: string, pat: string, rep: string)
    requires pat != []
    requires forall k :: 0 <= k < |lead| ==> !OccursAt(lead + s, pat, k)
    ensures Replace(lead + s, pat, rep) == lead + Replace(s, pat, rep)
    decreases |lead|
  {
    if lead == [] {
      assert lead + s == s;
    } else {
      var t := lead + s;
      var after := lead[1..] + s;
      assert t[1..] == after;
      forall k | 0 <= k < |lead[1..]|
        ensures !OccursAt(after, pat, k)
      {
        if k + |pat| <= |after| {
          assert t[1..][k..k + |pat|] == t[k + 1..k + 1 + |pat|];
        }
        assert !OccursAt(t, pat, k + 1);
      }
      ReplaceKeepsPrefix(lead[1..], s, pat, rep);
      assert !OccursAt(t, pat, 0);
      if |t| >= |pat| {
        assert Replace(t, pat, rep) == [t[0]] + Replace(after, pat, rep);
      } else {
        assert |s| < |pat|;
      }
      assert [lead[0]] + lead[1..] == lead;
    }
  }

  /** A needle replaced by itself alone is the replacement. */
  lemma ReplaceWhole(pat: string, rep: string)
    requires pat != []
    ensures Replace(pat, pat, rep) == rep
  {
    assert pat[..|pat|] == pat;
    assert pat[|pat|..] == [];
    assert rep + [] == rep;
  }

  /** A text that contains a needle contains every prefix of it. */
  lemma OccursPrefix(s: string, pat: string, k: nat)
    requires k <= |pat|
    ensures Occurs(s, pat) ==> Occurs(s, pat[..k])
  {
    if Occurs(s, pat) {
      var i :| 0 <= i <= |s| && OccursAt(s, pat, i);
      assert s[i..i + k] == s[i..i + |pat|][..k];
      assert OccursAt(s, pat[..k], i);
    }
  }
}
