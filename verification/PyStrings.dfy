/**
 The Python string operations the rename script relies on, over `seq<char>`:
 `str.split` with a one-character separator, `str.endswith` and `str.replace`.
 `Join` is the inverse of splitting and serves as the specification of both
 `Split` and `ReplaceAll`.
 */
module PyStrings {

  /** Number of occurrences of the character `c` in `s`. */
  function Count(s: string, c: char): nat
  {
    if s == [] then 0 else (if s[0] == c then 1 else 0) + Count(s[1..], c)
  }

  /** `sep.join(parts)`. */
  function Join(parts: seq<string>, sep: string): string
  {
    if |parts| == 0 then ""
    else if |parts| == 1 then parts[0]
    else parts[0] + sep + Join(parts[1..], sep)
  }

  /** `s.endswith(suffix)`. */
  predicate EndsWith(s: string, suffix: string)
  {
    |suffix| <= |s| && s[|s| - |suffix|..] == suffix
  }

  // ---------------------------------------------------------------------------
  // str.split with a one-character separator
  // ---------------------------------------------------------------------------

  /**
   `s.split(sep)` for a separator of one character: the fields between the
   separators, so there is always one field more than there are separators,
   and no field holds the separator (the empty string gives `[""]`).
   */
  function Split(s: string, sep: char): (fields: seq<string>)
    ensures |fields| == Count(s, sep) + 1
    ensures forall k :: 0 <= k < |fields| ==> sep !in fields[k]
  {
    if s == [] then [""]
    else
      var rest := Split(s[1..], sep);
      if s[0] == sep then [""] + rest
      else [[s[0]] + rest[0]] + rest[1..]
  }

  /** Joining the fields back with the separator gives the original string. */
  lemma {:induction false} SplitJoin(s: string, sep: char)
    ensures Join(Split(s, sep), [sep]) == s
  {
    if s != [] {
      var rest := Split(s[1..], sep);
      SplitJoin(s[1..], sep);
      if s[0] == sep {
        assert Split(s, sep) == [""] + rest;
        assert ([""] + rest)[1..] == rest;
      } else {
        var fields := Split(s, sep);
        if |rest| == 1 {
          assert fields == [[s[0]] + rest[0]];
        } else {
          assert fields[1..] == rest[1..];
          assert Join(rest, [sep]) == rest[0] + [sep] + Join(rest[1..], [sep]);
        }
      }
    }
  }

  /** A string without the separator is a single field. */
  lemma {:induction false} SplitNoSep(s: string, sep: char)
    requires sep !in s
    ensures Split(s, sep) == [s]
  {
    if s != [] {
      SplitNoSep(s[1..], sep);
      assert [s[0]] + s[1..] == s;
    }
  }

  /** The first field ends at the first separator. */
  lemma {:induction false} SplitFirstSep(a: string, sep: char, b: string)
    requires sep !in a
    ensures Split(a + [sep] + b, sep) == [a] + Split(b, sep)
  {
    if a == [] {
      assert a + [sep] + b == [sep] + b;
      assert ([sep] + b)[1..] == b;
    } else {
      var s := a + [sep] + b;
      assert s[1..] == a[1..] + [sep] + b;
      SplitFirstSep(a[1..], sep, b);
      assert [s[0]] + a[1..] == a;
    }
  }

  // ---------------------------------------------------------------------------
  // str.replace
  // ---------------------------------------------------------------------------

  /** `pat` occurs in `s` starting at index `i`. */
  ghost predicate OccursAt(pat: string, s: string, i: int)
  {
    0 <= i && i + |pat| <= |s| && s[i..i + |pat|] == pat
  }

  /** `pat` occurs somewhere in `s` (Python's `pat in s`). */
  ghost predicate Occurs(pat: string, s: string)
  {
    exists i :: OccursAt(pat, s, i)
  }

  /**
   Declarative description of how `str.replace` and `str.split` cut `s` at
   `pat`: the parts joined with `pat` give back `s`, the last part holds no
   occurrence, and no occurrence starts inside any earlier part (an occurrence
   starting in `parts[k]` would lie in `parts[k]` followed by all but the last
   character of `pat`). So every cut is the leftmost occurrence at or after
   the end of the previous one, and cuts never overlap.
   */
  ghost predicate LeftmostSplit(s: string, pat: string, parts: seq<string>)
    requires |pat| > 0
  {
    && |parts| > 0
    && Join(parts, pat) == s
    && (forall k :: 0 <= k < |parts| - 1 ==> !Occurs(pat, parts[k] + pat[..|pat| - 1]))
    && !Occurs(pat, parts[|parts| - 1])
  }

  /**
   `s.replace(oldText, newText)`: scans left to right, replaces each occurrence of
   `oldText` by `newText` and resumes after the occurrence, never rescanning `newText`.
   */
  function ReplaceAll(s: string, oldText: string, newText: string): string
    requires |oldText| > 0
    decreases |s|
  {
    if |s| < |oldText| then s
    else if s[..|oldText|] == oldText then newText + ReplaceAll(s[|oldText|..], oldText, newText)
    else [s[0]] + ReplaceAll(s[1..], oldText, newText)
  }

  /** An occurrence in the tail of a string is an occurrence in the string. */
  lemma OccursInTail(pat: string, t: string)
    requires |t| > 0 && Occurs(pat, t[1..])
    ensures Occurs(pat, t)
  {
    var i :| OccursAt(pat, t[1..], i);
    assert t[i + 1..i + 1 + |pat|] == t[1..][i..i + |pat|];
    assert OccursAt(pat, t, i + 1);
  }

  /** An occurrence that does not start at index 0 is one in the tail. */
  lemma OccursNotAtStart(pat: string, t: string)
    requires |t| > 0 && Occurs(pat, t) && !OccursAt(pat, t, 0)
    ensures Occurs(pat, t[1..])
  {
    var i :| OccursAt(pat, t, i);
    assert i >= 1;
    assert t[1..][i - 1..i - 1 + |pat|] == t[i..i + |pat|];
    assert OccursAt(pat, t[1..], i - 1);
  }

  /**
   The leftmost split of a string exists: the cuts `ReplaceAll` makes.
   */
  lemma {:induction false} LeftmostSplitExists(s: string, oldText: string) returns (parts: seq<string>)
    requires |oldText| > 0
    ensures LeftmostSplit(s, oldText, parts)
    decreases |s|
  {
    if |s| < |oldText| {
      parts := [s];
    } else if s[..|oldText|] == oldText {
      var rest := LeftmostSplitExists(s[|oldText|..], oldText);
      parts := [""] + rest;
      assert parts[1..] == rest;
      assert s == oldText + s[|oldText|..];
      assert Join(parts, oldText) == "" + oldText + Join(rest, oldText);
      assert !Occurs(oldText, "" + oldText[..|oldText| - 1]);
      forall k | 0 <= k < |parts| - 1
        ensures !Occurs(oldText, parts[k] + oldText[..|oldText| - 1])
      {
        if k > 0 {
          assert parts[k] == rest[k - 1];
        }
      }
    } else {
      var rest := LeftmostSplitExists(s[1..], oldText);
      var head := [s[0]] + rest[0];
      parts := [head] + rest[1..];
      assert !OccursAt(oldText, s, 0);
      // The new first part, followed by what comes after it, is a prefix of s.
      if |rest| == 1 {
        assert Join(parts, oldText) == head;
        assert head == s;
        if Occurs(oldText, head) {
          OccursNotAtStart(oldText, head);
        }
      } else {
        assert parts[1..] == rest[1..];
        assert Join(rest, oldText) == rest[0] + oldText + Join(rest[1..], oldText);
        assert Join(parts, oldText) == head + oldText + Join(rest[1..], oldText);
        assert s == [s[0]] + s[1..];
        assert s == head + oldText + Join(rest[1..], oldText);
        var t := head + oldText[..|oldText| - 1];
        assert t == s[..|t|];
        assert t[1..] == rest[0] + oldText[..|oldText| - 1];
        assert !OccursAt(oldText, t, 0) by {
          assert t[..|oldText|] == s[..|oldText|];
        }
        if Occurs(oldText, t) {
          OccursNotAtStart(oldText, t);
        }
        forall k | 1 <= k < |parts| - 1
          ensures !Occurs(oldText, parts[k] + oldText[..|oldText| - 1])
        {
          assert parts[k] == rest[k];
        }
        assert parts[|parts| - 1] == rest[|rest| - 1];
      }
    }
  }

  /** A leftmost split of a string that starts with `pat` cuts there first. */
  lemma LeftmostSplitAtMatch(s: string, pat: string, parts: seq<string>)
    requires |pat| > 0 && |s| >= |pat| && s[..|pat|] == pat
    requires LeftmostSplit(s, pat, parts)
    ensures |parts| > 1 && parts[0] == ""
    ensures LeftmostSplit(s[|pat|..], pat, parts[1..])
  {
    assert OccursAt(pat, s, 0);
    assert |parts| > 1;
    assert s == parts[0] + pat + Join(parts[1..], pat);
    assert parts[0] == "" by {
      if |parts[0]| > 0 {
        var t := parts[0] + pat[..|pat| - 1];
        assert t == s[..|t|];
        assert t[..|pat|] == s[..|pat|];
        assert OccursAt(pat, t, 0);
      }
    }
    assert s[|pat|..] == Join(parts[1..], pat);
    forall k | 0 <= k < |parts[1..]| - 1
      ensures !Occurs(pat, parts[1..][k] + pat[..|pat| - 1])
    {
      assert parts[1..][k] == parts[k + 1];
    }
  }

  /**
   A leftmost split of a string that does not start with `pat` has a
   non-empty first part, and dropping the first character of the string
   drops it from that part.
   */
  lemma LeftmostSplitTail(s: string, pat: string, parts: seq<string>)
    requires |pat| > 0 && |s| >= |pat| && s[..|pat|] != pat
    requires LeftmostSplit(s, pat, parts)
    ensures parts[0] != [] && parts[0][0] == s[0]
    ensures LeftmostSplit(s[1..], pat, [parts[0][1..]] + parts[1..])
  {
    var p := parts[0];
    assert p != [];
    var parts' := [p[1..]] + parts[1..];
    assert parts'[1..] == parts[1..];
    if |parts| == 1 {
      assert s == p;
      if Occurs(pat, p[1..]) {
        OccursInTail(pat, p);
      }
    } else {
      assert s == p + pat + Join(parts[1..], pat);
      assert s[1..] == p[1..] + pat + Join(parts[1..], pat);
      var t := p + pat[..|pat| - 1];
      assert t[1..] == p[1..] + pat[..|pat| - 1];
      if Occurs(pat, t[1..]) {
        OccursInTail(pat, t);
      }
      forall k | 1 <= k < |parts'| - 1
        ensures !Occurs(pat, parts'[k] + pat[..|pat| - 1])
      {
        assert parts'[k] == parts[k];
      }
      assert parts'[|parts'| - 1] == parts[|parts| - 1];
    }
  }

  /** Putting a character in front of a join puts it in front of the first part. */
  lemma JoinCons(c: char, parts: seq<string>, sep: string)
    requires |parts| > 0
    ensures [c] + Join(parts, sep) == Join([[c] + parts[0]] + parts[1..], sep)
  {
    var parts' := [[c] + parts[0]] + parts[1..];
    assert parts'[1..] == parts[1..];
  }

  /**
   `ReplaceAll` meets the declarative description: for ANY leftmost split of
   `s` at `oldText`, the result is those same parts joined with `newText`.
   Together with `LeftmostSplitExists`, every occurrence that `str.replace`
   leaves in place lies across a cut, never wholly inside an unreplaced part.
   */
  lemma {:induction false} ReplaceAllIsJoin(s: string, oldText: string, newText: string, parts: seq<string>)
    requires |oldText| > 0
    requires LeftmostSplit(s, oldText, parts)
    ensures ReplaceAll(s, oldText, newText) == Join(parts, newText)
    decreases |s|
  {
    if |s| < |oldText| {
      assert |parts| == 1;
    } else if s[..|oldText|] == oldText {
      LeftmostSplitAtMatch(s, oldText, parts);
      ReplaceAllIsJoin(s[|oldText|..], oldText, newText, parts[1..]);
    } else {
      LeftmostSplitTail(s, oldText, parts);
      var p := parts[0];
      var parts' := [p[1..]] + parts[1..];
      ReplaceAllIsJoin(s[1..], oldText, newText, parts');
      JoinCons(s[0], parts', newText);
      assert [s[0]] + p[1..] == p;
      assert parts'[1..] == parts[1..];
    }
  }

  /**
   What `s.replace(oldText, newText)` does, stated without reference to how it scans:
   `s` is cut at its leftmost non-overlapping occurrences of `oldText`, no
   occurrence of `oldText` lies wholly within an uncut part, and the result is
   the parts joined with `newText`.
   */
  lemma ReplaceAllSpec(s: string, oldText: string, newText: string) returns (parts: seq<string>)
    requires |oldText| > 0
    ensures LeftmostSplit(s, oldText, parts)
    ensures ReplaceAll(s, oldText, newText) == Join(parts, newText)
  {
    parts := LeftmostSplitExists(s, oldText);
    ReplaceAllIsJoin(s, oldText, newText, parts);
  }

  /** When `oldText` does not occur in `s`, replacing leaves `s` as it is. */
  lemma {:induction false} ReplaceAllNoMatch(s: string, oldText: string, newText: string)
    requires |oldText| > 0 && !Occurs(oldText, s)
    ensures ReplaceAll(s, oldText, newText) == s
  {
    ReplaceAllIsJoin(s, oldText, newText, [s]);
  }

  /** Replacing a string by itself changes nothing, whatever `s` is. */
  lemma {:induction false} ReplaceAllSelf(s: string, oldText: string)
    requires |oldText| > 0
    ensures ReplaceAll(s, oldText, oldText) == s
  {
    var parts := ReplaceAllSpec(s, oldText, oldText);
  }

  /** Matches do not overlap and are taken from the left. */
  lemma ReplaceAllNonOverlapping()
    ensures ReplaceAll("aaaa", "aa", "a") == "aa"
  {
    assert "aaaa"[..2] == "aa";
    assert "aaaa"[2..] == "aa";
    assert "aa"[..2] == "aa";
    assert "aa"[2..] == "";
  }
}
