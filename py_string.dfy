/** Python's `str.replace`, `str.count` and `in` on strings, and a reference
    definition of replacement through `str.split` and `str.join`. */
module PyString {

  /** `pat in s`: `pat` is a contiguous block of `s`. The empty string occurs
      in every string. */
  predicate Occurs(s: string, pat: string) {
    exists i | 0 <= i <= |s| :: pat <= s[i..]
  }

  /** `s.replace(pat, rep)`: scanning left to right, every occurrence of `pat`
      that does not overlap an earlier replaced one is replaced by `rep`. An
      empty `pat` inserts `rep` before every character and at the end. */
  function Replace(s: string, pat: string, rep: string): (r: string)
    ensures Count(s, pat) == 0 ==> r == s
    decreases |s|
  {
    if pat == [] then InsertEverywhere(s, rep)
    else if pat <= s then rep + Replace(s[|pat|..], pat, rep)
    else if s == [] then []
    else [s[0]] + Replace(s[1..], pat, rep)
  }

  /** `s.replace("", rep)`. */
  function InsertEverywhere(s: string, rep: string): string {
    if s == [] then rep else rep + [s[0]] + InsertEverywhere(s[1..], rep)
  }

  /** `s.count(pat)`: the number of non-overlapping occurrences found left to
      right; `len(s) + 1` for the empty pattern. */
  function Count(s: string, pat: string): nat
    decreases |s|
  {
    if pat == [] then |s| + 1
    else if pat <= s then 1 + Count(s[|pat|..], pat)
    else if s == [] then 0
    else Count(s[1..], pat)
  }

  /** `s.split(sep)` for a non-empty separator. */
  function Split(s: string, sep: string): (parts: seq<string>)
    requires sep != []
    ensures |parts| >= 1
    decreases |s|
  {
    if sep <= s then [[]] + Split(s[|sep|..], sep)
    else if s == [] then [[]]
    else
      var rest := Split(s[1..], sep);
      [[s[0]] + rest[0]] + rest[1..]
  }

  /** `sep.join(parts)`. */
  function Join(parts: seq<string>, sep: string): string {
    if parts == [] then []
    else if |parts| == 1 then parts[0]
    else parts[0] + sep + Join(parts[1..], sep)
  }

  /** The replacement changes the length by `|rep| - |pat|` per occurrence
      counted by `str.count`. */
  lemma ReplaceLength(s: string, pat: string, rep: string)
    ensures |Replace(s, pat, rep)| == |s| + Count(s, pat) * (|rep| - |pat|)
  {
    if pat == [] {
      InsertEverywhereLength(s, rep);
    } else {
      ReplaceLengthNonEmpty(s, pat, rep);
    }
  }

  lemma {:induction false} ReplaceLengthNonEmpty(s: string, pat: string, rep: string)
    requires pat != []
    ensures |Replace(s, pat, rep)| == |s| + Count(s, pat) * (|rep| - |pat|)
    decreases |s|
  {
    if pat <= s {
      var rest := s[|pat|..];
      ReplaceLengthNonEmpty(rest, pat, rep);
      assert |Replace(s, pat, rep)| == |rep| + |Replace(rest, pat, rep)|;
      assert Count(s, pat) == 1 + Count(rest, pat);
      MulSucc(Count(rest, pat), |rep| - |pat|);
    } else if s != [] {
      ReplaceLengthNonEmpty(s[1..], pat, rep);
    }
  }

  lemma MulSucc(c: int, d: int)
    ensures (c + 1) * d == c * d + d
  {
  }

  lemma {:induction false} InsertEverywhereLength(s: string, rep: string)
    ensures |InsertEverywhere(s, rep)| == |s| + (|s| + 1) * |rep|
    decreases |s|
  {
    if s != [] {
      InsertEverywhereLength(s[1..], rep);
      MulSucc(|s|, |rep|);
    }
  }

  /** Matches are taken left to right: in `aaa` the first two characters
      are replaced, not the last two. */
  lemma LeftmostMatch()
    ensures Replace("aaa", "aa", "b") == "ba"
    ensures Split("aaa", "aa") == ["", "a"]
  {
    assert "aa" <= "aaa";
    assert "aaa"[2..] == "a";
    assert !("aa" <= "a");
    assert "a"[1..] == "";
    assert Split("", "aa") == [""];
    assert Split("a", "aa") == ["a"] by {
      var rest := Split("a"[1..], "aa");
      assert rest == [""];
      assert ['a'] + rest[0] == "a";
      assert rest[1..] == [];
    }
  }

  /** A text that does not contain the pattern is left unchanged. */
  lemma {:induction false} ReplaceAbsent(s: string, pat: string, rep: string)
    requires !Occurs(s, pat)
    ensures Replace(s, pat, rep) == s
    decreases |s|
  {
    assert pat <= s[0..] ==> Occurs(s, pat);
    if s != [] {
      forall i | 0 <= i <= |s[1..]|
        ensures !(pat <= s[1..][i..])
      {
        assert s[1..][i..] == s[i + 1..];
      }
      ReplaceAbsent(s[1..], pat, rep);
    }
  }

  /** Replacing a pattern by itself changes nothing, the empty pattern
      included. */
  lemma {:induction false} ReplaceSelf(s: string, pat: string)
    ensures Replace(s, pat, pat) == s
    decreases |s|
  {
    if pat == [] {
      InsertNothing(s);
    } else if pat <= s {
      ReplaceSelf(s[|pat|..], pat);
      assert s == s[..|pat|] + s[|pat|..];
    } else if s != [] {
      ReplaceSelf(s[1..], pat);
      assert s == [s[0]] + s[1..];
    }
  }

  lemma {:induction false} InsertNothing(s: string)
    ensures InsertEverywhere(s, []) == s
    decreases |s|
  {
    if s != [] {
      InsertNothing(s[1..]);
      assert s == [s[0]] + s[1..];
    }
  }

  /** Reference definition: for a non-empty pattern, `s.replace(pat, rep)` is
      `rep.join(s.split(pat))`. */
  lemma {:induction false} ReplaceIsJoinOfSplit(s: string, pat: string, rep: string)
    requires pat != []
    ensures Replace(s, pat, rep) == Join(Split(s, pat), rep)
    decreases |s|
  {
    if pat <= s {
      ReplaceIsJoinOfSplit(s[|pat|..], pat, rep);
      var rest := Split(s[|pat|..], pat);
      assert Split(s, pat) == [[]] + rest;
      assert ([[]] + rest)[1..] == rest;
    } else if s != [] {
      ReplaceIsJoinOfSplit(s[1..], pat, rep);
      var rest := Split(s[1..], pat);
      JoinConsHead(s[0], rest, rep);
    }
  }

  /** Prepending a character to the first part prepends it to the joined
      string. */
  lemma JoinConsHead(c: char, parts: seq<string>, sep: string)
    requires |parts| >= 1
    ensures Join([[c] + parts[0]] + parts[1..], sep) == [c] + Join(parts, sep)
  {
    var ps := [[c] + parts[0]] + parts[1..];
    assert ps[1..] == parts[1..];
  }

  /** Splitting on a separator and joining with it again gives back the
      string. */
  lemma {:induction false} SplitJoinRoundTrip(s: string, sep: string)
    requires sep != []
    ensures Join(Split(s, sep), sep) == s
  {
    ReplaceIsJoinOfSplit(s, sep, sep);
    ReplaceSelf(s, sep);
  }

  /** `s.split(sep)` has `s.count(sep) + 1` parts. */
  lemma {:induction false} SplitCount(s: string, sep: string)
    requires sep != []
    ensures |Split(s, sep)| == Count(s, sep) + 1
    decreases |s|
  {
    if sep <= s {
      SplitCount(s[|sep|..], sep);
    } else if s != [] {
      SplitCount(s[1..], sep);
    }
  }

  /** The first part of a split is a prefix of the string. */
  lemma {:induction false} SplitHeadIsPrefix(s: string, sep: string)
    requires sep != []
    ensures Split(s, sep)[0] <= s
    decreases |s|
  {
    if !(sep <= s) && s != [] {
      SplitHeadIsPrefix(s[1..], sep);
      var rest := Split(s[1..], sep);
      assert [s[0]] + rest[0] <= [s[0]] + s[1..];
      assert s == [s[0]] + s[1..];
    }
  }

  /** No part of a split contains the separator: replacement leaves no
      occurrence of the pattern between the ones it replaced. */
  lemma {:induction false} SplitPartsFree(s: string, sep: string)
    requires sep != []
    ensures forall k | 0 <= k < |Split(s, sep)| :: !Occurs(Split(s, sep)[k], sep)
    decreases |s|
  {
    var parts := Split(s, sep);
    if sep <= s {
      SplitPartsFree(s[|sep|..], sep);
      var rest := Split(s[|sep|..], sep);
      assert parts == [[]] + rest;
      forall k | 0 <= k < |parts|
        ensures !Occurs(parts[k], sep)
      {
        if k == 0 {
          assert forall i | 0 <= i <= |parts[0]| :: !(sep <= parts[0][i..]);
        } else {
          assert parts[k] == rest[k - 1];
        }
      }
    } else if s == [] {
      assert forall i | 0 <= i <= 0 :: !(sep <= s[i..]);
    } else {
      SplitPartsFree(s[1..], sep);
      SplitHeadIsPrefix(s[1..], sep);
      var rest := Split(s[1..], sep);
      assert parts == [[s[0]] + rest[0]] + rest[1..];
      forall k | 0 <= k < |parts|
        ensures !Occurs(parts[k], sep)
      {
        if k == 0 {
          HeadPartFree(s, sep, rest[0]);
        } else {
          assert parts[k] == rest[k];
        }
      }
    }
  }

  /** A block that starts with a character of `s` not beginning an occurrence,
      followed by a prefix of the rest that contains no occurrence, contains
      none either. */
  lemma HeadPartFree(s: string, sep: string, tail: string)
    requires sep != [] && s != [] && !(sep <= s)
    requires tail <= s[1..] && !Occurs(tail, sep)
    ensures !Occurs([s[0]] + tail, sep)
  {
    var p := [s[0]] + tail;
    forall i | 0 <= i <= |p|
      ensures !(sep <= p[i..])
    {
      if i == 0 {
        assert p <= s;
      } else {
        assert p[i..] == tail[i - 1..];
      }
    }
  }
}
