/**
  The functions of Go's `strings` package that the bot's utilities use, on
  strings as sequences of Unicode scalar values. What each one computes is
  stated independently of how: by witness lemmas for the prefix, suffix and
  substring tests, and by a round trip for splitting.
*/
module GoStrings {

  /** `strings.HasPrefix(s, prefix)`. */
  function HasPrefix(s: string, prefix: string): (r: bool)
    ensures r <==> prefix <= s
  {
    |prefix| <= |s| && s[..|prefix|] == prefix
  }

  /** `HasPrefix` holds exactly when `s` is `prefix` followed by some rest. */
  lemma HasPrefixWitness(s: string, prefix: string)
    ensures HasPrefix(s, prefix) <==> exists rest :: s == prefix + rest
  {
    if HasPrefix(s, prefix) {
      assert s == prefix + s[|prefix|..];
    }
  }

  /** `strings.HasSuffix(s, suffix)`. */
  function HasSuffix(s: string, suffix: string): (r: bool)
    ensures r ==> |suffix| <= |s|
    ensures suffix == [] ==> r
    ensures s == suffix ==> r
  {
    |suffix| <= |s| && s[|s| - |suffix|..] == suffix
  }

  /** `HasSuffix` holds exactly when `s` is some text followed by `suffix`. */
  lemma HasSuffixWitness(s: string, suffix: string)
    ensures HasSuffix(s, suffix) <==> exists before :: s == before + suffix
  {
    if HasSuffix(s, suffix) {
      assert s == s[..|s| - |suffix|] + suffix;
    } else {
      assert forall before :: (before + suffix)[|before|..] == suffix;
    }
  }

  /** `strings.Contains(s, substr)`: a search from the left. */
  function Contains(s: string, substr: string): (r: bool)
    ensures r ==> |substr| <= |s|
    ensures substr <= s ==> r
    decreases |s|
  {
    if HasPrefix(s, substr) then true
    else if |s| == 0 then false
    else Contains(s[1..], substr)
  }

  /** `Contains` holds exactly when `substr` occurs somewhere in `s`. */
  lemma {:induction false} ContainsWitness(s: string, substr: string)
    ensures Contains(s, substr) <==> exists before, after :: s == before + substr + after
    decreases |s|
  {
    if HasPrefix(s, substr) {
      assert s == [] + substr + s[|substr|..];
    } else if |s| == 0 {
      assert |substr| > 0;
      assert forall before, after :: |before + substr + after| > 0;
    } else {
      ContainsWitness(s[1..], substr);
      if Contains(s[1..], substr) {
        ContainsInTail(s, substr);
      } else {
        NotContainsStep(s, substr);
      }
    }
  }

  /** An occurrence in the tail is an occurrence. */
  lemma ContainsInTail(s: string, substr: string)
    requires |s| > 0 && exists before, after :: s[1..] == before + substr + after
    ensures exists before, after :: s == before + substr + after
  {
    var before, after :| s[1..] == before + substr + after;
    assert s == ([s[0]] + before) + substr + after;
  }

  /** No occurrence at the head and none in the tail means none at all. */
  lemma NotContainsStep(s: string, substr: string)
    requires |s| > 0 && !HasPrefix(s, substr)
    requires forall before, after :: s[1..] != before + substr + after
    ensures forall before, after :: s != before + substr + after
  {
    forall before, after
      ensures s != before + substr + after
    {
      if before == [] {
        assert before + substr + after == substr + after;
      } else {
        assert (before + substr + after)[1..] == before[1..] + substr + after;
      }
    }
  }

  /** `strings.TrimPrefix(s, prefix)`: `s` without a leading `prefix`, or `s` itself. */
  function TrimPrefix(s: string, prefix: string): (r: string)
    ensures HasPrefix(s, prefix) ==> s == prefix + r
    ensures !HasPrefix(s, prefix) ==> r == s
  {
    if HasPrefix(s, prefix) then s[|prefix|..] else s
  }

  /**
    `strings.Replace(s, old, "", -1)` for a one-character `old`: every
    occurrence of `c` deleted, every other character kept in order.
  */
  function RemoveChar(s: string, c: char): (r: string)
    ensures c !in r
    ensures |r| <= |s|
    ensures c !in s ==> r == s
  {
    if |s| == 0 then []
    else if s[0] == c then RemoveChar(s[1..], c)
    else [s[0]] + RemoveChar(s[1..], c)
  }

  /** Deleting `c` keeps every other character and adds none. */
  lemma {:induction false} RemoveCharMembers(s: string, c: char, x: char)
    ensures x in RemoveChar(s, c) <==> x in s && x != c
    decreases |s|
  {
    if |s| > 0 {
      RemoveCharMembers(s[1..], c, x);
      assert s == [s[0]] + s[1..];
    }
  }

  /** Deleting a character distributes over concatenation. */
  lemma {:induction false} RemoveCharAppend(a: string, b: string, c: char)
    ensures RemoveChar(a + b, c) == RemoveChar(a, c) + RemoveChar(b, c)
    decreases |a|
  {
    if |a| > 0 {
      assert (a + b)[0] == a[0] && (a + b)[1..] == a[1..] + b;
      RemoveCharAppend(a[1..], b, c);
      if a[0] != c {
        assert RemoveChar(a + b, c) == [a[0]] + RemoveChar(a[1..] + b, c);
        assert RemoveChar(a, c) == [a[0]] + RemoveChar(a[1..], c);
      }
    } else {
      assert a + b == b;
    }
  }

  /**
    The white space `strings.TrimSpace` removes: Go's `unicode.IsSpace`,
    that is the Unicode White_Space property.
  */
  predicate IsSpace(c: char) {
    c == ' ' || '\t' <= c <= '\r' || c == '\U{85}' || c == '\U{A0}' || c == '\U{1680}'
    || '\U{2000}' <= c <= '\U{200A}' || c == '\U{2028}' || c == '\U{2029}'
    || c == '\U{202F}' || c == '\U{205F}' || c == '\U{3000}'
  }

  predicate AllSpace(s: string) {
    forall k :: 0 <= k < |s| ==> IsSpace(s[k])
  }

  lemma AllSpaceCons(c: char, s: string)
    requires IsSpace(c) && AllSpace(s)
    ensures AllSpace([c] + s)
  {
    assert forall k :: 0 < k <= |s| ==> ([c] + s)[k] == s[k - 1];
  }

  lemma AllSpaceSnoc(s: string, c: char)
    requires AllSpace(s) && IsSpace(c)
    ensures AllSpace(s + [c])
  {
    assert forall k :: 0 <= k < |s| ==> (s + [c])[k] == s[k];
  }

  /** `s` with its leading white space removed. */
  function TrimLeftSpace(s: string): (r: string)
    ensures |r| <= |s| && r == s[|s| - |r|..]
    ensures AllSpace(s[..|s| - |r|])
    ensures r == [] || !IsSpace(r[0])
  {
    if |s| > 0 && IsSpace(s[0]) then
      var r := TrimLeftSpace(s[1..]);
      assert s[..|s| - |r|] == [s[0]] + s[1..][..|s| - 1 - |r|];
      AllSpaceCons(s[0], s[1..][..|s| - 1 - |r|]);
      r
    else s
  }

  /** `s` with its trailing white space removed. */
  function TrimRightSpace(s: string): (r: string)
    ensures |r| <= |s| && r == s[..|r|]
    ensures AllSpace(s[|r|..])
    ensures r == [] || !IsSpace(r[|r| - 1])
  {
    if |s| > 0 && IsSpace(s[|s| - 1]) then
      var r := TrimRightSpace(s[..|s| - 1]);
      assert s[|r|..] == s[..|s| - 1][|r|..] + [s[|s| - 1]];
      AllSpaceSnoc(s[..|s| - 1][|r|..], s[|s| - 1]);
      r
    else s
  }

  /** `s` neither starts nor ends with white space. */
  predicate Trimmed(s: string) {
    s == [] || (!IsSpace(s[0]) && !IsSpace(s[|s| - 1]))
  }

  /**
    `strings.TrimSpace(s)`: `s` with white space cut from both ends; the
    result neither starts nor ends with white space.
  */
  function TrimSpace(s: string): (r: string)
    ensures |r| <= |s|
    ensures Trimmed(r)
  {
    TrimRightSpace(TrimLeftSpace(s))
  }

  /** What `TrimSpace` cuts is white space: the result is the slice of `s` between two runs of white space. */
  lemma TrimSpaceIsSlice(s: string)
    ensures exists i ::
              && 0 <= i <= |s| - |TrimSpace(s)| && TrimSpace(s) == s[i..i + |TrimSpace(s)|]
              && AllSpace(s[..i]) && AllSpace(s[i + |TrimSpace(s)|..])
  {
    var left := TrimLeftSpace(s);
    var r := TrimRightSpace(left);
    var i := |s| - |left|;
    SliceOfSlice(s, left, r, i);
    assert TrimSpace(s) == r;
    assert 0 <= i <= |s| - |r| && r == s[i..i + |r|] && AllSpace(s[..i]) && AllSpace(s[i + |r|..]);
  }

  lemma SliceOfSlice(s: string, left: string, r: string, i: int)
    requires 0 <= i <= |s| && left == s[i..]
    requires |r| <= |left| && r == left[..|r|] && AllSpace(left[|r|..])
    ensures r == s[i..i + |r|] && AllSpace(s[i + |r|..])
  {
    assert s[i + |r|..] == left[|r|..];
  }

  /** Trimming ignores white space put in front. */
  lemma {:induction false} TrimSpaceLeadingSpace(c: char, s: string)
    requires IsSpace(c)
    ensures TrimSpace([c] + s) == TrimSpace(s)
  {
    assert ([c] + s)[1..] == s;
  }

  /** Trimming twice is trimming once. */
  lemma TrimSpaceIdempotent(s: string)
    ensures TrimSpace(TrimSpace(s)) == TrimSpace(s)
  {
  }

  /** A string that neither starts nor ends with white space is its own trim. */
  lemma TrimSpaceOfTrimmed(s: string)
    requires Trimmed(s)
    ensures TrimSpace(s) == s
  {
  }

  /** `strings.Join(parts, sep)` for a one-character separator. */
  function Join(parts: seq<string>, sep: char): (r: string)
    ensures |parts| == 1 ==> r == parts[0]
    decreases |parts|
  {
    if |parts| == 0 then ""
    else if |parts| == 1 then parts[0]
    else parts[0] + [sep] + Join(parts[1..], sep)
  }

  /**
    `strings.Split(s, sep)` for a one-character separator: the pieces
    between separators, so consecutive separators give empty pieces and the
    empty string gives one empty piece. Joining the pieces gives `s` back.
  */
  function Split(s: string, sep: char): (parts: seq<string>)
    ensures |parts| >= 1
    ensures forall i :: 0 <= i < |parts| ==> sep !in parts[i]
    ensures Join(parts, sep) == s
    decreases |s|
  {
    if |s| == 0 then [""]
    else
      var rest := Split(s[1..], sep);
      if s[0] == sep then
        assert Join([""] + rest, sep) == [sep] + Join(rest, sep);
        [""] + rest
      else
        var parts := [[s[0]] + rest[0]] + rest[1..];
        assert |rest| > 1 ==> Join(rest, sep) == rest[0] + [sep] + Join(rest[1..], sep);
        assert |rest| > 1 ==> Join(parts, sep) == [s[0]] + rest[0] + [sep] + Join(rest[1..], sep);
        parts
  }

  /** A piece free of the separator splits to itself. */
  lemma {:induction false} SplitPiece(w: string, sep: char)
    requires sep !in w
    ensures Split(w, sep) == [w]
    decreases |w|
  {
    if |w| > 0 {
      SplitPiece(w[1..], sep);
    }
  }

  /** Splitting `w sep rest`, with no separator in `w`, gives `w` and then the pieces of `rest`. */
  lemma {:induction false} SplitCons(w: string, rest: string, sep: char)
    requires sep !in w
    ensures Split(w + [sep] + rest, sep) == [w] + Split(rest, sep)
    decreases |w|
  {
    var s := w + [sep] + rest;
    if |w| > 0 {
      assert s[1..] == w[1..] + [sep] + rest;
      SplitCons(w[1..], rest, sep);
      assert w == [w[0]] + w[1..];
    } else {
      assert s[1..] == rest;
    }
  }

  /** Split undoes Join: a non-empty list of separator-free pieces is recovered exactly. */
  lemma {:induction false} SplitJoin(parts: seq<string>, sep: char)
    requires |parts| >= 1
    requires forall i :: 0 <= i < |parts| ==> sep !in parts[i]
    ensures Split(Join(parts, sep), sep) == parts
    decreases |parts|
  {
    if |parts| == 1 {
      SplitPiece(parts[0], sep);
    } else {
      SplitJoin(parts[1..], sep);
      SplitCons(parts[0], Join(parts[1..], sep), sep);
      assert parts == [parts[0]] + parts[1..];
    }
  }
}
