/**
  The bot's requirement matcher (`Matches`, utils.go): a requirement is a
  regular expression when it starts with `re:`, a glob when it starts or ends
  with `*`, and a literal otherwise.
*/
module Matching {
  import opened GoStrings

  /**
    Go's `regexp` package, which is not part of this model: `compiles(p)`
    says whether `regexp.Compile(p)` succeeds, and `matchString(p, s)` is
    `MatchString(s)` on the compiled expression.
  */
  datatype Regexp = Regexp(compiles: string -> bool, matchString: (string, string) -> bool)

  /** The requirement is a regular expression: it starts with `re:`. */
  predicate IsRegexRequirement(requirement: string) {
    "re:" <= requirement
  }

  /** The requirement's first character is `*`. */
  predicate LeadingStar(requirement: string) {
    |requirement| > 0 && requirement[0] == '*'
  }

  /** The requirement's last character is `*`. */
  predicate TrailingStar(requirement: string) {
    |requirement| > 0 && requirement[|requirement| - 1] == '*'
  }

  /** The literal a glob requirement looks for: the requirement with every `*` deleted, interior ones too. */
  function GlobCore(requirement: string): string {
    RemoveChar(requirement, '*')
  }

  /**
    `Matches(requirement, checking)`. The regular-expression mode takes
    precedence over the glob markers and matches nothing when the expression
    does not compile; a glob on both ends asks for the core anywhere in
    `checking`, a leading `*` for it at the end, a trailing `*` for it at the
    start; otherwise `checking` must equal the requirement, case included.
  */
  function Matches(rx: Regexp, requirement: string, checking: string): (matches: bool)
    ensures IsRegexRequirement(requirement) ==>
      (matches <==> rx.compiles(requirement[3..]) && rx.matchString(requirement[3..], checking))
    ensures !IsRegexRequirement(requirement) && LeadingStar(requirement) && TrailingStar(requirement) ==>
      (matches <==> Contains(checking, GlobCore(requirement)))
    ensures !IsRegexRequirement(requirement) && LeadingStar(requirement) && !TrailingStar(requirement) ==>
      (matches <==> HasSuffix(checking, GlobCore(requirement)))
    ensures !IsRegexRequirement(requirement) && !LeadingStar(requirement) && TrailingStar(requirement) ==>
      (matches <==> GlobCore(requirement) <= checking)
    ensures !IsRegexRequirement(requirement) && !LeadingStar(requirement) && !TrailingStar(requirement) ==>
      (matches <==> checking == requirement)
  {
    var matchFromEnd := HasPrefix(requirement, "*");
    var matchFromBeginning := HasSuffix(requirement, "*");
    var hasReg := HasPrefix(requirement, "re:");
    assert matchFromEnd <==> LeadingStar(requirement) by {
      if LeadingStar(requirement) {
        assert requirement == "*" + requirement[1..];
      }
    }
    assert matchFromBeginning <==> TrailingStar(requirement) by {
      if TrailingStar(requirement) {
        assert requirement == requirement[..|requirement| - 1] + "*";
      }
    }
    assert hasReg <==> IsRegexRequirement(requirement) by {
      if IsRegexRequirement(requirement) {
        assert requirement == "re:" + requirement[3..];
      }
    }
    if hasReg then
      var regexMessage := TrimPrefix(requirement, "re:");
      rx.compiles(regexMessage) && rx.matchString(regexMessage, checking)
    else if matchFromEnd || matchFromBeginning then
      var noGlobMatch := GlobCore(requirement);
      if matchFromEnd && matchFromBeginning then
        Contains(checking, noGlobMatch)
      else if matchFromEnd && !matchFromBeginning then
        HasSuffix(checking, noGlobMatch)
      else
        HasPrefix(checking, noGlobMatch)
    else
      checking == requirement
  }

  /**
    What the glob modes ask of `checking`, by witnesses: the core anywhere,
    at the end, or at the start.
  */
  lemma GlobWitnesses(rx: Regexp, requirement: string, checking: string)
    requires !IsRegexRequirement(requirement)
    ensures LeadingStar(requirement) && TrailingStar(requirement) ==>
      (Matches(rx, requirement, checking) <==> exists before, after :: checking == before + GlobCore(requirement) + after)
    ensures LeadingStar(requirement) && !TrailingStar(requirement) ==>
      (Matches(rx, requirement, checking) <==> exists before :: checking == before + GlobCore(requirement))
    ensures !LeadingStar(requirement) && TrailingStar(requirement) ==>
      (Matches(rx, requirement, checking) <==> exists after :: checking == GlobCore(requirement) + after)
  {
    ContainsWitness(checking, GlobCore(requirement));
    HasSuffixWitness(checking, GlobCore(requirement));
    HasPrefixWitness(checking, GlobCore(requirement));
  }

  /** A requirement with no `*` at all and no `re:` marker matches exactly the equal string. */
  lemma ExactWithoutMarkers(rx: Regexp, requirement: string, checking: string)
    requires '*' !in requirement && !IsRegexRequirement(requirement)
    ensures Matches(rx, requirement, checking) <==> checking == requirement
  {
  }

  /** `re:` wins over glob markers: `re:` followed by any text is matched only by the engine. */
  lemma RegexTakesPrecedence(rx: Regexp, expr: string, checking: string)
    ensures Matches(rx, "re:" + expr, checking) <==> rx.compiles(expr) && rx.matchString(expr, checking)
  {
    assert ("re:" + expr)[3..] == expr;
  }

  /** A regular expression that does not compile matches nothing. */
  lemma BadRegexMatchesNothing(rx: Regexp, expr: string, checking: string)
    requires !rx.compiles(expr)
    ensures !Matches(rx, "re:" + expr, checking)
  {
    RegexTakesPrecedence(rx, expr, checking);
  }

  /** The requirement `*` alone matches every string, the empty one included. */
  lemma LoneStarMatchesAll(rx: Regexp, checking: string)
    ensures Matches(rx, "*", checking)
  {
    assert GlobCore("*") == "";
    assert checking == [] + GlobCore("*") + checking;
  }

  /**
    Interior stars are not wildcards: two glob requirements with the same
    markers at the ends and the same characters between the stars accept
    the same strings, wherever their interior stars stand.
  */
  lemma GlobIgnoresInteriorStars(rx: Regexp, req1: string, req2: string, checking: string)
    requires !IsRegexRequirement(req1) && !IsRegexRequirement(req2)
    requires LeadingStar(req1) == LeadingStar(req2) && TrailingStar(req1) == TrailingStar(req2)
    requires LeadingStar(req1) || TrailingStar(req1)
    requires GlobCore(req1) == GlobCore(req2)
    ensures Matches(rx, req1, checking) == Matches(rx, req2, checking)
  {
  }

  /** A star-free string is its own core, and `*` alone has the empty core. */
  lemma {:induction false} StarFreeCore(w: string)
    requires '*' !in w
    ensures GlobCore(w) == w && GlobCore("*") == ""
  {
    assert "*"[1..] == "";
  }

  /** `*w`, for a star-free nonempty `w`, accepts exactly the strings that end with `w`. */
  lemma SuffixGlob(rx: Regexp, w: string, checking: string)
    requires '*' !in w && w != ""
    ensures Matches(rx, "*" + w, checking) <==> HasSuffix(checking, w)
  {
    var req := "*" + w;
    RemoveCharAppend("*", w, '*');
    StarFreeCore(w);
    assert req[0] == '*' && req[|req| - 1] == w[|w| - 1];
  }

  /** `w*`, for a star-free nonempty `w` that is no regular expression, accepts exactly the strings that start with `w`. */
  lemma PrefixGlob(rx: Regexp, w: string, checking: string)
    requires '*' !in w && w != "" && !IsRegexRequirement(w + "*")
    ensures Matches(rx, w + "*", checking) <==> w <= checking
  {
    var req := w + "*";
    RemoveCharAppend(w, "*", '*');
    StarFreeCore(w);
    assert req[0] == w[0] && req[|req| - 1] == '*';
  }

  /** `*w*`, for a star-free `w`, accepts exactly the strings that contain `w`. */
  lemma ContainsGlob(rx: Regexp, w: string, checking: string)
    requires '*' !in w
    ensures Matches(rx, "*" + w + "*", checking) <==> Contains(checking, w)
  {
    var req := "*" + w + "*";
    BothEndsCore(w);
    assert req[0] == '*' && req[|req| - 1] == '*';
  }

  lemma BothEndsCore(w: string)
    requires '*' !in w
    ensures GlobCore("*" + w + "*") == w
  {
    StarFreeCore(w);
    RemoveCharAppend("*", w, '*');
    assert RemoveChar("*" + w, '*') == w;
    RemoveCharAppend("*" + w, "*", '*');
  }

  /**
    Interior stars are deleted, not read as wildcards: `*a*c*`, for
    star-free `a` and `c`, accepts exactly the strings that contain `a`
    immediately followed by `c`.
  */
  lemma InteriorStarGlob(rx: Regexp, a: string, c: string, checking: string)
    requires '*' !in a && '*' !in c
    ensures Matches(rx, "*" + a + "*" + c + "*", checking) <==> Contains(checking, a + c)
  {
    var req := "*" + a + "*" + c + "*";
    InteriorCore(a, c);
    assert req[0] == '*' && req[|req| - 1] == '*';
  }

  lemma InteriorCore(a: string, c: string)
    requires '*' !in a && '*' !in c
    ensures GlobCore("*" + a + "*" + c + "*") == a + c
  {
    StarFreeCore(a);
    StarFreeCore(c);
    RemoveCharAppend("*", a, '*');
    var p1 := "*" + a;
    assert RemoveChar(p1, '*') == a;
    RemoveCharAppend(p1, "*", '*');
    var p2 := p1 + "*";
    assert RemoveChar(p2, '*') == a;
    RemoveCharAppend(p2, c, '*');
    var p3 := p2 + c;
    assert RemoveChar(p3, '*') == a + c;
    RemoveCharAppend(p3, "*", '*');
    assert RemoveChar(p3 + "*", '*') == a + c;
  }

  /** Example: `*suffix` accepts `hello suffix`. */
  lemma SuffixExample(rx: Regexp)
    ensures Matches(rx, "*suffix", "hello suffix")
  {
    SuffixGlob(rx, "suffix", "hello suffix");
    assert "*" + "suffix" == "*suffix";
    HasSuffixWitness("hello suffix", "suffix");
    assert "hello suffix" == "hello " + "suffix";
  }

  /** Example: `*mid*` accepts `xxmidyy`. */
  lemma ContainsExample(rx: Regexp)
    ensures Matches(rx, "*mid*", "xxmidyy")
  {
    ContainsGlob(rx, "mid", "xxmidyy");
    assert "*" + "mid" + "*" == "*mid*";
    ContainsWitness("xxmidyy", "mid");
    assert "xxmidyy" == "xx" + "mid" + "yy";
  }

  /** Example: the exact mode is case-sensitive, `exact` refuses `Exact`. */
  lemma ExactIsCaseSensitive(rx: Regexp)
    ensures !Matches(rx, "exact", "Exact")
  {
    var req := "exact";
    assert !LeadingStar(req) && !TrailingStar(req) && !IsRegexRequirement(req);
    assert "exact"[0] != "Exact"[0];
  }

  /**
    Deleting every star: `*a*c*` asks only for `ac` somewhere, so it
    accepts `xacx` and refuses `abc`, which a wildcard reading of the
    interior star would accept.
  */
  lemma InteriorStarIsNoWildcard(rx: Regexp)
    ensures Matches(rx, "*a*c*", "xacx")
    ensures !Matches(rx, "*a*c*", "abc")
  {
    InteriorStarGlob(rx, "a", "c", "xacx");
    InteriorStarGlob(rx, "a", "c", "abc");
    assert "*" + "a" + "*" + "c" + "*" == "*a*c*" && "a" + "c" == "ac";
    ContainsWitness("xacx", "ac");
    assert "xacx" == "x" + "ac" + "x";
    NotContainsAc();
  }

  lemma NotContainsAc()
    ensures !Contains("abc", "ac")
  {
    assert "abc"[..2] != "ac" by { assert "abc"[..2][1] == 'b'; }
    assert !HasPrefix("abc", "ac");
    assert "abc"[1..] == "bc" && "bc"[1..] == "c" && "c"[1..] == "";
    assert "bc"[..2] != "ac" by { assert "bc"[..2][0] == 'b'; }
    assert !HasPrefix("bc", "ac") && !HasPrefix("c", "ac") && !HasPrefix("", "ac");
  }

  /** `a*b*c`, with no star at either end, is a literal: only `a*b*c` itself matches it. */
  lemma InteriorStarsOnlyIsLiteral(rx: Regexp)
    ensures !Matches(rx, "a*b*c", "abc")
    ensures Matches(rx, "a*b*c", "a*b*c")
  {
    var req := "a*b*c";
    assert !LeadingStar(req) && !TrailingStar(req) && !IsRegexRequirement(req);
    assert |"abc"| != |req|;
  }
}
