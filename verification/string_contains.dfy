/** StringContains: the substring matcher behind containsString. */
module StringContains {
  import opened Wrappers
  import opened MatcherTypes

  /** sub appears in s starting at index i. */
  predicate OccursAt(s: string, sub: string, i: int)
  {
    0 <= i && i + |sub| <= |s| && s[i..i + |sub|] == sub
  }

  /** sub is a contiguous piece of s. */
  ghost predicate Contains(s: string, sub: string)
  {
    exists i :: OccursAt(s, sub, i)
  }

  /** String.indexOf(sub, from) for a start index within the string, the
      only case IndexOf uses (from 0): the first index at or after from
      where sub occurs, or -1 when there is none. For from > |s| with an
      empty sub, Java returns |s|, which this function does not model. */
  function IndexOfFrom(s: string, sub: string, from: nat): (r: int)
    decreases |s| - from
    ensures r == -1 || (from <= r && OccursAt(s, sub, r))
    ensures r == -1 ==> forall i :: from <= i ==> !OccursAt(s, sub, i)
    ensures r != -1 ==> forall i :: from <= i < r ==> !OccursAt(s, sub, i)
  {
    if from + |sub| > |s| then -1
    else if s[from..from + |sub|] == sub then from
    else IndexOfFrom(s, sub, from + 1)
  }

  /** String.indexOf(sub). */
  function IndexOf(s: string, sub: string): int
  {
    IndexOfFrom(s, sub, 0)
  }

  /** evalSubstringOf: indexOf(substring) >= 0. */
  predicate EvalSubstringOf(substring: string, s: string)
  {
    IndexOf(s, substring) >= 0
  }

  /** relationship(): the word the description uses. */
  function Relationship(): string
  {
    "containing"
  }

  /** SubstringMatcher.describeTo: a string <relationship> "<substring>". */
  function Describe(substring: string): string
  {
    "a string " + Relationship() + " \"" + substring + "\""
  }

  /** The matcher for an already formatted substring. Hamcrest's
      TypeSafeMatcher never hands null to evalSubstringOf: a null string is
      rejected. */
  function Containing(substring: string): (m: StringMatcher)
    ensures forall s :: m.accepts(Some(s)) <==> Contains(s, substring)
    ensures !m.accepts(None)
    ensures m.description == "a string containing \"" + substring + "\""
  {
    StringMatcher((o: Option<string>) => o.Some? && EvalSubstringOf(substring, o.value), Describe(substring))
  }

  /** containsString(substring, args): rejects a null substring before any
      formatting, then formats the substring with the arguments. String.format
      is the parameter format. */
  function ContainsString<A>(substring: Option<string>, args: seq<A>, format: (string, seq<A>) -> string): (r: Result<StringMatcher>)
    ensures r.Failure? <==> substring.None?
    ensures r.Failure? ==> r.message == "substring must not be null."
    ensures r.Success? ==> forall s :: r.value.accepts(Some(s)) <==> Contains(s, format(substring.value, args))
  {
    if substring.None? then Failure("substring must not be null.")
    else Success(Containing(format(substring.value, args)))
  }

  // ----- Laws of the containment relation -----

  /** indexOf(sub) >= 0 holds exactly when sub occurs somewhere in s. */
  lemma EvalSubstringOfIffContains(substring: string, s: string)
    ensures EvalSubstringOf(substring, s) <==> Contains(s, substring)
  {
    if Contains(s, substring) {
      var i :| OccursAt(s, substring, i);
    }
  }

  /** Every string contains itself. */
  lemma ContainsItself(s: string)
    ensures Contains(s, s)
  {
    assert OccursAt(s, s, 0);
  }

  /** Every string contains each of its prefixes. */
  lemma ContainsPrefix(s: string, k: nat)
    requires k <= |s|
    ensures Contains(s, s[..k])
  {
    assert OccursAt(s, s[..k], 0);
  }

  /** Every string contains each of its suffixes. */
  lemma ContainsSuffix(s: string, k: nat)
    requires k <= |s|
    ensures Contains(s, s[k..])
  {
    assert OccursAt(s, s[k..], k);
  }

  /** The empty substring is found in every string. */
  lemma EmptySubstringMatchesEverything(s: string)
    ensures EvalSubstringOf("", s)
    ensures Contains(s, "")
  {
    assert OccursAt(s, "", 0);
  }

  /** A piece of a piece of s is a piece of s. */
  lemma ContainsTransitive(a: string, b: string, c: string)
    requires Contains(a, b) && Contains(b, c)
    ensures Contains(a, c)
  {
    var i :| OccursAt(a, b, i);
    var j :| OccursAt(b, c, j);
    forall k | 0 <= k < |c|
      ensures a[i + j + k] == c[k]
    {
      assert c[k] == b[j..j + |c|][k] == b[j + k];
      assert b[j + k] == a[i..i + |b|][j + k] == a[i + j + k];
    }
    assert a[i + j..i + j + |c|] == c;
    assert OccursAt(a, c, i + j);
  }

  /** Matching is case-sensitive: the sentence does not contain itself with
      its first word upper-cased. */
  lemma MatchingIsCaseSensitive()
    ensures !Contains("The bunny jumps over the fence", "THE bunny jumps over the fence")
  {
    var s, sub := "The bunny jumps over the fence", "THE bunny jumps over the fence";
    forall i
      ensures !OccursAt(s, sub, i)
    {
      if i == 0 {
        assert s[0..|sub|][1] == s[1] != sub[1];
      }
    }
  }

  /** A substring holding a character that s lacks is not contained in s. */
  lemma MissingCharacter(s: string, sub: string, k: nat)
    requires k < |sub|
    requires forall j :: 0 <= j < |s| ==> s[j] != sub[k]
    ensures !Contains(s, sub)
  {
    forall i
      ensures !OccursAt(s, sub, i)
    {
      if 0 <= i && i + |sub| <= |s| {
        assert s[i..i + |sub|][k] == s[i + k];
      }
    }
  }

  /** The sentence contains an inner piece, its start and its end. */
  lemma SentenceExamples()
    ensures Contains("The bunny jumps over the fence", "jumps over")
    ensures Contains("The bunny jumps over the fence", "The bunny")
    ensures Contains("The bunny jumps over the fence", "over the fence")
    ensures !Contains("The bunny jumps over the fence", "nope!")
  {
    var s := "The bunny jumps over the fence";
    assert OccursAt(s, "jumps over", 10);
    assert OccursAt(s, "The bunny", 0);
    assert OccursAt(s, "over the fence", 16);
    MissingCharacter(s, "nope!", 4);
  }
}
