/**
 * The six regular expressions of `replaceTextInNode` (aitoslop.js:75-126), each as a
 * matcher that says whether and where the expression matches when the global scan tries
 * it at one position, and the replacement callback that runs on each match.
 */
module Patterns {
  import opened Wrappers
  import opened CharClass

  datatype Pattern =
    | AppleIntelligence       // /\bApple(\s+)Intelligence\b/gi
    | ArtificialIntelligence  // /\bArtificial(\s+)Intelligence\b/gi
    | AiSlop                  // /\bAI(\s+)slop\b/gi
    | AiCamelPrefix           // /\bAI([A-Z][a-z]+\w*)/g
    | AiDotted                // /\bA\.I\./gi
    | BareAi                  // /\bAI\b/g

  /** A match found at some start position: where it ends, and its first capture group ("" when none). */
  datatype Match = Match(end: nat, group: string)

  /**
   * `\bFirst(\s+)Second\b` under the `i` flag, tried at `i`. A greedy `\s+` followed by a
   * letter has only one way to succeed, so the whitespace group is the maximal run.
   */
  function TwoWordMatch(s: string, i: nat, first: string, second: string): (r: Option<Match>)
    requires i <= |s| && |first| > 0 && |second| > 0
    ensures r.Some? ==> i + |first| < r.value.end - |second| && r.value.end <= |s|
  {
    if WordBoundary(s, i) && CiLiteralAt(s, i, first) then
      var w := SpaceRunEnd(s, i + |first|);
      if w > i + |first| && CiLiteralAt(s, w, second) && WordBoundary(s, w + |second|)
      then Some(Match(w + |second|, s[i + |first|..w]))
      else None
    else None
  }

  /** The match the scan finds when it tries pattern `p` at position `i` of `s`, if any. */
  function MatchAt(p: Pattern, s: string, i: nat): (r: Option<Match>)
    requires i <= |s|
    ensures r.Some? ==> i < r.value.end <= |s|
  {
    match p
    case AppleIntelligence => TwoWordMatch(s, i, "apple", "intelligence")
    case ArtificialIntelligence => TwoWordMatch(s, i, "artificial", "intelligence")
    case AiSlop => TwoWordMatch(s, i, "ai", "slop")
    case AiCamelPrefix =>
      // `[a-z]+\w*` is greedy and `[a-z]` lies inside `\w`: the match runs to the end of the word
      if WordBoundary(s, i) && i + 4 <= |s| && s[i] == 'A' && s[i + 1] == 'I'
         && IsUpper(s[i + 2]) && IsLower(s[i + 3])
      then var e := WordRunEnd(s, i + 3); Some(Match(e, s[i + 2..e]))
      else None
    case AiDotted =>
      if WordBoundary(s, i) && i + 4 <= |s| && Lower(s[i]) == 'a' && s[i + 1] == '.'
         && Lower(s[i + 2]) == 'i' && s[i + 3] == '.'
      then Some(Match(i + 4, ""))
      else None
    case BareAi =>
      if WordBoundary(s, i) && i + 2 <= |s| && s[i] == 'A' && s[i + 1] == 'I' && WordBoundary(s, i + 2)
      then Some(Match(i + 2, ""))
      else None
  }

  /** The replacement callback of each `replace` call, given the matched text `m` and its capture `g`. */
  function Replacement(p: Pattern, m: string, g: string): string {
    match p
    case AppleIntelligence =>
      var applePart := if Contains(m, "apple") then "apple" else "Apple";
      var intelligencePart :=
        if Contains(LowerStr(m), "intelligence") then (if Contains(m, "Intelligence") then "Slop" else "slop")
        else "Slop";
      applePart + g + intelligencePart
    case ArtificialIntelligence =>
      if |m| > 0 && m[0] == 'A' then "Slop" else "slop"
    case AiSlop =>
      var slopPart :=
        if Contains(LowerStr(m), "slop") then (if Contains(m, "Slop") then "Slop" else "slop")
        else "slop";
      "slop" + g + slopPart
    case AiCamelPrefix =>
      "Slop" + g
    case AiDotted =>
      if |m| > 0 && m[0] == 'A' then "Slop"
      else if |m| > 0 && m[0] == 'a' then "slop"
      else "Slop"
    case BareAi =>
      if m == "AI" then "Slop"
      else if m == "ai" then "slop"
      else if m == "Ai" then "Slop"
      else if m == "aI" then "slop"
      else "Slop"
  }

  /** No callback writes a letter i of its own: only those of the captured group can appear in its result. */
  lemma ReplacementAddsNoI(p: Pattern, m: string, g: string)
    ensures ICount(Replacement(p, m, g)) <= ICount(g)
  {
    CallbackWordsHaveNoI();
    match p
    case AppleIntelligence =>
      WrappedAddsNoI(if Contains(m, "apple") then "apple" else "Apple", g,
                     if Contains(LowerStr(m), "intelligence") then (if Contains(m, "Intelligence") then "Slop" else "slop")
                     else "Slop");
    case AiSlop =>
      WrappedAddsNoI("slop", g,
                     if Contains(LowerStr(m), "slop") then (if Contains(m, "Slop") then "Slop" else "slop")
                     else "slop");
    case AiCamelPrefix =>
      WrappedAddsNoI("Slop", g, "");
      assert "Slop" + g + "" == "Slop" + g;
    case _ =>
  }

  /** The words the callbacks write around the captured group contain no letter i. */
  lemma CallbackWordsHaveNoI()
    ensures ICount("apple") == 0 && ICount("Apple") == 0 && ICount("Slop") == 0 && ICount("slop") == 0
  {
    ICountNone("apple");
    ICountNone("Apple");
    ICountNone("Slop");
    ICountNone("slop");
  }

  lemma WrappedAddsNoI(w1: string, g: string, w2: string)
    requires ICount(w1) == 0 && ICount(w2) == 0
    ensures ICount(w1 + g + w2) == ICount(g)
  {
    ICountConcat(w1, g);
    ICountConcat(w1 + g, w2);
  }

  /** A whitespace run that `\s+` can capture. */
  predicate IsSpaceRun(g: string) {
    |g| > 0 && forall j :: 0 <= j < |g| ==> IsSpace(g[j])
  }

  /** The matched text of a two-word pattern: `first` and `second` in any case around the run `g`. */
  predicate TwoWordShape(m: string, first: string, g: string, second: string) {
    |m| == |first| + |g| + |second| &&
    LowerStr(m[..|first|]) == first &&
    m[|first|..|first| + |g|] == g && IsSpaceRun(g) &&
    LowerStr(m[|first| + |g|..]) == second
  }

  /** What a two-word pattern matches: its two words in any case around the captured whitespace run. */
  lemma TwoWordMatchShape(s: string, i: nat, first: string, second: string)
    requires i <= |s| && |first| > 0 && |second| > 0
    requires TwoWordMatch(s, i, first, second).Some?
    ensures var mt := TwoWordMatch(s, i, first, second).value;
            TwoWordShape(s[i..mt.end], first, mt.group, second)
  {
  }

  /**
   * A case variant `t` of the first word (no whitespace in it, its first letter absent from
   * the second word) occurs in the matched text only at its start.
   */
  lemma PrefixOnlyOccurrence(m: string, first: string, g: string, second: string, t: string)
    requires TwoWordShape(m, first, g, second)
    requires |t| == |first| > 0 && forall k :: 0 <= k < |t| ==> !IsSpace(t[k])
    requires forall k :: 0 <= k < |second| ==> second[k] != Lower(t[0])
    ensures Contains(m, t) <==> m[..|t|] == t
  {
    ContainsIff(m, t);
    if m[..|t|] == t {
      assert OccursAt(m, t, 0);
    } else {
      var n := |first| + |g|;
      forall j: nat | j <= |m| ensures !OccursAt(m, t, j) {
        if j == 0 {
          assert m[0..|t|] == m[..|t|];
        } else if j < |first| {
          assert IsSpace(m[|first|]) by { assert m[|first|] == g[0]; }
          OccursAtChar(m, t, j, |first| - j);
        } else if j < n {
          assert IsSpace(m[j]) by { assert m[j] == g[j - |first|]; }
          OccursAtChar(m, t, j, 0);
        } else if j < |m| {
          assert Lower(m[j]) != Lower(t[0]) by {
            assert LowerStr(m[n..])[j - n] == Lower(m[j]);
          }
          OccursAtChar(m, t, j, 0);
        }
      }
    }
  }

  /**
   * A case variant `t` of the second word that starts with a letter the first word lacks
   * occurs in the matched text only at its end.
   */
  lemma SuffixOnlyOccurrence(m: string, first: string, g: string, second: string, t: string)
    requires TwoWordShape(m, first, g, second)
    requires |t| == |second| > 0 && !IsSpace(t[0])
    requires forall k :: 0 <= k < |first| ==> first[k] != Lower(t[0])
    ensures Contains(m, t) <==> m[|m| - |t|..] == t
  {
    ContainsIff(m, t);
    var n := |first| + |g|;
    if m[n..] == t {
      assert m[n..n + |t|] == m[n..];
      assert OccursAt(m, t, n);
    } else {
      forall j: nat | j <= |m| ensures !OccursAt(m, t, j) {
        if j < |first| {
          assert Lower(m[j]) == first[j] by { assert LowerStr(m[..|first|])[j] == Lower(m[j]); }
          OccursAtChar(m, t, j, 0);
        } else if j < n {
          assert IsSpace(m[j]) by { assert m[j] == g[j - |first|]; }
          OccursAtChar(m, t, j, 0);
        } else if j == n {
          assert m[n..n + |t|] == m[n..];
        }
      }
    }
  }

  /** The lower-cased match always contains the second word in lower case. */
  lemma LowerHasSecond(m: string, first: string, g: string, second: string)
    requires TwoWordShape(m, first, g, second)
    ensures Contains(LowerStr(m), second)
  {
    ContainsIff(LowerStr(m), second);
    var n := |first| + |g|;
    assert LowerStr(m)[n..n + |second|] == LowerStr(m[n..]);
    assert OccursAt(LowerStr(m), second, n);
  }

  /**
   * Step 1 callback, on any text the pattern matches: the first word becomes "apple" exactly
   * when the match spelt it "apple" and "Apple" otherwise; the whitespace run is kept; the
   * second word becomes "Slop" exactly when the match spelt it "Intelligence", else "slop".
   */
  lemma AppleIntelligenceCallback(m: string, g: string)
    requires TwoWordShape(m, "apple", g, "intelligence")
    ensures Replacement(AppleIntelligence, m, g)
            == (if m[..5] == "apple" then "apple" else "Apple") + g
               + (if m[|m| - 12..] == "Intelligence" then "Slop" else "slop")
  {
    assert forall k :: 0 <= k < 12 ==> "intelligence"[k] != 'a';
    PrefixOnlyOccurrence(m, "apple", g, "intelligence", "apple");
    assert forall k :: 0 <= k < 5 ==> "apple"[k] != 'i';
    SuffixOnlyOccurrence(m, "apple", g, "intelligence", "Intelligence");
    LowerHasSecond(m, "apple", g, "intelligence");
  }

  /**
   * Step 2 callback: the whole phrase, whitespace included, becomes "Slop" when it starts
   * with 'A' and "slop" when it starts with 'a'.
   */
  lemma ArtificialIntelligenceCallback(m: string, g: string)
    requires TwoWordShape(m, "artificial", g, "intelligence")
    ensures m[0] == 'A' || m[0] == 'a'
    ensures Replacement(ArtificialIntelligence, m, g) == (if m[0] == 'A' then "Slop" else "slop")
  {
    assert LowerStr(m[..10])[0] == Lower(m[0]);
  }

  /**
   * Step 3 callback: "AI<ws>slop" in any case becomes "slop", the same whitespace run, and
   * "Slop" exactly when the match spelt the second word "Slop", "slop" otherwise.
   */
  lemma AiSlopCallback(m: string, g: string)
    requires TwoWordShape(m, "ai", g, "slop")
    ensures Replacement(AiSlop, m, g) == "slop" + g + (if m[|m| - 4..] == "Slop" then "Slop" else "slop")
  {
    assert forall k :: 0 <= k < 2 ==> "ai"[k] != 's';
    SuffixOnlyOccurrence(m, "ai", g, "slop", "Slop");
    LowerHasSecond(m, "ai", g, "slop");
  }

  /**
   * Step 4 (case-sensitive): "AI" at a word start followed by an upper-case letter and a
   * lower-case letter; the rest of the word is kept behind "Slop".
   */
  lemma AiCamelPrefixRule(s: string, i: nat)
    requires i <= |s|
    ensures MatchAt(AiCamelPrefix, s, i).Some? <==>
            (WordBoundary(s, i) && i + 4 <= |s| && s[i..i + 2] == "AI" && IsUpper(s[i + 2]) && IsLower(s[i + 3]))
    ensures MatchAt(AiCamelPrefix, s, i).Some? ==>
            var mt := MatchAt(AiCamelPrefix, s, i).value;
            && (mt.end == |s| || !IsWordChar(s[mt.end]))
            && Replacement(AiCamelPrefix, s[i..mt.end], mt.group) == "Slop" + s[i + 2..mt.end]
  {
  }

  /** Step 5: "A.I." in any case becomes "Slop" when it starts with 'A' and "slop" when it starts with 'a'. */
  lemma AiDottedRule(s: string, i: nat)
    requires i <= |s| && MatchAt(AiDotted, s, i).Some?
    ensures var mt := MatchAt(AiDotted, s, i).value;
            && (s[i] == 'A' || s[i] == 'a')
            && Replacement(AiDotted, s[i..mt.end], mt.group) == (if s[i] == 'A' then "Slop" else "slop")
  {
  }

  /** Step 6 (case-sensitive): only the whole word "AI" matches, so the callback always yields "Slop". */
  lemma BareAiRule(s: string, i: nat)
    requires i <= |s| && MatchAt(BareAi, s, i).Some?
    ensures var mt := MatchAt(BareAi, s, i).value;
            && s[i..mt.end] == "AI"
            && Replacement(BareAi, s[i..mt.end], mt.group) == "Slop"
  {
  }
}
