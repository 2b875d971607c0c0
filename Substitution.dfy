/**
 * `String.prototype.replace` with a global regular expression and a callback, and the
 * six-step cascade of `replaceTextInNode` (aitoslop.js:70-126).
 */
module Substitution {
  import opened Wrappers
  import opened CharClass
  import opened Patterns

  /** The rewritten text and how many times the callbacks ran (the `replacements` counter). */
  datatype Rewrite = Rewrite(text: string, count: nat)

  /**
   * The global scan from position `i`: where the pattern matches, the callback's result
   * replaces the match and the scan resumes after it; elsewhere one character is copied.
   * Word boundaries are always judged on the original string `s`.
   */
  function Scan(p: Pattern, s: string, i: nat): (r: Rewrite)
    requires i <= |s|
    ensures r.count <= |s| - i
    ensures r.count == 0 ==> r.text == s[i..]
    decreases |s| - i
  {
    if i == |s| then Rewrite("", 0)
    else match MatchAt(p, s, i)
      case Some(mt) =>
        var rest := Scan(p, s, mt.end);
        Rewrite(Replacement(p, s[i..mt.end], mt.group) + rest.text, rest.count + 1)
      case None =>
        var rest := Scan(p, s, i + 1);
        assert s[i..] == [s[i]] + s[i + 1..];
        Rewrite([s[i]] + rest.text, rest.count)
  }

  /** `s.replace(/…/g, callback)` for pattern `p`. */
  function Step(p: Pattern, s: string): Rewrite {
    Scan(p, s, 0)
  }

  /** The order in which `replaceTextInNode` applies the six replacements. */
  const Order: seq<Pattern> := [AppleIntelligence, ArtificialIntelligence, AiSlop, AiCamelPrefix, AiDotted, BareAi]

  /** Applies the steps `ps` one after another to `s`, adding up their match counts. */
  function ApplySteps(ps: seq<Pattern>, s: string): (r: Rewrite)
    ensures r.count == 0 ==> r.text == s
  {
    if ps == [] then Rewrite(s, 0)
    else
      var first := Step(ps[0], s);
      var rest := ApplySteps(ps[1..], first.text);
      Rewrite(rest.text, first.count + rest.count)
  }

  /** The six replacements of `replaceTextInNode`, in their order, with the total match count. */
  function Cascade(s: string): (r: Rewrite)
    ensures r.count == 0 ==> r.text == s
  {
    ApplySteps(Order, s)
  }

  /** The cascade is the six steps one after another, with the six counts added up. */
  lemma CascadeInSteps(s: string)
    ensures var r1 := Step(AppleIntelligence, s);
            var r2 := Step(ArtificialIntelligence, r1.text);
            var r3 := Step(AiSlop, r2.text);
            var r4 := Step(AiCamelPrefix, r3.text);
            var r5 := Step(AiDotted, r4.text);
            var r6 := Step(BareAi, r5.text);
            Cascade(s) == Rewrite(r6.text, r1.count + r2.count + r3.count + r4.count + r5.count + r6.count)
  {
    var r1 := Step(AppleIntelligence, s);
    var r2 := Step(ArtificialIntelligence, r1.text);
    var r3 := Step(AiSlop, r2.text);
    var r4 := Step(AiCamelPrefix, r3.text);
    var r5 := Step(AiDotted, r4.text);
    var r6 := Step(BareAi, r5.text);
    var a6 := ApplySteps([BareAi], r5.text);
    assert a6 == Rewrite(r6.text, r6.count) by { ApplyStepsCons([BareAi], r5.text); }
    var a5 := ApplySteps([AiDotted, BareAi], r4.text);
    assert a5 == Rewrite(a6.text, r5.count + a6.count) by { ApplyStepsCons([AiDotted, BareAi], r4.text); }
    var a4 := ApplySteps([AiCamelPrefix, AiDotted, BareAi], r3.text);
    assert a4 == Rewrite(a5.text, r4.count + a5.count) by { ApplyStepsCons([AiCamelPrefix, AiDotted, BareAi], r3.text); }
    var a3 := ApplySteps([AiSlop, AiCamelPrefix, AiDotted, BareAi], r2.text);
    assert a3 == Rewrite(a4.text, r3.count + a4.count) by { ApplyStepsCons([AiSlop, AiCamelPrefix, AiDotted, BareAi], r2.text); }
    var a2 := ApplySteps([ArtificialIntelligence, AiSlop, AiCamelPrefix, AiDotted, BareAi], r1.text);
    assert a2 == Rewrite(a3.text, r2.count + a3.count) by { ApplyStepsCons([ArtificialIntelligence, AiSlop, AiCamelPrefix, AiDotted, BareAi], r1.text); }
    assert Cascade(s) == Rewrite(a2.text, r1.count + a2.count) by { ApplyStepsCons(Order, s); }
  }

  lemma ApplyStepsCons(ps: seq<Pattern>, s: string)
    requires ps != []
    ensures var first := Step(ps[0], s);
            var rest := ApplySteps(ps[1..], first.text);
            ApplySteps(ps, s) == Rewrite(rest.text, first.count + rest.count)
  {
  }

  /** The scan from `i` counts nothing exactly when the pattern matches at no position from `i` on. */
  lemma {:induction false} ScanCountZeroIff(p: Pattern, s: string, i: nat)
    requires i <= |s|
    ensures Scan(p, s, i).count == 0 <==> forall k :: i <= k <= |s| ==> MatchAt(p, s, k).None?
    decreases |s| - i
  {
    if i < |s| {
      match MatchAt(p, s, i)
      case Some(mt) =>
        assert Scan(p, s, i).count == Scan(p, s, mt.end).count + 1;
      case None =>
        assert Scan(p, s, i).count == Scan(p, s, i + 1).count;
        ScanCountZeroIff(p, s, i + 1);
    } else {
      assert MatchAt(p, s, |s|).None?;
    }
  }

  /**
   * Every callback run loses at least one letter i: each pattern's match contains an 'i' or
   * 'I' outside its captured group, and the callback writes none of its own.
   */
  lemma MatchDropsI(p: Pattern, s: string, i: nat)
    requires i <= |s| && MatchAt(p, s, i).Some?
    ensures var mt := MatchAt(p, s, i).value;
            ICount(Replacement(p, s[i..mt.end], mt.group)) + 1 <= ICount(s[i..mt.end])
  {
    var mt := MatchAt(p, s, i).value;
    var m := s[i..mt.end];
    ReplacementAddsNoI(p, m, mt.group);
    match p
    case AppleIntelligence =>
      TwoWordMatchDropsI(s, i, "apple", "intelligence", 5);
    case ArtificialIntelligence =>
      TwoWordMatchDropsI(s, i, "artificial", "intelligence", 3);
    case AiSlop =>
      TwoWordMatchDropsI(s, i, "ai", "slop", 1);
    case AiCamelPrefix =>
      assert m == s[i..i + 2] + mt.group;
      ICountConcat(s[i..i + 2], mt.group);
      ICountAt(s[i..i + 2], 1);
    case AiDotted =>
      ICountAt(m, 2);
    case BareAi =>
      ICountAt(m, 1);
  }

  /**
   * A two-word match holds a letter i outside its captured run when the lower-case pattern
   * has an 'i' at `k` of its first word, or (for `k == |first|`) at the start of its second.
   */
  lemma TwoWordMatchDropsI(s: string, i: nat, first: string, second: string, k: nat)
    requires i <= |s| && |first| > 0 && |second| > 0 && TwoWordMatch(s, i, first, second).Some?
    requires (k < |first| && first[k] == 'i') || (k == |first| && second[0] == 'i')
    ensures var mt := TwoWordMatch(s, i, first, second).value;
            ICount(mt.group) + 1 <= ICount(s[i..mt.end])
  {
    var mt := TwoWordMatch(s, i, first, second).value;
    var m, g := s[i..mt.end], mt.group;
    TwoWordMatchShape(s, i, first, second);
    if k < |first| {
      assert Lower(m[k]) == 'i' by { assert LowerStr(m[..|first|])[k] == Lower(m[k]); }
      TwoWordDropsI(m, first, g, second, k);
    } else {
      var n := |first| + |g|;
      assert Lower(m[n]) == 'i' by { assert LowerStr(m[n..])[0] == Lower(m[n]); }
      TwoWordDropsI(m, first, g, second, n);
    }
  }

  /** A two-word match has a letter i at `k`, outside the captured run `g`. */
  lemma TwoWordDropsI(m: string, first: string, g: string, second: string, k: nat)
    requires TwoWordShape(m, first, g, second)
    requires k < |m| && (k < |first| || k >= |first| + |g|) && Lower(m[k]) == 'i'
    ensures ICount(g) + 1 <= ICount(m)
  {
    var a, b := |first|, |first| + |g|;
    assert m == m[..a] + g + m[b..];
    ICountConcat(m[..a], g);
    ICountConcat(m[..a] + g, m[b..]);
    if k < a {
      assert m[..a][k] == m[k];
      ICountAt(m[..a], k);
    } else {
      assert m[b..][k - b] == m[k];
      ICountAt(m[b..], k - b);
    }
  }

  /** The letters i left after a global `replace`, plus the callback runs, never exceed those before it. */
  lemma {:induction false} ScanDropsI(p: Pattern, s: string, i: nat)
    requires i <= |s|
    ensures ICount(Scan(p, s, i).text) + Scan(p, s, i).count <= ICount(s[i..])
    decreases |s| - i, 1
  {
    if i < |s| {
      if MatchAt(p, s, i).Some? {
        ScanDropsIAtMatch(p, s, i);
      } else {
        ScanDropsIAtCopy(p, s, i);
      }
    }
  }

  /** The case of `ScanDropsI` where the pattern matches at `i`. */
  lemma {:induction false} ScanDropsIAtMatch(p: Pattern, s: string, i: nat)
    requires i < |s| && MatchAt(p, s, i).Some?
    ensures ICount(Scan(p, s, i).text) + Scan(p, s, i).count <= ICount(s[i..])
    decreases |s| - i, 0
  {
    var mt := MatchAt(p, s, i).value;
    var rest := Scan(p, s, mt.end);
    var r := Replacement(p, s[i..mt.end], mt.group);
    assert Scan(p, s, i) == Rewrite(r + rest.text, rest.count + 1);
    ScanDropsI(p, s, mt.end);
    MatchDropsI(p, s, i);
    assert s[i..] == s[i..mt.end] + s[mt.end..];
    ConcatDropsI(r, s[i..mt.end], rest.text, s[mt.end..]);
  }

  /** The case of `ScanDropsI` where the character at `i` is copied. */
  lemma {:induction false} ScanDropsIAtCopy(p: Pattern, s: string, i: nat)
    requires i < |s| && MatchAt(p, s, i).None?
    ensures ICount(Scan(p, s, i).text) + Scan(p, s, i).count <= ICount(s[i..])
    decreases |s| - i, 0
  {
    var rest := Scan(p, s, i + 1);
    assert Scan(p, s, i) == Rewrite([s[i]] + rest.text, rest.count);
    ScanDropsI(p, s, i + 1);
    assert s[i..] == [s[i]] + s[i + 1..];
    ConcatDropsI([s[i]], [s[i]], rest.text, s[i + 1..]);
  }

  /** Letter i counts add up over a concatenation. */
  lemma ConcatDropsI(out1: string, in1: string, out2: string, in2: string)
    ensures ICount(out1 + out2) - ICount(in1 + in2) == (ICount(out1) - ICount(in1)) + (ICount(out2) - ICount(in2))
  {
    ICountConcat(out1, out2);
    ICountConcat(in1, in2);
  }

  lemma {:induction false} ApplyStepsDropsI(ps: seq<Pattern>, s: string)
    ensures ICount(ApplySteps(ps, s).text) + ApplySteps(ps, s).count <= ICount(s)
    decreases |ps|
  {
    if ps != [] {
      ScanDropsI(ps[0], s, 0);
      assert s[0..] == s;
      ApplyStepsDropsI(ps[1..], Step(ps[0], s).text);
    }
  }

  /** Each callback run of the cascade removes a letter i, so a cascade that ran a callback changed the text. */
  lemma CascadeDropsI(s: string)
    ensures ICount(Cascade(s).text) + Cascade(s).count <= ICount(s)
    ensures Cascade(s).count > 0 ==> Cascade(s).text != s
  {
    ApplyStepsDropsI(Order, s);
  }

  /** A whole-word upper-case "AI" at `k` of `t`, where `leftWord` says whether the character before `t` is a word character. */
  predicate BareAiAt(leftWord: bool, t: string, k: nat) {
    k + 2 <= |t| && t[k] == 'A' && t[k + 1] == 'I' &&
    (if k == 0 then !leftWord else !IsWordChar(t[k - 1])) &&
    (k + 2 == |t| || !IsWordChar(t[k + 2]))
  }

  ghost predicate NoBareAi(leftWord: bool, t: string) {
    forall k: nat :: !BareAiAt(leftWord, t, k)
  }

  lemma BareAiAtMatches(t: string, k: nat)
    requires k <= |t|
    ensures MatchAt(BareAi, t, k).Some? <==> BareAiAt(false, t, k)
  {
  }

  /** Looking past a non-empty prefix only changes what is known of the character before the rest. */
  lemma BareAiAtShift(leftWord: bool, pre: string, t: string, k: nat)
    requires |pre| > 0 && k >= |pre|
    ensures BareAiAt(leftWord, pre + t, k) ==> BareAiAt(IsWordChar(pre[|pre| - 1]), t, k - |pre|)
  {
  }

  /**
   * The output of the step-6 scan from `i` holds no whole-word "AI" (judged with the
   * original character before `i` as context), is empty only at the end of the input, and
   * starts with a word character exactly when the input does at `i`.
   */
  lemma {:induction false} BareAiScanClean(s: string, i: nat)
    requires i <= |s|
    ensures var o := Scan(BareAi, s, i).text;
            && (|o| == 0 <==> i == |s|)
            && (i < |s| ==> IsWordChar(o[0]) == IsWordChar(s[i]))
            && NoBareAi(i > 0 && IsWordChar(s[i - 1]), o)
    decreases |s| - i, 1
  {
    if i < |s| {
      if MatchAt(BareAi, s, i).Some? {
        BareAiScanCleanAtMatch(s, i);
      } else {
        BareAiScanCleanAtCopy(s, i);
      }
    }
  }

  /** The case of `BareAiScanClean` where "AI" matches at `i` and becomes "Slop". */
  lemma {:induction false} BareAiScanCleanAtMatch(s: string, i: nat)
    requires i < |s| && MatchAt(BareAi, s, i).Some?
    ensures var o := Scan(BareAi, s, i).text;
            && |o| > 0 && IsWordChar(o[0]) == IsWordChar(s[i])
            && NoBareAi(i > 0 && IsWordChar(s[i - 1]), o)
    decreases |s| - i, 0
  {
    var lw := i > 0 && IsWordChar(s[i - 1]);
    var o := Scan(BareAi, s, i).text;
    var rest := Scan(BareAi, s, i + 2).text;
    BareAiScanClean(s, i + 2);
    assert s[i + 1] == 'I';
    assert o == "Slop" + rest;
    forall k: nat ensures !BareAiAt(lw, o, k) {
      if k >= 4 {
        BareAiAtShift(lw, "Slop", rest, k);
      } else if k + 2 <= |o| {
        assert o[k] != 'A';
      }
    }
  }

  /** The case of `BareAiScanClean` where nothing matches at `i` and its character is copied. */
  lemma {:induction false} BareAiScanCleanAtCopy(s: string, i: nat)
    requires i < |s| && MatchAt(BareAi, s, i).None?
    ensures var o := Scan(BareAi, s, i).text;
            && |o| > 0 && o[0] == s[i]
            && NoBareAi(i > 0 && IsWordChar(s[i - 1]), o)
    decreases |s| - i, 0
  {
    var lw := i > 0 && IsWordChar(s[i - 1]);
    var o := Scan(BareAi, s, i).text;
    var rest := Scan(BareAi, s, i + 1).text;
    BareAiScanClean(s, i + 1);
    assert o == [s[i]] + rest;
    forall k: nat ensures !BareAiAt(lw, o, k) {
      if k >= 1 {
        BareAiAtShift(lw, [s[i]], rest, k);
      } else if i + 1 < |s| && MatchAt(BareAi, s, i + 1).None? {
        var rest2 := Scan(BareAi, s, i + 2).text;
        BareAiScanClean(s, i + 2);
        assert rest == [s[i + 1]] + rest2;
        assert |o| > 2 ==> o[2] == rest2[0];
        assert BareAiAt(lw, o, 0) ==> WordBoundary(s, i) && WordBoundary(s, i + 2);
      } else if i + 1 < |s| {
        BareAiRule(s, i + 1);
        assert rest[0] == 'S';
      }
    }
  }

  /** After step 6 no whole-word upper-case "AI" is left, so running step 6 again matches nothing. */
  lemma NoBareAiAfterStep(s: string)
    ensures var o := Step(BareAi, s).text;
            && (forall k :: 0 <= k <= |o| ==> MatchAt(BareAi, o, k).None?)
            && Step(BareAi, o) == Rewrite(o, 0)
  {
    var o := Step(BareAi, s).text;
    BareAiScanClean(s, 0);
    forall k | 0 <= k <= |o| ensures MatchAt(BareAi, o, k).None? {
      BareAiAtMatches(o, k);
    }
    ScanCountZeroIff(BareAi, o, 0);
  }

  /** The text the cascade leaves behind contains no whole-word upper-case "AI". */
  lemma CascadeLeavesNoBareAi(s: string)
    ensures var o := Cascade(s).text;
            forall k :: 0 <= k <= |o| ==> MatchAt(BareAi, o, k).None?
  {
    CascadeInSteps(s);
    var r1 := Step(AppleIntelligence, s);
    var r2 := Step(ArtificialIntelligence, r1.text);
    var r3 := Step(AiSlop, r2.text);
    var r4 := Step(AiCamelPrefix, r3.text);
    var r5 := Step(AiDotted, r4.text);
    NoBareAiAfterStep(r5.text);
  }

  /** Step 4 leaves all-capital acronyms alone: "AIO" and "AIML" have no lower-case letter after the capital. */
  lemma CamelPrefixSkipsAcronyms()
    ensures Step(AiCamelPrefix, "AIO").count == 0
    ensures Step(AiCamelPrefix, "AIML").count == 0
  {
    ScanCountZeroIff(AiCamelPrefix, "AIO", 0);
    ScanCountZeroIff(AiCamelPrefix, "AIML", 0);
  }

  /** Step 4 is case-sensitive: "aiStorage" is left alone. */
  lemma CamelPrefixSkipsLowerCase()
    ensures Step(AiCamelPrefix, "aiStorage").count == 0
  {
    // Unneeded in principle; without these steps the solver runs out of resource on some seeds.
    var s := "aiStorage";
    forall k | 0 <= k <= |s| ensures MatchAt(AiCamelPrefix, s, k).None? {
      if 0 < k < |s| {
        assert IsWordChar(s[k - 1]) && IsWordChar(s[k]);
      }
    }
    ScanCountZeroIff(AiCamelPrefix, s, 0);
  }

  /** Step 4 on "AIStor": one match, and the rest of the word stays behind "Slop". */
  lemma CamelPrefixRewrites()
    ensures Step(AiCamelPrefix, "AIStor") == Rewrite("SlopStor", 1)
  {
    // Unneeded in principle; these steps halve the solver's work and keep it stable across seeds.
    var s := "AIStor";
    assert WordRunEnd(s, 3) == 6 by {
      assert WordRunEnd(s, 6) == 6;
      assert WordRunEnd(s, 5) == 6;
      assert WordRunEnd(s, 4) == 6;
    }
    assert WordBoundary(s, 0) && IsUpper(s[2]) && IsLower(s[3]);
    assert s[2..6] == "Stor";
    assert MatchAt(AiCamelPrefix, s, 0) == Some(Match(6, "Stor"));
    assert Scan(AiCamelPrefix, s, 6) == Rewrite("", 0);
  }

  /** Step 3 on "AI slop": there is no guard against text that already says "slop", so it becomes "slop slop". */
  lemma AiSlopRewrites()
    ensures Step(AiSlop, "AI slop") == Rewrite("slop slop", 1)
  {
    var s := "AI slop";
    AiSlopMatchesWhole();
    TwoWordMatchShape(s, 0, "ai", "slop");
    assert s[0..7] == s;
    AiSlopCallback(s, " ");
    assert s[3..] != "Slop" by { assert s[3..][0] == 's'; }
    assert "slop" + " " + "slop" == "slop slop";
    assert Scan(AiSlop, s, 7) == Rewrite("", 0);
    assert Scan(AiSlop, s, 0) == Rewrite(Replacement(AiSlop, s[0..7], " ") + "", 1);
  }

  lemma AiSlopMatchesWhole()
    ensures MatchAt(AiSlop, "AI slop", 0) == Some(Match(7, " "))
  {
    var s := "AI slop";
    assert LowerStr(s[0..2]) == "ai";
    assert SpaceRunEnd(s, 2) == 3 by {
      assert SpaceRunEnd(s, 3) == 3;
    }
    assert LowerStr(s[3..7]) == "slop";
    assert s[2..3] == " ";
  }
}
