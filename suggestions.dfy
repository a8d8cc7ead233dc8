/** The improvement suggestions the backend attaches to an analysis. */
module Suggestions {
  import opened Text

  // The fixed messages.  The longer ones are written as concatenations so
  // that the verifier can read off their individual characters.
  const ConsiderDeveloping: string := "Consider developing more skills " + "that match the job requirements."
  const FocusPrefix: string := "Focus on learning: "
  const GreatMatch: string := "Great match! Highlight your relevant " + "skills more prominently."
  const GoodMatch: string :=
    "Good match. Consider adding a few more " + "relevant skills to strengthen your " + "profile."
  const TakeCourses: string := "Consider taking courses or projects in " + "the missing skill areas."
  const MentionAll: string := "Ensure all relevant skills are clearly " + "mentioned in your resume."
  const Quantify: string := "Quantify your achievements and " + "experience for better impact."

  /** The requirements whose lower-case form is not, exactly, the lower-case
      form of a resume skill, in requirement order. */
  function MissingExactly(required: seq<string>, resumeSkills: seq<string>): seq<string> {
    if required == [] then []
    else
      var last := required[|required| - 1];
      MissingExactly(required[..|required| - 1], resumeSkills) +
      (if Lower(last) !in LowerEach(resumeSkills) then [last] else [])
  }

  /** `MissingExactly` keeps exactly the requirements with no case-insensitive
      equal among the resume skills, in their order. */
  lemma {:induction false} MissingExactlySpec(required: seq<string>, resumeSkills: seq<string>)
    ensures forall x :: x in MissingExactly(required, resumeSkills) <==>
      x in required && Lower(x) !in LowerEach(resumeSkills)
    ensures IsSubsequence(MissingExactly(required, resumeSkills), required)
    decreases |required|
  {
    if required != [] {
      var init := required[..|required| - 1];
      var last := required[|required| - 1];
      MissingExactlySpec(init, resumeSkills);
      assert required == init + [last];
      SubsequenceExtend(MissingExactly(init, resumeSkills), init, last);
      if Lower(last) in LowerEach(resumeSkills) {
        assert MissingExactly(required, resumeSkills) == MissingExactly(init, resumeSkills);
      }
    }
  }

  /** `MissingExactly` works requirement by requirement: on concatenated
      requirement lists it gives the concatenated results, so a requirement
      written twice is listed twice. */
  lemma {:induction false} MissingExactlyConcat(p: seq<string>, q: seq<string>, resumeSkills: seq<string>)
    ensures MissingExactly(p + q, resumeSkills) == MissingExactly(p, resumeSkills) + MissingExactly(q, resumeSkills)
    decreases |q|
  {
    if q == [] {
      assert p + q == p;
    } else {
      var init := q[..|q| - 1];
      MissingExactlyConcat(p, init, resumeSkills);
      assert (p + q)[..|p + q| - 1] == p + init;
      assert (p + q)[|p + q| - 1] == q[|q| - 1];
    }
  }

  /** One requirement is listed exactly when no resume skill equals it
      ignoring case. */
  lemma MissingExactlyOfOne(x: string, resumeSkills: seq<string>)
    ensures MissingExactly([x], resumeSkills) == if Lower(x) !in LowerEach(resumeSkills) then [x] else []
  {
    assert [x][..0] == [];
  }

  /** The line naming the first three missing skills. */
  function FocusLine(missing: seq<string>): string {
    FocusPrefix + Join(missing[..Min(3, |missing|)], ", ")
  }

  /** The one tier message chosen by the 80 and 60 thresholds. */
  function Tier(matchPercentage: real): string {
    if matchPercentage >= 80.0 then GreatMatch
    else if matchPercentage >= 60.0 then GoodMatch
    else TakeCourses
  }

  /** The suggestion list for the given missing requirements and score: the
      low-score advice, the missing-skills line, the tier message and the two
      fixed reminders, each present as the conditions below decide. */
  function Expected(missing: seq<string>, matchPercentage: real): seq<string> {
    (if matchPercentage < 60.0 then [ConsiderDeveloping] else []) +
    (if missing != [] then [FocusLine(missing)] else []) +
    [Tier(matchPercentage), MentionAll, Quantify]
  }

  /** Three to five lines, always ending with the two fixed reminders. */
  lemma ExpectedShape(missing: seq<string>, matchPercentage: real)
    ensures 3 <= |Expected(missing, matchPercentage)| <= 5
    ensures var e := Expected(missing, matchPercentage);
      e[|e| - 2..] == [MentionAll, Quantify]
  {
  }

  /** The low-score advice appears exactly when the score is under 60. */
  lemma ExpectedAdvisesLowScore(missing: seq<string>, matchPercentage: real)
    ensures ConsiderDeveloping in Expected(missing, matchPercentage) <==> matchPercentage < 60.0
  {
    ConsiderDevelopingDistinct();
    if missing != [] {
      FocusLineIsFocus(missing);
      NotFocusLine(ConsiderDeveloping);
    }
  }

  /** A line naming missing skills appears exactly when some requirement is
      missing, and it names the first three of them at most. */
  lemma ExpectedNamesMissing(missing: seq<string>, matchPercentage: real)
    ensures (exists k :: 0 <= k < |Expected(missing, matchPercentage)| &&
              StartsWith(Expected(missing, matchPercentage)[k], FocusPrefix)) <==> missing != []
    ensures missing != [] ==>
      FocusPrefix + Join(missing[..Min(3, |missing|)], ", ") in Expected(missing, matchPercentage)
  {
    var e := Expected(missing, matchPercentage);
    NotFocusLine(ConsiderDeveloping);
    NotFocusLine(GreatMatch);
    NotFocusLine(GoodMatch);
    NotFocusLine(TakeCourses);
    NotFocusLine(MentionAll);
    NotFocusLine(Quantify);
    if missing != [] {
      FocusLineIsFocus(missing);
      var k := if matchPercentage < 60.0 then 1 else 0;
      assert e[k] == FocusLine(missing);
    }
  }

  /** Exactly one tier message appears, the one the thresholds select. */
  lemma ExpectedHasOneTier(missing: seq<string>, matchPercentage: real)
    ensures Tier(matchPercentage) in Expected(missing, matchPercentage)
    ensures forall t :: t in [GreatMatch, GoodMatch, TakeCourses] && t != Tier(matchPercentage) ==>
      t !in Expected(missing, matchPercentage)
  {
    ConsiderDevelopingDistinct();
    TiersDistinct();
    if missing != [] {
      FocusLineIsFocus(missing);
      NotFocusLine(GreatMatch);
      NotFocusLine(GoodMatch);
      NotFocusLine(TakeCourses);
    }
  }

  lemma FocusLineIsFocus(missing: seq<string>)
    ensures StartsWith(FocusLine(missing), FocusPrefix)
  {
    assert FocusLine(missing)[..|FocusPrefix|] == FocusPrefix;
  }

  /** `generate_suggestions`: the missing requirements are those with no
      case-insensitive equal among the resume skills, and the list built from
      them and the score has at most five lines, so the final cut to five
      never drops anything. */
  method GenerateSuggestions(resumeSkills: seq<string>, requiredSkills: seq<string>, matchPercentage: real)
    returns (suggestions: seq<string>)
    ensures suggestions == Expected(MissingExactly(requiredSkills, resumeSkills), matchPercentage)
    ensures 3 <= |suggestions| <= 5
    ensures suggestions[|suggestions| - 2..] == [MentionAll, Quantify]
  {
    var missing := MissingExactly(requiredSkills, resumeSkills);
    suggestions := [];
    if matchPercentage < 60.0 {
      suggestions := suggestions + [ConsiderDeveloping];
    }
    if missing != [] {
      suggestions := suggestions + [FocusPrefix + Join(missing[..Min(3, |missing|)], ", ")];
    }
    if matchPercentage >= 80.0 {
      suggestions := suggestions + [GreatMatch];
    } else if matchPercentage >= 60.0 {
      suggestions := suggestions + [GoodMatch];
    } else {
      suggestions := suggestions + [TakeCourses];
    }
    suggestions := suggestions + [MentionAll];
    suggestions := suggestions + [Quantify];
    assert suggestions == Expected(missing, matchPercentage);
    ExpectedShape(missing, matchPercentage);
    suggestions := suggestions[..Min(5, |suggestions|)];
  }

  /** Two strings that differ at some position differ. */
  lemma DifferAt(a: string, b: string, i: nat)
    requires i < |a| && i < |b| && a[i] != b[i]
    ensures a != b
  {
  }

  /** The low-score advice differs from every other fixed message. */
  lemma ConsiderDevelopingDistinct()
    ensures ConsiderDeveloping != GreatMatch && ConsiderDeveloping != GoodMatch
    ensures ConsiderDeveloping != TakeCourses
    ensures ConsiderDeveloping != MentionAll && ConsiderDeveloping != Quantify
  {
    DifferAt(ConsiderDeveloping, GreatMatch, 0);
    DifferAt(ConsiderDeveloping, GoodMatch, 0);
    DifferAt(ConsiderDeveloping, TakeCourses, 9);
    DifferAt(ConsiderDeveloping, MentionAll, 0);
    DifferAt(ConsiderDeveloping, Quantify, 0);
  }

  /** The three tier messages differ from one another and from the reminders. */
  lemma TiersDistinct()
    ensures GreatMatch != GoodMatch && GreatMatch != TakeCourses && GoodMatch != TakeCourses
    ensures GreatMatch != MentionAll && GreatMatch != Quantify
    ensures GoodMatch != MentionAll && GoodMatch != Quantify
    ensures TakeCourses != MentionAll && TakeCourses != Quantify
  {
    DifferAt(GreatMatch, GoodMatch, 2);
    DifferAt(GreatMatch, TakeCourses, 0);
    DifferAt(GoodMatch, TakeCourses, 0);
    DifferAt(GreatMatch, MentionAll, 0);
    DifferAt(GreatMatch, Quantify, 0);
    DifferAt(GoodMatch, MentionAll, 0);
    DifferAt(GoodMatch, Quantify, 0);
    DifferAt(TakeCourses, MentionAll, 0);
    DifferAt(TakeCourses, Quantify, 0);
  }

  /** None of the fixed messages reads as the missing-skills line. */
  lemma NotFocusLine(s: string)
    requires s != [] && s[0] != 'F'
    ensures !StartsWith(s, FocusPrefix)
  {
    assert FocusPrefix[0] == 'F';
    assert |FocusPrefix| <= |s| ==> s[..|FocusPrefix|][0] == s[0];
  }
}
