/** The `/analyze` handler of the backend, without its HTTP plumbing: the
    keyword extractors, the matching and the suggestions put together into
    one analysis result. */
module Analyzer {
  import opened Wrappers
  import opened Text
  import opened Extraction
  import opened Matching
  import opened Suggestions

  /** The result record the front end renders; the two summaries are optional
      there and always present in what this handler returns. */
  datatype AnalysisResult = AnalysisResult(
    extractedSkills: seq<string>,
    matchedSkills: seq<string>,
    missingSkills: seq<string>,
    matchPercentage: real,
    suggestions: seq<string>,
    experienceSummary: Option<string>,
    educationSummary: Option<string>)

  const ResumeRequired: string := "Resume text is required"

  /** `analyze_resume` on the fallback path.  An empty resume text is refused;
      otherwise every requirement is either matched with an extracted skill or
      listed as missing, the summaries are those of the two extractors, the
      matched skills are extracted skills without
      repeats, the missing ones keep the requirement order, and the
      percentage counts exactly the requirements that are not missing. */
  method AnalyzeResume(resumeText: string, jobRequirements: string)
    returns (r: Result<AnalysisResult, string>)
    ensures resumeText == "" <==> r.Failure?
    ensures r.Failure? ==> r.error == ResumeRequired
    ensures r.Success? ==>
      r.value.extractedSkills == SkillHits(AllSkills, Lower(resumeText))
    ensures r.Success? ==>
      var required := ParseRequirements(jobRequirements);
      var a := r.value;
      |MatchedOf(required, a.extractedSkills)| + |a.missingSkills| == |required| &&
      (forall m :: m in a.matchedSkills <==> m in MatchedOf(required, a.extractedSkills)) &&
      NoDuplicates(a.matchedSkills) &&
      (forall m :: m in a.matchedSkills ==> m in a.extractedSkills)
    ensures r.Success? ==>
      var required := ParseRequirements(jobRequirements);
      var a := r.value;
      a.missingSkills == MissingOf(required, a.extractedSkills) &&
      IsSubsequence(a.missingSkills, required) &&
      (forall x :: x in a.missingSkills <==>
        x in required && forall s :: s in a.extractedSkills ==> !Overlaps(Lower(s), Lower(x)))
    ensures r.Success? ==>
      var required := ParseRequirements(jobRequirements);
      var a := r.value;
      (required == [] ==> a.matchPercentage == 0.0) &&
      a.matchPercentage == Percent(|required| - |a.missingSkills|, |required|) &&
      0.0 <= a.matchPercentage <= 100.0
    ensures r.Success? ==>
      var required := ParseRequirements(jobRequirements);
      var a := r.value;
      a.suggestions == Expected(MissingExactly(required, a.extractedSkills), a.matchPercentage)
    ensures r.Success? ==>
      r.value.experienceSummary == Some(Summary(resumeText, ExperienceKeywords, 3, DefaultExperience)) &&
      r.value.educationSummary == Some(Summary(resumeText, EducationKeywords, 2, DefaultEducation))
  {
    if resumeText == "" {
      return Failure(ResumeRequired);
    }
    var required := ParseRequirements(jobRequirements);
    var extracted := ExtractSkills(resumeText);
    var experience := ExtractExperience(resumeText);
    var education := ExtractEducation(resumeText);
    var matched, missing := PartitionRequirements(required, extracted);
    var percentage := CalculateMatchPercentage(extracted, required);
    var suggestions := GenerateSuggestions(extracted, required, percentage);
    r := Success(AnalysisResult(extracted, Dedup(matched), missing, percentage, suggestions,
                                Some(experience), Some(education)));
    PartitionSizes(required, extracted);
    MatchedFromSkills(required, extracted);
    MissingFacts(required, extracted);
    ParseRequirementsSpec(jobRequirements);
    CountAgreesWithMissing(required, extracted);
  }

  /** The missing list keeps the requirement order and holds exactly the
      requirements that no skill overlaps. */
  lemma MissingFacts(required: seq<string>, skills: seq<string>)
    ensures IsSubsequence(MissingOf(required, skills), required)
    ensures forall x :: x in MissingOf(required, skills) <==>
      x in required && forall s :: s in skills ==> !Overlaps(Lower(s), Lower(x))
  {
    MissingOrder(required, skills);
    forall x ensures x in MissingOf(required, skills) <==>
      x in required && forall s :: s in skills ==> !Overlaps(Lower(s), Lower(x))
    {
      MissingMembership(required, skills, x);
    }
  }

  /** The handler and the suggestions use two notions of a missing skill:
      the response lists a requirement when no extracted skill overlaps it,
      the suggestions when no extracted skill equals it ignoring case.  The
      first is the stricter one: every requirement the response lists as
      missing is also missing for the suggestions. */
  lemma MissingIsMissingExactly(required: seq<string>, skills: seq<string>)
    ensures forall x :: x in MissingOf(required, skills) ==> x in MissingExactly(required, skills)
  {
    MissingExactlySpec(required, skills);
    forall x | x in MissingOf(required, skills)
      ensures x in MissingExactly(required, skills)
    {
      MissingMembership(required, skills, x);
      if Lower(x) in LowerEach(skills) {
        var i :| 0 <= i < |skills| && LowerEach(skills)[i] == Lower(x);
        ContainsSelf(Lower(x));
        assert Overlaps(Lower(skills[i]), Lower(x));
      }
    }
  }
}
