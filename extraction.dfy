/** The keyword-based extractors the backend falls back on when no language
    model is loaded: skills from a fixed table, and short experience and
    education summaries made of the resume lines that mention a keyword. */
module Extraction {
  import opened Text

  const TechnicalSkills: seq<string> := [
    "python", "java", "javascript", "react", "node.js", "sql", "mongodb",
    "docker", "kubernetes", "aws", "git", "linux", "html", "css",
    "typescript", "angular", "vue", "django", "flask", "spring",
    "machine learning", "data science", "tensorflow", "pytorch",
    "rest api", "graphql", "microservices", "ci/cd"
  ]

  const SoftSkills: seq<string> := [
    "leadership", "communication", "teamwork", "problem-solving",
    "time management", "adaptability", "creativity", "critical thinking",
    "project management", "collaboration", "negotiation", "presentation"
  ]

  /** The skill table in scanning order: technical skills, then soft skills. */
  const AllSkills: seq<string> := TechnicalSkills + SoftSkills

  /** Every table entry is non-empty and carries no surrounding whitespace. */
  lemma AllSkillsStripped()
    ensures forall x :: x in AllSkills ==> x != [] && IsStripped(x)
  {
    forall i | 0 <= i < |TechnicalSkills|
      ensures TechnicalSkills[i] != [] && IsStripped(TechnicalSkills[i])
    {
    }
    forall i | 0 <= i < |SoftSkills|
      ensures SoftSkills[i] != [] && IsStripped(SoftSkills[i])
    {
    }
  }

  /** The entries of `table` whose lower-case form occurs in `textLower`,
      in table order. */
  function SkillHits(table: seq<string>, textLower: string): seq<string> {
    if table == [] then []
    else
      var last := table[|table| - 1];
      SkillHits(table[..|table| - 1], textLower) +
      (if Contains(textLower, Lower(last)) then [last] else [])
  }

  /** `SkillHits` keeps exactly the entries that occur in the text, and keeps
      them in table order. */
  lemma {:induction false} SkillHitsSpec(table: seq<string>, textLower: string)
    ensures forall x :: x in SkillHits(table, textLower) <==>
      x in table && Contains(textLower, Lower(x))
    ensures IsSubsequence(SkillHits(table, textLower), table)
    decreases |table|
  {
    if table != [] {
      var init := table[..|table| - 1];
      var last := table[|table| - 1];
      SkillHitsSpec(init, textLower);
      assert table == init + [last];
      if Contains(textLower, Lower(last)) {
        SubsequenceExtend(SkillHits(init, textLower), init, last);
      } else {
        SubsequenceExtend(SkillHits(init, textLower), init, last);
        assert SkillHits(table, textLower) == SkillHits(init, textLower);
      }
    }
  }

  /** Extending the scanned prefix of the table by one entry appends that
      entry exactly when it occurs in the text. */
  lemma SkillHitsPrefix(table: seq<string>, i: nat, textLower: string)
    requires i < |table|
    ensures SkillHits(table[..i + 1], textLower) ==
      SkillHits(table[..i], textLower) + (if Contains(textLower, Lower(table[i])) then [table[i]] else [])
  {
    assert table[..i + 1][..i] == table[..i];
  }

  /** The fallback `extract_skills`: every table entry whose lower-case form
      occurs in the lower-cased resume text, technical skills first, each in
      table order. */
  method ExtractSkills(text: string) returns (found: seq<string>)
    ensures found == SkillHits(AllSkills, Lower(text))
    ensures forall x :: x in found <==> x in AllSkills && Contains(Lower(text), Lower(x))
    ensures IsSubsequence(found, AllSkills)
    ensures forall x :: x in found ==> x != [] && IsStripped(x)
  {
    var textLower := Lower(text);
    found := [];
    var i := 0;
    while i < |AllSkills|
      invariant 0 <= i <= |AllSkills|
      invariant found == SkillHits(AllSkills[..i], textLower)
    {
      var skill := AllSkills[i];
      if Contains(textLower, Lower(skill)) {
        found := found + [skill];
      }
      SkillHitsPrefix(AllSkills, i, textLower);
      i := i + 1;
    }
    assert AllSkills[..|AllSkills|] == AllSkills;
    SkillHitsSpec(AllSkills, textLower);
    AllSkillsStripped();
  }

  const ExperienceKeywords: seq<string> := ["experience", "work", "employment", "position", "role"]
  const EducationKeywords: seq<string> :=
    ["education", "degree", "bachelor", "master", "phd", "university", "college"]

  const DefaultExperience: string := "Experience details found in resume"
  const DefaultEducation: string := "Education details found in resume"

  /** Some keyword occurs in the lower-cased line. */
  predicate MentionsAny(line: string, keywords: seq<string>) {
    exists k :: k in keywords && Contains(Lower(line), k)
  }

  /** The stripped form of every line that mentions a keyword, in line order. */
  function KeywordLines(lines: seq<string>, keywords: seq<string>): seq<string> {
    if lines == [] then []
    else
      var last := lines[|lines| - 1];
      KeywordLines(lines[..|lines| - 1], keywords) +
      (if MentionsAny(last, keywords) then [Strip(last)] else [])
  }

  /** `KeywordLines` keeps one stripped line per line that mentions a
      keyword, in their order in the text. */
  lemma {:induction false} KeywordLinesOrder(lines: seq<string>, keywords: seq<string>)
    ensures |KeywordLines(lines, keywords)| <= |lines|
    ensures IsSubsequence(KeywordLines(lines, keywords), StripEach(lines))
    decreases |lines|
  {
    if lines != [] {
      var init := lines[..|lines| - 1];
      var last := lines[|lines| - 1];
      KeywordLinesOrder(init, keywords);
      assert StripEach(lines) == StripEach(init) + [Strip(last)];
      SubsequenceExtend(KeywordLines(init, keywords), StripEach(init), Strip(last));
      if !MentionsAny(last, keywords) {
        assert KeywordLines(lines, keywords) == KeywordLines(init, keywords);
      }
    }
  }

  /** `KeywordLines` works line by line: on concatenated line lists it gives
      the concatenated results, so a line that occurs twice is kept twice. */
  lemma {:induction false} KeywordLinesConcat(p: seq<string>, q: seq<string>, keywords: seq<string>)
    ensures KeywordLines(p + q, keywords) == KeywordLines(p, keywords) + KeywordLines(q, keywords)
    decreases |q|
  {
    if q == [] {
      assert p + q == p;
    } else {
      var init := q[..|q| - 1];
      KeywordLinesConcat(p, init, keywords);
      assert (p + q)[..|p + q| - 1] == p + init;
      assert (p + q)[|p + q| - 1] == q[|q| - 1];
    }
  }

  /** One line is kept, stripped, exactly when it mentions a keyword. */
  lemma KeywordLinesOfLine(line: string, keywords: seq<string>)
    ensures KeywordLines([line], keywords) == if MentionsAny(line, keywords) then [Strip(line)] else []
  {
    assert [line][..0] == [];
  }

  /** A stripped line is kept exactly when some line that strips to it
      mentions a keyword. */
  lemma {:induction false} KeywordLinesMembership(lines: seq<string>, keywords: seq<string>, x: string)
    ensures x in KeywordLines(lines, keywords) <==>
      exists i :: 0 <= i < |lines| && MentionsAny(lines[i], keywords) && x == Strip(lines[i])
    decreases |lines|
  {
    if lines != [] {
      var init := lines[..|lines| - 1];
      var n := |lines| - 1;
      KeywordLinesMembership(init, keywords, x);
      if x in KeywordLines(lines, keywords) {
        if x in KeywordLines(init, keywords) {
          var i :| 0 <= i < |init| && MentionsAny(init[i], keywords) && x == Strip(init[i]);
          assert lines[i] == init[i];
        } else {
          assert MentionsAny(lines[n], keywords) && x == Strip(lines[n]);
        }
      } else {
        forall i | 0 <= i < |lines| && MentionsAny(lines[i], keywords)
          ensures x != Strip(lines[i])
        {
          if i < n {
            assert init[i] == lines[i];
          }
        }
      }
    }
  }

  /** The loop shared by both summaries: split the text on line feeds and keep
      the stripped lines that mention a keyword. */
  method CollectKeywordLines(text: string, keywords: seq<string>) returns (selected: seq<string>)
    ensures selected == KeywordLines(Split(text, '\n'), keywords)
  {
    var lines := Split(text, '\n');
    selected := [];
    var i := 0;
    while i < |lines|
      invariant 0 <= i <= |lines|
      invariant selected == KeywordLines(lines[..i], keywords)
    {
      if MentionsAny(lines[i], keywords) {
        selected := selected + [Strip(lines[i])];
      }
      assert lines[..i + 1][..i] == lines[..i];
      i := i + 1;
    }
    assert lines[..|lines|] == lines;
  }

  /** The summary an extractor builds: the first `count` keyword lines
      joined by a space, or `fallback` when no line mentions a keyword. */
  function Summary(text: string, keywords: seq<string>, count: nat, fallback: string): string {
    var sel := KeywordLines(Split(text, '\n'), keywords);
    if sel == [] then fallback else Join(sel[..Min(count, |sel|)], " ")
  }

  /** The fallback `extract_experience`: the first three keyword lines joined
      by a space, or the fixed default when no line mentions a keyword. */
  method ExtractExperience(text: string) returns (summary: string)
    ensures var sel := KeywordLines(Split(text, '\n'), ExperienceKeywords);
      (sel == [] ==> summary == DefaultExperience) &&
      (sel != [] ==> summary == Join(sel[..Min(3, |sel|)], " "))
    ensures summary == Summary(text, ExperienceKeywords, 3, DefaultExperience)
  {
    var selected := CollectKeywordLines(text, ExperienceKeywords);
    if selected != [] {
      summary := Join(selected[..Min(3, |selected|)], " ");
    } else {
      summary := DefaultExperience;
    }
  }

  /** The fallback `extract_education`: the first two keyword lines joined by
      a space, or the fixed default when no line mentions a keyword. */
  method ExtractEducation(text: string) returns (summary: string)
    ensures var sel := KeywordLines(Split(text, '\n'), EducationKeywords);
      (sel == [] ==> summary == DefaultEducation) &&
      (sel != [] ==> summary == Join(sel[..Min(2, |sel|)], " "))
    ensures summary == Summary(text, EducationKeywords, 2, DefaultEducation)
  {
    var selected := CollectKeywordLines(text, EducationKeywords);
    if selected != [] {
      summary := Join(selected[..Min(2, |selected|)], " ");
    } else {
      summary := DefaultEducation;
    }
  }
}
