/** Skill matching in the backend's `/analyze` handler: parsing the
    comma-separated requirement list, splitting the requirements into matched
    and missing skills, and the match percentage. */
module Matching {
  import opened Wrappers
  import opened Text

  // ---------------------------------------------------------------------
  // Requirement parsing

  /** The stripped form of every piece that is not blank, in order. */
  function NonBlank(pieces: seq<string>): seq<string> {
    if pieces == [] then []
    else
      var last := Strip(pieces[|pieces| - 1]);
      NonBlank(pieces[..|pieces| - 1]) + (if last != "" then [last] else [])
  }

  /** The job-requirement string split on commas, each piece stripped, blank
      pieces dropped. */
  function ParseRequirements(s: string): seq<string> {
    NonBlank(Split(s, ','))
  }

  /** Every entry of `NonBlank` is a non-empty stripped piece, and holds only
      characters that occur in the pieces. */
  lemma {:induction false} NonBlankEntries(pieces: seq<string>, sep: char)
    requires forall p :: p in pieces ==> sep !in p
    ensures forall r :: r in NonBlank(pieces) ==> r != "" && IsStripped(r) && sep !in r
    decreases |pieces|
  {
    if pieces != [] {
      var init := pieces[..|pieces| - 1];
      var last := pieces[|pieces| - 1];
      assert forall p :: p in init ==> p in pieces;
      NonBlankEntries(init, sep);
      StripStripped(last);
    }
  }

  /** `NonBlank` keeps the order of the pieces. */
  lemma {:induction false} NonBlankOrder(pieces: seq<string>)
    ensures IsSubsequence(NonBlank(pieces), StripEach(pieces))
    decreases |pieces|
  {
    if pieces != [] {
      var init := pieces[..|pieces| - 1];
      var last := Strip(pieces[|pieces| - 1]);
      NonBlankOrder(init);
      assert StripEach(pieces) == StripEach(init) + [last];
      SubsequenceExtend(NonBlank(init), StripEach(init), last);
      if last == "" {
        assert NonBlank(pieces) == NonBlank(init);
      }
    }
  }

  /** `NonBlank` keeps every piece that is not blank. */
  lemma {:induction false} NonBlankKeeps(pieces: seq<string>, i: nat)
    requires i < |pieces| && Strip(pieces[i]) != ""
    ensures Strip(pieces[i]) in NonBlank(pieces)
    decreases |pieces|
  {
    var init := pieces[..|pieces| - 1];
    if i < |init| {
      NonBlankKeeps(init, i);
      assert pieces[i] == init[i];
    }
  }

  /** Parsed requirements are non-empty, carry no surrounding whitespace and
      no comma, and keep the order of the comma-separated pieces; every piece
      that is not blank is kept. */
  lemma ParseRequirementsSpec(s: string)
    ensures forall r :: r in ParseRequirements(s) ==> r != "" && IsStripped(r) && ',' !in r
    ensures IsSubsequence(ParseRequirements(s), StripEach(Split(s, ',')))
    ensures forall p :: p in Split(s, ',') && Strip(p) != "" ==> Strip(p) in ParseRequirements(s)
  {
    var pieces := Split(s, ',');
    SplitPiecesAvoidSep(s, ',');
    NonBlankEntries(pieces, ',');
    NonBlankOrder(pieces);
    forall p | p in pieces && Strip(p) != "" ensures Strip(p) in ParseRequirements(s) {
      var i :| 0 <= i < |pieces| && pieces[i] == p;
      NonBlankKeeps(pieces, i);
    }
  }

  /** `NonBlank` works piece by piece: on a concatenation it is the
      concatenation of its results. */
  lemma {:induction false} NonBlankConcat(p: seq<string>, q: seq<string>)
    ensures NonBlank(p + q) == NonBlank(p) + NonBlank(q)
    decreases |q|
  {
    if q == [] {
      assert p + q == p;
    } else {
      var init := q[..|q| - 1];
      NonBlankConcat(p, init);
      assert (p + q)[..|p + q| - 1] == p + init;
      assert (p + q)[|p + q| - 1] == q[|q| - 1];
    }
  }

  /** Parsing splits at every comma: the requirements of `a,b` are those of
      `a` followed by those of `b`, so a requirement written twice is kept
      twice. */
  lemma ParseRequirementsAtComma(a: string, b: string)
    ensures ParseRequirements(a + [','] + b) == ParseRequirements(a) + ParseRequirements(b)
  {
    SplitAtSep(a, b, ',');
    NonBlankConcat(Split(a, ','), Split(b, ','));
  }

  /** Text without a comma is one requirement, its stripped form, unless it is
      blank. */
  lemma ParseRequirementsOfPiece(s: string)
    requires ',' !in s
    ensures ParseRequirements(s) == if Strip(s) == "" then [] else [Strip(s)]
  {
    SplitWithoutSep(s, ',');
    assert NonBlank([s]) == NonBlank([]) + (if Strip(s) != "" then [Strip(s)] else []);
  }

  // ---------------------------------------------------------------------
  // Matched and missing skills

  /** Python's `a in b or b in a` on strings. */
  predicate Overlaps(a: string, b: string) {
    Contains(a, b) || Contains(b, a)
  }

  /** The first skill whose lower-case form equals `rl`. */
  function FirstExact(rl: string, skills: seq<string>): (r: Option<string>)
    ensures r.Some? <==> exists i :: 0 <= i < |skills| && Lower(skills[i]) == rl
    ensures r.Some? ==> r.value in skills && Lower(r.value) == rl
  {
    if skills == [] then None
    else if Lower(skills[0]) == rl then Some(skills[0])
    else
      var r := FirstExact(rl, skills[1..]);
      assert forall i :: 0 < i < |skills| ==> skills[i] == skills[1..][i - 1];
      r
  }

  /** The first skill whose lower-case form and `rl` overlap. */
  function FirstOverlap(rl: string, skills: seq<string>): (r: Option<string>)
    ensures r.Some? <==> exists i :: 0 <= i < |skills| && Overlaps(Lower(skills[i]), rl)
    ensures r.Some? ==> r.value in skills && Overlaps(Lower(r.value), rl)
  {
    if skills == [] then None
    else if Overlaps(Lower(skills[0]), rl) then Some(skills[0])
    else
      var r := FirstOverlap(rl, skills[1..]);
      assert forall i :: 0 < i < |skills| ==> skills[i] == skills[1..][i - 1];
      r
  }

  /** `FirstExact` picks the earliest hit. */
  lemma {:induction false} FirstExactAt(rl: string, skills: seq<string>, j: nat)
    requires j < |skills| && Lower(skills[j]) == rl
    requires forall k :: 0 <= k < j ==> Lower(skills[k]) != rl
    ensures FirstExact(rl, skills) == Some(skills[j])
  {
    if j > 0 {
      FirstExactAt(rl, skills[1..], j - 1);
    }
  }

  /** `FirstOverlap` picks the earliest hit. */
  lemma {:induction false} FirstOverlapAt(rl: string, skills: seq<string>, j: nat)
    requires j < |skills| && Overlaps(Lower(skills[j]), rl)
    requires forall k :: 0 <= k < j ==> !Overlaps(Lower(skills[k]), rl)
    ensures FirstOverlap(rl, skills) == Some(skills[j])
  {
    if j > 0 {
      FirstOverlapAt(rl, skills[1..], j - 1);
    }
  }

  /** The extracted skill a requirement is matched with: the first one equal
      to it ignoring case if there is one, else the first one that contains
      it or is contained in it, ignoring case; `None` when it is missing. */
  function Resolve(req: string, skills: seq<string>): Option<string> {
    var rl := Lower(req);
    if rl in LowerEach(skills) then FirstExact(rl, skills) else FirstOverlap(rl, skills)
  }

  /** A requirement resolves exactly when some extracted skill overlaps it
      ignoring case, and then to one of the extracted skills that does. */
  lemma ResolveSpec(req: string, skills: seq<string>)
    ensures Resolve(req, skills).Some? <==>
      exists s :: s in skills && Overlaps(Lower(s), Lower(req))
    ensures Resolve(req, skills).Some? ==>
      Resolve(req, skills).value in skills &&
      Overlaps(Lower(Resolve(req, skills).value), Lower(req))
  {
    var rl := Lower(req);
    if rl in LowerEach(skills) {
      var i :| 0 <= i < |skills| && LowerEach(skills)[i] == rl;
      ContainsSelf(rl);
      assert Overlaps(Lower(skills[i]), rl);
      var v := FirstExact(rl, skills).value;
      ContainsSelf(Lower(v));
    } else {
      if exists s :: s in skills && Overlaps(Lower(s), rl) {
        var s :| s in skills && Overlaps(Lower(s), rl);
        var i :| 0 <= i < |skills| && skills[i] == s;
      }
    }
  }

  /** The skills appended to `matched_skills`, one per resolved requirement, in
      requirement order. */
  function MatchedOf(required: seq<string>, skills: seq<string>): seq<string> {
    if required == [] then []
    else
      var r := Resolve(required[|required| - 1], skills);
      MatchedOf(required[..|required| - 1], skills) + (if r.Some? then [r.value] else [])
  }

  /** The requirements appended to `missing_skills`, in requirement order. */
  function MissingOf(required: seq<string>, skills: seq<string>): seq<string> {
    if required == [] then []
    else
      var last := required[|required| - 1];
      MissingOf(required[..|required| - 1], skills) +
      (if Resolve(last, skills).None? then [last] else [])
  }

  /** Every requirement either contributes one matched skill or is listed as
      missing, never both. */
  lemma {:induction false} PartitionSizes(required: seq<string>, skills: seq<string>)
    ensures |MatchedOf(required, skills)| + |MissingOf(required, skills)| == |required|
    decreases |required|
  {
    if required != [] {
      PartitionSizes(required[..|required| - 1], skills);
    }
  }

  /** Missing requirements keep their order in the requirement list. */
  lemma {:induction false} MissingOrder(required: seq<string>, skills: seq<string>)
    ensures IsSubsequence(MissingOf(required, skills), required)
    decreases |required|
  {
    if required != [] {
      var init := required[..|required| - 1];
      var last := required[|required| - 1];
      MissingOrder(init, skills);
      assert required == init + [last];
      SubsequenceExtend(MissingOf(init, skills), init, last);
      if Resolve(last, skills).Some? {
        assert MissingOf(required, skills) == MissingOf(init, skills);
      }
    }
  }

  /** A requirement is missing exactly when no extracted skill overlaps it,
      ignoring case. */
  lemma {:induction false} MissingMembership(required: seq<string>, skills: seq<string>, x: string)
    ensures x in MissingOf(required, skills) <==>
      x in required && forall s :: s in skills ==> !Overlaps(Lower(s), Lower(x))
    decreases |required|
  {
    if required != [] {
      var init := required[..|required| - 1];
      var last := required[|required| - 1];
      MissingMembership(init, skills, x);
      ResolveSpec(x, skills);
      assert required == init + [last];
    }
  }

  /** Every matched skill is one of the extracted skills. */
  lemma {:induction false} MatchedFromSkills(required: seq<string>, skills: seq<string>)
    ensures forall m :: m in MatchedOf(required, skills) ==> m in skills
    decreases |required|
  {
    if required != [] {
      MatchedFromSkills(required[..|required| - 1], skills);
      ResolveSpec(required[|required| - 1], skills);
    }
  }

  /** The loop of the `/analyze` handler that sorts each requirement into the
      matched or the missing list. */
  method PartitionRequirements(required: seq<string>, extracted: seq<string>)
    returns (matched: seq<string>, missing: seq<string>)
    ensures matched == MatchedOf(required, extracted)
    ensures missing == MissingOf(required, extracted)
  {
    var resumeLower := LowerEach(extracted);
    matched, missing := [], [];
    var i := 0;
    while i < |required|
      invariant 0 <= i <= |required|
      invariant matched == MatchedOf(required[..i], extracted)
      invariant missing == MissingOf(required[..i], extracted)
    {
      var req := required[i];
      var rl := Lower(req);
      assert required[..i + 1] == required[..i] + [req];
      if rl in resumeLower {
        var j := 0;
        while j < |extracted|
          invariant 0 <= j <= |extracted|
          invariant forall k :: 0 <= k < j ==> Lower(extracted[k]) != rl
          invariant matched == MatchedOf(required[..i], extracted)
        {
          if Lower(extracted[j]) == rl {
            FirstExactAt(rl, extracted, j);
            matched := matched + [extracted[j]];
            break;
          }
          j := j + 1;
        }
      } else {
        var found := false;
        var j := 0;
        while j < |extracted|
          invariant 0 <= j <= |extracted|
          invariant forall k :: 0 <= k < j ==> !Overlaps(Lower(extracted[k]), rl)
          invariant !found && matched == MatchedOf(required[..i], extracted)
        {
          if Contains(Lower(extracted[j]), rl) || Contains(rl, Lower(extracted[j])) {
            FirstOverlapAt(rl, extracted, j);
            matched := matched + [extracted[j]];
            found := true;
            break;
          }
          j := j + 1;
        }
        if !found {
          missing := missing + [req];
        }
      }
      i := i + 1;
    }
    assert required[..|required|] == required;
  }

  // ---------------------------------------------------------------------
  // Match percentage

  /** Every skill lower-cased, then stripped. */
  function Normalized(skills: seq<string>): (r: seq<string>)
    ensures |r| == |skills| && forall i :: 0 <= i < |skills| ==> r[i] == Strip(Lower(skills[i]))
  {
    seq(|skills|, i requires 0 <= i < |skills| => Strip(Lower(skills[i])))
  }

  /** A normalised requirement counts when it is one of the normalised resume
      skills or overlaps one of them. */
  predicate Counted(req: string, resumeNorm: seq<string>) {
    req in resumeNorm || exists s :: s in resumeNorm && Overlaps(s, req)
  }

  /** How many normalised requirements count, each at most once. */
  function MatchCount(requiredNorm: seq<string>, resumeNorm: seq<string>): (n: nat)
    ensures n <= |requiredNorm|
  {
    if requiredNorm == [] then 0
    else
      MatchCount(requiredNorm[..|requiredNorm| - 1], resumeNorm) +
      (if Counted(requiredNorm[|requiredNorm| - 1], resumeNorm) then 1 else 0)
  }

  /** Extending the counted prefix by one requirement adds one when that
      requirement counts. */
  lemma MatchCountPrefix(requiredNorm: seq<string>, i: nat, resumeNorm: seq<string>)
    requires i < |requiredNorm|
    ensures MatchCount(requiredNorm[..i + 1], resumeNorm) ==
      MatchCount(requiredNorm[..i], resumeNorm) + (if Counted(requiredNorm[i], resumeNorm) then 1 else 0)
  {
    assert requiredNorm[..i + 1][..i] == requiredNorm[..i];
  }

  /** The partial-match loop of `calculate_match_percentage`: scan the
      resume skills until one contains the requirement or is contained in it. */
  method SearchOverlap(req: string, resumeNorm: seq<string>) returns (hit: bool)
    ensures hit <==> exists s :: s in resumeNorm && Overlaps(s, req)
  {
    hit := false;
    var j := 0;
    while j < |resumeNorm|
      invariant 0 <= j <= |resumeNorm|
      invariant forall k :: 0 <= k < j ==> !Overlaps(resumeNorm[k], req)
    {
      if Contains(resumeNorm[j], req) || Contains(req, resumeNorm[j]) {
        hit := true;
        assert Overlaps(resumeNorm[j], req);
        return;
      }
      j := j + 1;
    }
    forall s | s in resumeNorm ensures !Overlaps(s, req) {
      var k :| 0 <= k < |resumeNorm| && resumeNorm[k] == s;
    }
  }

  /** `calculate_match_percentage` without the final rounding to two decimals:
      0 for no requirements, else the share of requirements that count, as a
      percentage between 0 and 100. */
  method CalculateMatchPercentage(resumeSkills: seq<string>, requiredSkills: seq<string>)
    returns (percentage: real)
    ensures requiredSkills == [] ==> percentage == 0.0
    ensures percentage == Percent(MatchCount(Normalized(requiredSkills), Normalized(resumeSkills)), |requiredSkills|)
    ensures 0.0 <= percentage <= 100.0
  {
    if |requiredSkills| == 0 {
      return 0.0;
    }
    var resumeNorm := Normalized(resumeSkills);
    var requiredNorm := Normalized(requiredSkills);
    var matched := 0;
    var i := 0;
    while i < |requiredNorm|
      invariant 0 <= i <= |requiredNorm|
      invariant matched == MatchCount(requiredNorm[..i], resumeNorm)
    {
      var req := requiredNorm[i];
      if req in resumeNorm {
        matched := matched + 1;
      } else {
        var hit := SearchOverlap(req, resumeNorm);
        if hit {
          matched := matched + 1;
        }
      }
      MatchCountPrefix(requiredNorm, i, resumeNorm);
      i := i + 1;
    }
    assert requiredNorm[..|requiredNorm|] == requiredNorm;
    percentage := (matched as real) / (|requiredNorm| as real) * 100.0;
    PercentBounds(matched, |requiredNorm|);
  }

  /** `part` out of `whole` as a percentage; none out of none is 0. */
  function Percent(part: int, whole: nat): real {
    if whole == 0 then 0.0 else (part as real) / (whole as real) * 100.0
  }

  /** A part of a whole, as a percentage, lies between 0 and 100. */
  lemma PercentBounds(part: nat, whole: nat)
    requires part <= whole
    ensures 0.0 <= Percent(part, whole) <= 100.0
  {
    if whole > 0 {
      var q := (part as real) / (whole as real);
      assert q * (whole as real) == part as real;
      assert q <= 1.0 by {
        if q > 1.0 {
          assert q * (whole as real) > whole as real;
        }
      }
    }
  }

  /** Normalising stripped skills only lowers them. */
  lemma NormalizedOfStripped(skills: seq<string>)
    requires forall s :: s in skills ==> IsStripped(s)
    ensures Normalized(skills) == LowerEach(skills)
  {
    forall i | 0 <= i < |skills| ensures Normalized(skills)[i] == LowerEach(skills)[i] {
      LowerOfStripped(skills[i]);
      StripOfStripped(Lower(skills[i]));
    }
  }

  /** For a stripped requirement and stripped skills, the percentage counts
      the requirement exactly when the handler resolves it to a skill. */
  lemma CountedIffResolved(req: string, skills: seq<string>)
    requires IsStripped(req)
    requires forall s :: s in skills ==> IsStripped(s)
    ensures Counted(Strip(Lower(req)), Normalized(skills)) <==> Resolve(req, skills).Some?
  {
    LowerOfStripped(req);
    StripOfStripped(Lower(req));
    NormalizedOfStripped(skills);
    var rl := Lower(req);
    var resumeNorm := LowerEach(skills);
    ResolveSpec(req, skills);
    if Counted(rl, resumeNorm) {
      var i: int;
      if rl in resumeNorm {
        i :| 0 <= i < |resumeNorm| && resumeNorm[i] == rl;
        ContainsSelf(rl);
      } else {
        var s :| s in resumeNorm && Overlaps(s, rl);
        i :| 0 <= i < |resumeNorm| && resumeNorm[i] == s;
      }
      assert skills[i] in skills && Overlaps(Lower(skills[i]), rl);
    } else {
      forall s | s in skills ensures !Overlaps(Lower(s), rl) {
        var i :| 0 <= i < |skills| && skills[i] == s;
        assert resumeNorm[i] == Lower(s);
      }
    }
  }

  /** The count over all requirements is the count over all but the last,
      plus one when the last one counts. */
  lemma MatchCountStep(required: seq<string>, resumeNorm: seq<string>)
    requires required != []
    ensures MatchCount(Normalized(required), resumeNorm) ==
      MatchCount(Normalized(required[..|required| - 1]), resumeNorm) +
      (if Counted(Strip(Lower(required[|required| - 1])), resumeNorm) then 1 else 0)
  {
    var rn := Normalized(required);
    assert rn[..|rn| - 1] == Normalized(required[..|required| - 1]);
  }

  /** On stripped skills and requirements (all that the handler ever passes),
      the percentage counts exactly the requirements that are not missing. */
  lemma {:induction false} CountAgreesWithMissing(required: seq<string>, skills: seq<string>)
    requires forall r :: r in required ==> IsStripped(r)
    requires forall s :: s in skills ==> IsStripped(s)
    ensures MatchCount(Normalized(required), Normalized(skills)) ==
      |required| - |MissingOf(required, skills)|
    decreases |required|
  {
    if required != [] {
      var init := required[..|required| - 1];
      var last := required[|required| - 1];
      assert forall r :: r in init ==> r in required;
      CountAgreesWithMissing(init, skills);
      MatchCountStep(required, Normalized(skills));
      CountedIffResolved(last, skills);
    }
  }
}
