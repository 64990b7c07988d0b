/** The `Brief` record of server/types.ts. The source states its bounds only as
    comments beside the fields; here they become the predicate WellFormed and
    the executable checker Check, which reports every rule a brief breaks. */
module BriefTypes {
  import opened Common

  datatype Bullet = Bullet(text: string, evidenceIds: seq<string>)

  /** `status` stays a string: the source declares a union of three literals,
      but a cast from parsed JSON does not enforce it. */
  datatype SkillRow = SkillRow(skill: string, status: string, rampNote: Option<string>)

  datatype Outcome = Outcome(jdOutcome: string, evidenceId: string, metric: Option<string>)

  /** `plan_30_60_90`: its three keys '30', '60' and '90'. */
  datatype Plan = Plan(day30: string, day60: string, day90: string)

  datatype Risk = Risk(risk: string, mitigation: string)

  datatype JdFields = JdFields(role: string, company: string)

  datatype Brief = Brief(
    fitScore: int,
    rationale: string,
    summaryBullets: seq<Bullet>,
    skillsMatrix: seq<SkillRow>,
    outcomesAlignment: seq<Outcome>,
    ramp2w: seq<string>,
    plan: Plan,
    risks: seq<Risk>,
    cta: string,
    jdFields: JdFields)

  /** The texts of the bullets, in order. */
  function BulletTexts(bs: seq<Bullet>): (r: seq<string>)
    ensures |r| == |bs| && forall k :: 0 <= k < |bs| ==> r[k] == bs[k].text
  {
    if bs == [] then [] else [bs[0].text] + BulletTexts(bs[1..])
  }

  const MinFitScore := 55
  const MaxFitScore := 96
  const MaxRationale := 200
  const MinBullets := 6
  const MaxBullets := 8
  const MaxBulletText := 160
  const MinSkills := 8
  const MaxSkills := 12
  const MinOutcomes := 2
  const MaxOutcomes := 4
  const MinRamp := 3
  const MaxRamp := 5
  const MinRisks := 2
  const MaxRisks := 3
  const MaxCta := 120

  const Proven := "Proven"
  const Working := "Working"
  const RampIn2Weeks := "Ramp-in-2-weeks"

  /** The three members of the `status` union. */
  predicate IsStatus(s: string)
  {
    s == Proven || s == Working || s == RampIn2Weeks
  }

  /** Every bound the source writes beside a field of `Brief`; string lengths
      are counted as JavaScript counts them, in UTF-16 code units. */
  predicate WellFormed(b: Brief)
  {
    && MinFitScore <= b.fitScore <= MaxFitScore
    && Utf16Length(b.rationale) <= MaxRationale
    && MinBullets <= |b.summaryBullets| <= MaxBullets
    && (forall k :: 0 <= k < |b.summaryBullets| ==> Utf16Length(b.summaryBullets[k].text) <= MaxBulletText)
    && MinSkills <= |b.skillsMatrix| <= MaxSkills
    && (forall k :: 0 <= k < |b.skillsMatrix| ==> IsStatus(b.skillsMatrix[k].status))
    && MinOutcomes <= |b.outcomesAlignment| <= MaxOutcomes
    && MinRamp <= |b.ramp2w| <= MaxRamp
    && MinRisks <= |b.risks| <= MaxRisks
    && Utf16Length(b.cta) <= MaxCta
  }

  /** One broken rule, with the index of the offending entry where there is one. */
  datatype Violation =
    | FitScoreOutOfRange
    | RationaleTooLong
    | BulletCount
    | BulletTextTooLong(index: nat)
    | SkillCount
    | UnknownStatus(index: nat)
    | OutcomeCount
    | RampCount
    | RiskCount
    | CtaTooLong

  /** What it means for `b` to break the rule `v`. */
  predicate Breaks(b: Brief, v: Violation)
  {
    match v
    case FitScoreOutOfRange => !(MinFitScore <= b.fitScore <= MaxFitScore)
    case RationaleTooLong => Utf16Length(b.rationale) > MaxRationale
    case BulletCount => !(MinBullets <= |b.summaryBullets| <= MaxBullets)
    case BulletTextTooLong(k) => k < |b.summaryBullets| && Utf16Length(b.summaryBullets[k].text) > MaxBulletText
    case SkillCount => !(MinSkills <= |b.skillsMatrix| <= MaxSkills)
    case UnknownStatus(k) => k < |b.skillsMatrix| && !IsStatus(b.skillsMatrix[k].status)
    case OutcomeCount => !(MinOutcomes <= |b.outcomesAlignment| <= MaxOutcomes)
    case RampCount => !(MinRamp <= |b.ramp2w| <= MaxRamp)
    case RiskCount => !(MinRisks <= |b.risks| <= MaxRisks)
    case CtaTooLong => Utf16Length(b.cta) > MaxCta
  }

  /** A brief is well formed exactly when it breaks no rule. */
  lemma WellFormedIffNoBrokenRule(b: Brief)
    ensures WellFormed(b) <==> forall v :: !Breaks(b, v)
  {
    if !WellFormed(b) {
      if !(MinFitScore <= b.fitScore <= MaxFitScore) {
        assert Breaks(b, FitScoreOutOfRange);
      } else if Utf16Length(b.rationale) > MaxRationale {
        assert Breaks(b, RationaleTooLong);
      } else if !(MinBullets <= |b.summaryBullets| <= MaxBullets) {
        assert Breaks(b, BulletCount);
      } else if exists k :: 0 <= k < |b.summaryBullets| && Utf16Length(b.summaryBullets[k].text) > MaxBulletText {
        var k :| 0 <= k < |b.summaryBullets| && Utf16Length(b.summaryBullets[k].text) > MaxBulletText;
        assert Breaks(b, BulletTextTooLong(k));
      } else if !(MinSkills <= |b.skillsMatrix| <= MaxSkills) {
        assert Breaks(b, SkillCount);
      } else if exists k :: 0 <= k < |b.skillsMatrix| && !IsStatus(b.skillsMatrix[k].status) {
        var k :| 0 <= k < |b.skillsMatrix| && !IsStatus(b.skillsMatrix[k].status);
        assert Breaks(b, UnknownStatus(k));
      } else if !(MinOutcomes <= |b.outcomesAlignment| <= MaxOutcomes) {
        assert Breaks(b, OutcomeCount);
      } else if !(MinRamp <= |b.ramp2w| <= MaxRamp) {
        assert Breaks(b, RampCount);
      } else if !(MinRisks <= |b.risks| <= MaxRisks) {
        assert Breaks(b, RiskCount);
      } else {
        assert Breaks(b, CtaTooLong);
      }
    }
  }

  /** The over-long bullet texts from index `k` on. */
  function LongBullets(bs: seq<Bullet>, k: nat): (r: seq<Violation>)
    requires k <= |bs|
    ensures forall v :: v in r <==> v.BulletTextTooLong? && k <= v.index < |bs| && Utf16Length(bs[v.index].text) > MaxBulletText
    decreases |bs| - k
  {
    if k == |bs| then []
    else (if Utf16Length(bs[k].text) > MaxBulletText then [BulletTextTooLong(k)] else []) + LongBullets(bs, k + 1)
  }

  /** The rows from index `k` on whose status is not one of the three. */
  function UnknownStatuses(rows: seq<SkillRow>, k: nat): (r: seq<Violation>)
    requires k <= |rows|
    ensures forall v :: v in r <==> v.UnknownStatus? && k <= v.index < |rows| && !IsStatus(rows[v.index].status)
    decreases |rows| - k
  {
    if k == |rows| then []
    else (if IsStatus(rows[k].status) then [] else [UnknownStatus(k)]) + UnknownStatuses(rows, k + 1)
  }

  function When(c: bool, v: Violation): (r: seq<Violation>)
    ensures forall u :: u in r <==> c && u == v
  {
    if c then [v] else []
  }

  /** The rules on the score and on the lengths of `rationale` and `cta`. */
  function ScalarViolations(b: Brief): (r: seq<Violation>)
    ensures forall v :: v in r <==> (v.FitScoreOutOfRange? || v.RationaleTooLong? || v.CtaTooLong?) && Breaks(b, v)
  {
    When(!(MinFitScore <= b.fitScore <= MaxFitScore), FitScoreOutOfRange)
    + When(Utf16Length(b.rationale) > MaxRationale, RationaleTooLong)
    + When(Utf16Length(b.cta) > MaxCta, CtaTooLong)
  }

  /** The rules on `summary_bullets`. */
  function BulletViolations(b: Brief): (r: seq<Violation>)
    ensures forall v :: v in r <==> (v.BulletCount? || v.BulletTextTooLong?) && Breaks(b, v)
  {
    When(!(MinBullets <= |b.summaryBullets| <= MaxBullets), BulletCount) + LongBullets(b.summaryBullets, 0)
  }

  /** The rules on `skills_matrix`. */
  function SkillViolations(b: Brief): (r: seq<Violation>)
    ensures forall v :: v in r <==> (v.SkillCount? || v.UnknownStatus?) && Breaks(b, v)
  {
    When(!(MinSkills <= |b.skillsMatrix| <= MaxSkills), SkillCount) + UnknownStatuses(b.skillsMatrix, 0)
  }

  /** The count rules on `outcomes_alignment`, `ramp_2w` and `risks`. */
  function CountViolations(b: Brief): (r: seq<Violation>)
    ensures forall v :: v in r <==> (v.OutcomeCount? || v.RampCount? || v.RiskCount?) && Breaks(b, v)
  {
    When(!(MinOutcomes <= |b.outcomesAlignment| <= MaxOutcomes), OutcomeCount)
    + When(!(MinRamp <= |b.ramp2w| <= MaxRamp), RampCount)
    + When(!(MinRisks <= |b.risks| <= MaxRisks), RiskCount)
  }

  /** The validation the source leaves to a comment: every rule `b` breaks,
      and nothing else. */
  function Check(b: Brief): (r: seq<Violation>)
    ensures forall v :: v in r <==> Breaks(b, v)
    ensures r == [] <==> WellFormed(b)
  {
    var r := ScalarViolations(b) + BulletViolations(b) + SkillViolations(b) + CountViolations(b);
    WellFormedIffNoBrokenRule(b);
    assert r != [] ==> r[0] in r;
    r
  }
}
