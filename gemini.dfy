/** server/gemini.ts: the request the server sends to the model, the response
    schema it asks for, the output rules its system instruction states, and
    the generation step, with the model itself as an oracle. */
module Gemini {
  import opened Common
  import opened BriefTypes
  import opened Context

  // ---------------------------------------------------------------------------
  // The request

  const NotSpecified := "Not specified"

  /** `userContent`: what the model is asked about. */
  datatype UserContent = UserContent(jdText: string, role: string, company: string, contextPack: ContextPack)

  /** The request for a job description and the optional role and company. */
  function BuildUserContent(jdText: string, role: Option<string>, company: Option<string>): (u: UserContent)
    ensures u.jdText == jdText
    ensures role.Some? && role.value != "" ==> u.role == role.value
    ensures role.None? || role.value == "" ==> u.role == NotSpecified
    ensures company.Some? && company.value != "" ==> u.company == company.value
    ensures company.None? || company.value == "" ==> u.company == NotSpecified
    ensures u.contextPack == Pack
  {
    UserContent(jdText, OrDefault(role, NotSpecified), OrDefault(company, NotSpecified), Pack)
  }

  // ---------------------------------------------------------------------------
  // The response schema

  datatype SchemaType =
    | TObject(props: seq<Prop>)
    | TArray(items: SchemaType)
    | TString(enumValues: seq<string>, nullable: bool)
    | TNumber

  datatype Prop = Prop(key: string, schema: SchemaType)

  const Str := TString([], false)
  const NullableStr := TString([], true)
  const StatusEnum := [Proven, Working, RampIn2Weeks]

  /** The item schemas of `skills_matrix` and `outcomes_alignment`. */
  const SkillRowSchema := TObject([Prop("skill", Str), Prop("status", TString(StatusEnum, false)), Prop("ramp_note", NullableStr)])
  const OutcomeSchema := TObject([Prop("jd_outcome", Str), Prop("evidence_id", Str), Prop("metric", NullableStr)])

  /** `responseSchema` */
  const ResponseSchema := TObject([
    Prop("fit_score", TNumber),
    Prop("rationale", Str),
    Prop("summary_bullets", TArray(TObject([Prop("text", Str), Prop("evidence_ids", TArray(Str))]))),
    Prop("skills_matrix", TArray(SkillRowSchema)),
    Prop("outcomes_alignment", TArray(OutcomeSchema)),
    Prop("ramp_2w", TArray(Str)),
    Prop("plan_30_60_90", TObject([Prop("30", Str), Prop("60", Str), Prop("90", Str)])),
    Prop("risks", TArray(TObject([Prop("risk", Str), Prop("mitigation", Str)]))),
    Prop("cta", Str),
    Prop("jd_fields", TObject([Prop("role", Str), Prop("company", Str)]))
  ])

  /** The keys of `Brief`, in declaration order. */
  const BriefKeys := ["fit_score", "rationale", "summary_bullets", "skills_matrix", "outcomes_alignment",
                      "ramp_2w", "plan_30_60_90", "risks", "cta", "jd_fields"]

  function Keys(ps: seq<Prop>): (r: seq<string>)
    ensures |r| == |ps| && forall k :: 0 <= k < |ps| ==> r[k] == ps[k].key
  {
    if ps == [] then [] else [ps[0].key] + Keys(ps[1..])
  }

  /** The schema asks for exactly the keys of `Brief`. */
  lemma SchemaKeysAreBriefKeys()
    ensures ResponseSchema.TObject? && Keys(ResponseSchema.props) == BriefKeys
  {
    var ks := Keys(ResponseSchema.props);
    assert |ks| == |BriefKeys|;
    forall k | 0 <= k < |BriefKeys| ensures ks[k] == BriefKeys[k] {
    }
  }

  /** The schema's `status` enum is exactly the three statuses of `Brief`, and
      `ramp_note` and `metric` are nullable strings. */
  lemma SchemaStatusAndNullables()
    ensures ResponseSchema.props[3] == Prop("skills_matrix", TArray(SkillRowSchema))
    ensures ResponseSchema.props[4] == Prop("outcomes_alignment", TArray(OutcomeSchema))
    ensures SkillRowSchema.props[1] == Prop("status", TString(StatusEnum, false))
    ensures forall s :: s in StatusEnum <==> IsStatus(s)
    ensures SkillRowSchema.props[2] == Prop("ramp_note", TString([], true))
    ensures OutcomeSchema.props[2] == Prop("metric", TString([], true))
  {
  }

  // ---------------------------------------------------------------------------
  // The score rule: clamp to `score_bounds`

  /** The final score moved into `score_bounds`. */
  function Clamp(x: int): (r: int)
    ensures Pack.phrasingRules.scoreLow <= r <= Pack.phrasingRules.scoreHigh
    ensures Pack.phrasingRules.scoreLow <= x <= Pack.phrasingRules.scoreHigh ==> r == x
    ensures x < Pack.phrasingRules.scoreLow ==> r == Pack.phrasingRules.scoreLow
    ensures x > Pack.phrasingRules.scoreHigh ==> r == Pack.phrasingRules.scoreHigh
  {
    if x < Pack.phrasingRules.scoreLow then Pack.phrasingRules.scoreLow
    else if x > Pack.phrasingRules.scoreHigh then Pack.phrasingRules.scoreHigh
    else x
  }

  /** Clamping twice is clamping once, and a clamped score meets the `fit_score` bound. */
  lemma ClampIdempotent(x: int)
    ensures Clamp(Clamp(x)) == Clamp(x)
    ensures MinFitScore <= Clamp(x) <= MaxFitScore
  {
  }

  /** Clamping keeps the order of scores. */
  lemma ClampMonotone(x: int, y: int)
    requires x <= y
    ensures Clamp(x) <= Clamp(y)
  {
  }

  // ---------------------------------------------------------------------------
  // Links in a brief

  const HttpPrefix := "http://"
  const HttpsPrefix := "https://"

  predicate StartsUrl(s: string, i: nat)
  {
    OccursAt(s, HttpPrefix, i) || OccursAt(s, HttpsPrefix, i)
  }

  /** The end of the run of non-space characters that starts at `i`. */
  function RunEnd(s: string, i: nat): (j: nat)
    requires i <= |s|
    ensures i <= j <= |s|
    ensures forall k :: i <= k < j ==> !IsSpace(s[k])
    ensures j < |s| ==> IsSpace(s[j])
    decreases |s| - i
  {
    if i == |s| || IsSpace(s[i]) then i else RunEnd(s, i + 1)
  }

  predicate IsUrl(u: string)
  {
    StartsUrl(u, 0) && forall k :: 0 <= k < |u| ==> !IsSpace(u[k])
  }

  /** The links in `s[i..]`, read left to right: each starts with `http://` or
      `https://` and runs up to the next white space. */
  function UrlsFrom(s: string, i: nat): (r: seq<string>)
    requires i <= |s|
    ensures forall k :: 0 <= k < |r| ==> IsUrl(r[k])
    decreases |s| - i
  {
    if i == |s| then []
    else if StartsUrl(s, i) then
      var j := RunEnd(s, i);
      assert s[i] == 'h' by { assert s[i..i + 4][0] == 'h'; }
      assert StartsUrl(s[i..j], 0) by {
        if OccursAt(s, HttpPrefix, i) {
          assert s[i..j][0..|HttpPrefix|] == s[i..i + |HttpPrefix|];
        } else {
          assert s[i..j][0..|HttpsPrefix|] == s[i..i + |HttpsPrefix|];
        }
      }
      [s[i..j]] + UrlsFrom(s, j)
    else UrlsFrom(s, i + 1)
  }

  function Urls(s: string): seq<string> { UrlsFrom(s, 0) }

  /** Text where no link starts has no links. */
  lemma {:induction false} NoUrlsWithoutPrefix(s: string, i: nat)
    requires i <= |s| && forall k :: i <= k < |s| ==> !StartsUrl(s, k)
    ensures UrlsFrom(s, i) == []
    decreases |s| - i
  {
    if i < |s| {
      NoUrlsWithoutPrefix(s, i + 1);
    }
  }

  /** The links of every text in `texts`, in order. */
  function UrlsOfAll(texts: seq<string>): (r: seq<string>)
    ensures forall k :: 0 <= k < |r| ==> IsUrl(r[k])
  {
    if texts == [] then [] else Urls(texts[0]) + UrlsOfAll(texts[1..])
  }

  function OptText(o: Option<string>): seq<string>
  {
    if o.Some? then [o.value] else []
  }

  function SkillTexts(rows: seq<SkillRow>): seq<string>
  {
    if rows == [] then [] else [rows[0].skill] + OptText(rows[0].rampNote) + SkillTexts(rows[1..])
  }

  function OutcomeTexts(os: seq<Outcome>): seq<string>
  {
    if os == [] then [] else [os[0].jdOutcome] + OptText(os[0].metric) + OutcomeTexts(os[1..])
  }

  function RiskTexts(rs: seq<Risk>): seq<string>
  {
    if rs == [] then [] else [rs[0].risk, rs[0].mitigation] + RiskTexts(rs[1..])
  }

  /** Every piece of prose in a brief, where a link could appear. */
  function BriefTexts(b: Brief): seq<string>
  {
    [b.rationale] + BulletTexts(b.summaryBullets) + SkillTexts(b.skillsMatrix) + OutcomeTexts(b.outcomesAlignment)
    + b.ramp2w + [b.plan.day30, b.plan.day60, b.plan.day90] + RiskTexts(b.risks)
    + [b.cta, b.jdFields.role, b.jdFields.company]
  }

  /** Every link in a brief, counted with repetition. */
  function BriefUrls(b: Brief): seq<string> { UrlsOfAll(BriefTexts(b)) }

  // ---------------------------------------------------------------------------
  // Evidence a brief cites

  function BulletIds(bs: seq<Bullet>): (r: seq<string>)
    ensures forall k, j :: 0 <= k < |bs| && 0 <= j < |bs[k].evidenceIds| ==> bs[k].evidenceIds[j] in r
  {
    if bs == [] then [] else bs[0].evidenceIds + BulletIds(bs[1..])
  }

  function OutcomeIds(os: seq<Outcome>): (r: seq<string>)
    ensures forall k :: 0 <= k < |os| ==> os[k].evidenceId in r
  {
    if os == [] then [] else [os[0].evidenceId] + OutcomeIds(os[1..])
  }

  /** The ledger ids a brief cites, from its bullets and its outcomes. */
  function CitedIds(b: Brief): seq<string>
  {
    BulletIds(b.summaryBullets) + OutcomeIds(b.outcomesAlignment)
  }

  function LinkUrls(links: seq<Link>): (r: seq<string>)
    ensures forall u :: u in r <==> exists l :: 0 <= l < |links| && links[l].url == u
  {
    if links == [] then []
    else
      var rest := LinkUrls(links[1..]);
      assert forall l :: 1 <= l < |links| ==> links[l] == links[1..][l - 1];
      [links[0].url] + rest
  }

  /** The link URLs of the ledger items whose id is in `ids`. */
  function LinkedUrls(ledger: seq<EvidenceItem>, ids: seq<string>): (r: seq<string>)
    ensures forall u :: u in r <==> exists k, l :: 0 <= k < |ledger| && ledger[k].id in ids
                                                 && 0 <= l < |ledger[k].links| && ledger[k].links[l].url == u
  {
    if ledger == [] then []
    else
      var rest := LinkedUrls(ledger[1..], ids);
      assert forall k :: 1 <= k < |ledger| ==> ledger[k] == ledger[1..][k - 1];
      var here := if ledger[0].id in ids then LinkUrls(ledger[0].links) else [];
      assert forall u :: u in here <==> exists l :: 0 <= l < |ledger[0].links| && ledger[0].id in ids && ledger[0].links[l].url == u;
      here + rest
  }

  // ---------------------------------------------------------------------------
  // The rules of the system instruction

  const HardBlockerCap := 70
  const MaxLinks := 3

  /** A first bullet that reads as a mitigation plan: it mentions mitigating. */
  predicate MentionsMitigation(text: string)
  {
    Contains(LowerAscii(text), "mitigat")
  }

  /** A risk that names a skill the matrix does not mark Proven: a technical
      skill gap. */
  predicate SkillGapRisk(b: Brief)
  {
    exists i, k :: 0 <= i < |b.risks| && 0 <= k < |b.skillsMatrix|
      && b.skillsMatrix[k].status != Proven && b.skillsMatrix[k].skill != ""
      && Contains(LowerAscii(b.risks[i].risk), LowerAscii(b.skillsMatrix[k].skill))
  }

  predicate HasMicroPlan(row: SkillRow)
  {
    row.rampNote.Some? && row.rampNote.value != ""
  }

  /** The output rules of the system instruction, for a job description that has
      (`hardBlocker`) or has not a hard blocker. */
  predicate FollowsInstruction(b: Brief, hardBlocker: bool, pack: ContextPack)
  {
    && (forall id :: id in CitedIds(b) ==> Lookup(pack.proofLedger, id).Some?)
    && (forall k :: 0 <= k < |b.skillsMatrix| && b.skillsMatrix[k].status == Proven ==> b.skillsMatrix[k].skill in pack.skills.proven)
    && (forall k :: 0 <= k < |b.skillsMatrix| && b.skillsMatrix[k].status != Proven ==> HasMicroPlan(b.skillsMatrix[k]))
    && |BriefUrls(b)| <= MaxLinks
    && (forall u :: u in BriefUrls(b) ==> u in LinkedUrls(pack.proofLedger, CitedIds(b)))
    && (hardBlocker ==> b.fitScore <= HardBlockerCap)
    && (hardBlocker ==> |b.summaryBullets| > 0 && MentionsMitigation(b.summaryBullets[0].text))
    && SkillGapRisk(b)
  }

  /** One broken output rule. */
  datatype Breach =
    | UnknownEvidence(id: string)
    | UnlistedProven(row: nat)
    | MissingMicroPlan(row: nat)
    | TooManyLinks
    | UncitedLink(url: string)
    | BlockerScoreAboveCap
    | BlockerWithoutMitigation
    | NoSkillGapRisk

  predicate Breaks(b: Brief, hardBlocker: bool, pack: ContextPack, x: Breach)
  {
    match x
    case UnknownEvidence(id) => id in CitedIds(b) && Lookup(pack.proofLedger, id).None?
    case UnlistedProven(k) => k < |b.skillsMatrix| && b.skillsMatrix[k].status == Proven && b.skillsMatrix[k].skill !in pack.skills.proven
    case MissingMicroPlan(k) => k < |b.skillsMatrix| && b.skillsMatrix[k].status != Proven && !HasMicroPlan(b.skillsMatrix[k])
    case TooManyLinks => |BriefUrls(b)| > MaxLinks
    case UncitedLink(u) => u in BriefUrls(b) && u !in LinkedUrls(pack.proofLedger, CitedIds(b))
    case BlockerScoreAboveCap => hardBlocker && b.fitScore > HardBlockerCap
    case BlockerWithoutMitigation => hardBlocker && !(|b.summaryBullets| > 0 && MentionsMitigation(b.summaryBullets[0].text))
    case NoSkillGapRisk => !SkillGapRisk(b)
  }

  lemma FollowsIffNoBreach(b: Brief, hardBlocker: bool, pack: ContextPack)
    ensures FollowsInstruction(b, hardBlocker, pack) <==> forall x :: !Breaks(b, hardBlocker, pack, x)
  {
    if !FollowsInstruction(b, hardBlocker, pack) {
      if exists id :: id in CitedIds(b) && Lookup(pack.proofLedger, id).None? {
        var id :| id in CitedIds(b) && Lookup(pack.proofLedger, id).None?;
        assert Breaks(b, hardBlocker, pack, UnknownEvidence(id));
      } else if exists k :: 0 <= k < |b.skillsMatrix| && b.skillsMatrix[k].status == Proven && b.skillsMatrix[k].skill !in pack.skills.proven {
        var k :| 0 <= k < |b.skillsMatrix| && b.skillsMatrix[k].status == Proven && b.skillsMatrix[k].skill !in pack.skills.proven;
        assert Breaks(b, hardBlocker, pack, UnlistedProven(k));
      } else if exists k :: 0 <= k < |b.skillsMatrix| && b.skillsMatrix[k].status != Proven && !HasMicroPlan(b.skillsMatrix[k]) {
        var k :| 0 <= k < |b.skillsMatrix| && b.skillsMatrix[k].status != Proven && !HasMicroPlan(b.skillsMatrix[k]);
        assert Breaks(b, hardBlocker, pack, MissingMicroPlan(k));
      } else if |BriefUrls(b)| > MaxLinks {
        assert Breaks(b, hardBlocker, pack, TooManyLinks);
      } else if exists u :: u in BriefUrls(b) && u !in LinkedUrls(pack.proofLedger, CitedIds(b)) {
        var u :| u in BriefUrls(b) && u !in LinkedUrls(pack.proofLedger, CitedIds(b));
        assert Breaks(b, hardBlocker, pack, UncitedLink(u));
      } else if hardBlocker && b.fitScore > HardBlockerCap {
        assert Breaks(b, hardBlocker, pack, BlockerScoreAboveCap);
      } else if hardBlocker && !(|b.summaryBullets| > 0 && MentionsMitigation(b.summaryBullets[0].text)) {
        assert Breaks(b, hardBlocker, pack, BlockerWithoutMitigation);
      } else {
        assert Breaks(b, hardBlocker, pack, NoSkillGapRisk);
      }
    }
  }

  /** The cited ids from index `k` on that the ledger does not hold. */
  function UnknownIds(ids: seq<string>, ledger: seq<EvidenceItem>, k: nat): (r: seq<Breach>)
    requires k <= |ids|
    ensures forall x :: x in r <==> x.UnknownEvidence? && x.id in ids[k..] && Lookup(ledger, x.id).None?
    decreases |ids| - k
  {
    if k == |ids| then []
    else
      var rest := UnknownIds(ids, ledger, k + 1);
      assert forall id :: id in ids[k..] <==> id == ids[k] || id in ids[k + 1..];
      (if Lookup(ledger, ids[k]).None? then [UnknownEvidence(ids[k])] else []) + rest
  }

  /** The rows from index `k` on that break a skill rule. */
  function SkillBreaches(rows: seq<SkillRow>, proven: seq<string>, k: nat): (r: seq<Breach>)
    requires k <= |rows|
    ensures forall x :: x in r <==>
      || (x.UnlistedProven? && k <= x.row < |rows| && rows[x.row].status == Proven && rows[x.row].skill !in proven)
      || (x.MissingMicroPlan? && k <= x.row < |rows| && rows[x.row].status != Proven && !HasMicroPlan(rows[x.row]))
    decreases |rows| - k
  {
    if k == |rows| then []
    else
      var row := rows[k];
      (if row.status == Proven && row.skill !in proven then [UnlistedProven(k)] else [])
      + (if row.status != Proven && !HasMicroPlan(row) then [MissingMicroPlan(k)] else [])
      + SkillBreaches(rows, proven, k + 1)
  }

  /** The links in `urls` from index `k` on that no cited item supplies. */
  function UncitedLinks(urls: seq<string>, allowed: seq<string>, k: nat): (r: seq<Breach>)
    requires k <= |urls|
    ensures forall x :: x in r <==> x.UncitedLink? && x.url in urls[k..] && x.url !in allowed
    decreases |urls| - k
  {
    if k == |urls| then []
    else
      var rest := UncitedLinks(urls, allowed, k + 1);
      assert forall u :: u in urls[k..] <==> u == urls[k] || u in urls[k + 1..];
      (if urls[k] !in allowed then [UncitedLink(urls[k])] else []) + rest
  }

  function If(c: bool, x: Breach): (r: seq<Breach>)
    ensures forall y :: y in r <==> c && y == x
  {
    if c then [x] else []
  }

  /** The breaches of the evidence rule. */
  function EvidenceBreaches(b: Brief, hardBlocker: bool, pack: ContextPack): (r: seq<Breach>)
    ensures forall x :: x in r <==> x.UnknownEvidence? && Breaks(b, hardBlocker, pack, x)
  {
    var ids := CitedIds(b);
    assert ids[0..] == ids;
    UnknownIds(ids, pack.proofLedger, 0)
  }

  /** The breaches of the skill rules. */
  function RosterBreaches(b: Brief, hardBlocker: bool, pack: ContextPack): (r: seq<Breach>)
    ensures forall x :: x in r <==> (x.UnlistedProven? || x.MissingMicroPlan?) && Breaks(b, hardBlocker, pack, x)
  {
    SkillBreaches(b.skillsMatrix, pack.skills.proven, 0)
  }

  /** The breaches of the link budget. */
  function LinkBreaches(b: Brief, hardBlocker: bool, pack: ContextPack): (r: seq<Breach>)
    ensures forall x :: x in r <==> (x.TooManyLinks? || x.UncitedLink?) && Breaks(b, hardBlocker, pack, x)
  {
    var urls := BriefUrls(b);
    assert urls[0..] == urls;
    If(|urls| > MaxLinks, TooManyLinks) + UncitedLinks(urls, LinkedUrls(pack.proofLedger, CitedIds(b)), 0)
  }

  /** The breaches of the hard-blocker and skill-gap rules. */
  function RiskBreaches(b: Brief, hardBlocker: bool, pack: ContextPack): (r: seq<Breach>)
    ensures forall x :: x in r <==>
      (x.BlockerScoreAboveCap? || x.BlockerWithoutMitigation? || x.NoSkillGapRisk?) && Breaks(b, hardBlocker, pack, x)
  {
    If(hardBlocker && b.fitScore > HardBlockerCap, BlockerScoreAboveCap)
    + If(hardBlocker && !(|b.summaryBullets| > 0 && MentionsMitigation(b.summaryBullets[0].text)), BlockerWithoutMitigation)
    + If(!SkillGapRisk(b), NoSkillGapRisk)
  }

  /** Every output rule `b` breaks, and nothing else. */
  function CheckInstruction(b: Brief, hardBlocker: bool, pack: ContextPack): (r: seq<Breach>)
    ensures forall x :: x in r <==> Breaks(b, hardBlocker, pack, x)
    ensures r == [] <==> FollowsInstruction(b, hardBlocker, pack)
  {
    var r := EvidenceBreaches(b, hardBlocker, pack) + RosterBreaches(b, hardBlocker, pack)
             + LinkBreaches(b, hardBlocker, pack) + RiskBreaches(b, hardBlocker, pack);
    FollowsIffNoBreach(b, hardBlocker, pack);
    assert r != [] ==> r[0] in r;
    r
  }

  // ---------------------------------------------------------------------------
  // What the rules guarantee about briefs built on this context pack

  /** A brief that follows the rules under a hard blocker scores between 55 and 70. */
  lemma HardBlockerCapsScore(b: Brief, pack: ContextPack)
    requires WellFormed(b) && FollowsInstruction(b, true, pack)
    ensures MinFitScore <= b.fitScore <= HardBlockerCap
  {
  }

  /** A skill on the working or adjacent list is never marked Proven. */
  lemma NonRosterSkillNeverProven(b: Brief, hardBlocker: bool, pack: ContextPack, k: nat)
    requires pack.skills == Roster && FollowsInstruction(b, hardBlocker, pack) && k < |b.skillsMatrix|
    requires b.skillsMatrix[k].skill in Roster.working || b.skillsMatrix[k].skill in Roster.adjacent
    ensures b.skillsMatrix[k].status != Proven
  {
    SkillListsDisjoint();
  }

  /** The URLs the ledger supplies for a set of cited ids: the MTTR post when
      `result-mttr-50` is cited, the OCR repository when `proj-ocr-pipeline` is. */
  lemma LedgerUrlsForIds(ids: seq<string>)
    ensures forall u :: u in LinkedUrls(Ledger, ids) <==> (u == MttrUrl && MttrId in ids) || (u == OcrUrl && OcrId in ids)
  {
    LedgerLinks();
    forall u | u in LinkedUrls(Ledger, ids) ensures (u == MttrUrl && MttrId in ids) || (u == OcrUrl && OcrId in ids) {
      var k, l :| 0 <= k < |Ledger| && Ledger[k].id in ids && 0 <= l < |Ledger[k].links| && Ledger[k].links[l].url == u;
      assert k < 2 && l == 0;
    }
    if MttrId in ids {
      assert Ledger[0].links[0].url == MttrUrl;
    }
    if OcrId in ids {
      assert Ledger[1].links[0].url == OcrUrl;
    }
  }

  /** Every link in a brief that follows the rules is one of the two ledger URLs,
      and only when the brief cites the item that holds it: none is invented. */
  lemma LinksComeFromLedger(b: Brief, hardBlocker: bool, pack: ContextPack)
    requires pack.proofLedger == Ledger && FollowsInstruction(b, hardBlocker, pack)
    ensures |BriefUrls(b)| <= MaxLinks
    ensures forall u :: u in BriefUrls(b) ==> (u == MttrUrl && MttrId in CitedIds(b)) || (u == OcrUrl && OcrId in CitedIds(b))
  {
    LedgerUrlsForIds(CitedIds(b));
  }

  /** A brief that cites neither linked item, only `skill-network-debug` and
      `style-calm-comms` say, may hold no link at all. */
  lemma UnlinkedEvidenceGivesNoLinks(b: Brief, hardBlocker: bool, pack: ContextPack)
    requires pack.proofLedger == Ledger && FollowsInstruction(b, hardBlocker, pack)
    requires MttrId !in CitedIds(b) && OcrId !in CitedIds(b)
    ensures BriefUrls(b) == []
  {
    LedgerUrlsForIds(CitedIds(b));
    NoMemberMeansEmpty(BriefUrls(b));
  }

  // ---------------------------------------------------------------------------
  // Generation

  datatype GenerateError =
    | MalformedOutput
    | SchemaViolation(violations: seq<Violation>)

  /** `generateJsonFromJd` as written, the cast-only path: whatever the model
      returns is cast to a `Brief` unchecked, so the ensures is the whole of
      it, and only output that does not parse fails. What that lets through is
      shown by `AsWrittenAcceptsOutOfRangeScore`. */
  function GenerateAsWritten(model: UserContent -> Option<Brief>, jdText: string, role: Option<string>, company: Option<string>): (r: Option<Brief>)
    ensures r == model(BuildUserContent(jdText, role, company))
  {
    model(BuildUserContent(jdText, role, company))
  }

  /** `generateJsonFromJd` with the validation the source defers to a comment:
      it returns a brief only when the brief is well formed, and otherwise
      names every rule the model's output breaks. */
  function Generate(model: UserContent -> Option<Brief>, jdText: string, role: Option<string>, company: Option<string>): (r: Result<Brief, GenerateError>)
    ensures r.Ok? <==> model(BuildUserContent(jdText, role, company)).Some? && WellFormed(model(BuildUserContent(jdText, role, company)).value)
    ensures r.Ok? ==> Some(r.value) == model(BuildUserContent(jdText, role, company))
    ensures r == Err(MalformedOutput) <==> model(BuildUserContent(jdText, role, company)).None?
    ensures r.Err? && r.error.SchemaViolation? ==>
      r.error.violations != [] && forall v :: v in r.error.violations <==> BriefTypes.Breaks(model(BuildUserContent(jdText, role, company)).value, v)
  {
    match model(BuildUserContent(jdText, role, company))
    case None => Err(MalformedOutput)
    case Some(b) =>
      var violations := Check(b);
      if violations == [] then Ok(b) else Err(SchemaViolation(violations))
  }

  /** A model that answers with a score of 100. */
  function ScoreTooHighModel(u: UserContent): Option<Brief>
  {
    Some(Brief(100, "", [], [], [], [], Plan("", "", ""), [], "", JdFields(u.role, u.company)))
  }

  /** The unchecked cast hands on a brief whose score is above 96; the checked
      generation turns the same output into an error. */
  lemma AsWrittenAcceptsOutOfRangeScore(jdText: string)
    ensures GenerateAsWritten(ScoreTooHighModel, jdText, None, None).Some?
    ensures !WellFormed(GenerateAsWritten(ScoreTooHighModel, jdText, None, None).value)
    ensures Generate(ScoreTooHighModel, jdText, None, None).Err?
  {
  }
}
