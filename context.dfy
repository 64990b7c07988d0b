/** `contextPack` of server/context.ts: the candidate's identity, skill roster,
    evidence ledger and phrasing rules, one constant object that every request
    carries unchanged. */
module Context {
  import opened Common
  import BriefTypes

  datatype Link = Link(caption: string, url: string)

  /** One entry of `proof_ledger`; an absent `metrics` object is the empty map. */
  datatype EvidenceItem = EvidenceItem(
    id: string,
    statement: string,
    metrics: map<string, string>,
    tags: seq<string>,
    links: seq<Link>)

  datatype Identity = Identity(name: string, headline: string, linkedin: string, github: string, portfolio: string)

  /** `profiles` without `big5`, whose values are fractions. */
  datatype Profiles = Profiles(mbti: string, workStyles: seq<string>)

  datatype Skills = Skills(proven: seq<string>, working: seq<string>, adjacent: seq<string>)

  datatype Example = Example(jdHint: string, bulletStyle: string, tone: string)

  datatype PhrasingRules = PhrasingRules(optimismPrior: int, scoreLow: int, scoreHigh: int, riskRule: string)

  datatype ContextPack = ContextPack(
    identity: Identity,
    profiles: Profiles,
    skills: Skills,
    domains: seq<string>,
    education: seq<string>,
    goals90d: seq<string>,
    proofLedger: seq<EvidenceItem>,
    examples: seq<Example>,
    phrasingRules: PhrasingRules)

  const MttrUrl := "https://linkedin.com/..."
  const OcrUrl := "https://github.com/..."

  const Ledger: seq<EvidenceItem> := [
    EvidenceItem(
      MttrId,
      "Cut MTTR >50% across ~30 models via triage playbooks and crisp RCAs.",
      map["mttr_delta" := "-50%"],
      ["support", "rca", "triage"],
      [Link("LinkedIn post", MttrUrl)]),
    EvidenceItem(
      OcrId,
      "Python OCR pipeline (Tesseract+pandas) to structure scanned directories; saved hundreds of hours.",
      map[],
      ["automation", "python", "ocr"],
      [Link("GitHub repo", OcrUrl)]),
    EvidenceItem(
      "skill-network-debug",
      "Diagnosed complex network/API issues with Wireshark/tcpdump/sngrep; traced faults from packets to logs.",
      map[],
      ["support", "network", "debug", "wireshark"],
      []),
    EvidenceItem(
      "style-calm-comms",
      "Maintained calm, clear, empathetic comms with enterprise customers during incidents.",
      map[],
      ["support", "communication"],
      [])
  ]

  const Roster := Skills(
    ["Wireshark", "tcpdump", "Linux CLI", "sngrep", "REST APIs", "Python (requests/pandas)", "Technical Writing", "Root Cause Analysis"],
    ["Terraform", "Kubernetes", "Grafana", "Prometheus", "Docker"],
    ["LLM prompting", "n8n automations", "WordPress REST", "SQL"])

  /** The range of risk counts `risk_rule` asks for. */
  const RiskRange := "2–3"

  const RiskRule := "Include " + RiskRange + " real, solvable risks with concrete mitigations. One should be a technical skill gap."

  const Rules := PhrasingRules(65, 55, 96, RiskRule)

  const Pack := ContextPack(
    Identity(
      "Joshua Wakefield",
      "Hardware-to-Cloud Builder • High-EQ Support • WPI EE Roots",
      "https://linkedin.com/in/joshwakefield",
      "https://github.com/joshwakefield",
      "https://joshwakefield.com"),
    Profiles("ENTP", ["first-principles troubleshooting", "clear RCAs", "runbooks", "calm under pressure"]),
    Roster,
    ["Technical Support / SRE-adjacent", "DSP/EE", "Automation/LLM", "Network Troubleshooting"],
    ["WPI—Electrical & Computer Engineering coursework"],
    ["reduce MTTR", "raise first-time-fix rate", "establish clean RCA cadence"],
    Ledger,
    [Example("NOC/support", "Impact→Mechanism→Metric", "confident-precise"),
     Example("SRE/DevOps", "Capability→Tool→Context", "learning-oriented")],
    Rules)

  /** No two ledger items share an id. */
  predicate DistinctIds(ledger: seq<EvidenceItem>)
  {
    forall i, j :: 0 <= i < j < |ledger| ==> ledger[i].id != ledger[j].id
  }

  /** The ledger item with id `id`, the first one when several share it. */
  function Lookup(ledger: seq<EvidenceItem>, id: string): (r: Option<EvidenceItem>)
    ensures r.Some? ==> r.value in ledger && r.value.id == id
    ensures r.None? ==> forall k :: 0 <= k < |ledger| ==> ledger[k].id != id
  {
    if ledger == [] then None
    else if ledger[0].id == id then Some(ledger[0])
    else Lookup(ledger[1..], id)
  }

  /** With distinct ids, looking up an item's id finds that item. */
  lemma {:induction false} LookupFindsItem(ledger: seq<EvidenceItem>, k: nat)
    requires DistinctIds(ledger) && k < |ledger|
    ensures Lookup(ledger, ledger[k].id) == Some(ledger[k])
  {
    if k > 0 {
      assert ledger[0].id != ledger[k].id;
      var tail := ledger[1..];
      assert DistinctIds(tail) by {
        forall i, j | 0 <= i < j < |tail| ensures tail[i].id != tail[j].id {
          assert tail[i] == ledger[i + 1] && tail[j] == ledger[j + 1];
        }
      }
      LookupFindsItem(tail, k - 1);
    }
  }

  /** The pack is assembled from the ledger, roster and rules below. */
  lemma PackParts()
    ensures Pack.proofLedger == Ledger && Pack.skills == Roster && Pack.phrasingRules == Rules
  {
  }

  /** The four ledger ids are pairwise distinct, so lookup by id is unambiguous. */
  lemma LedgerIdsDistinct()
    ensures DistinctIds(Ledger)
  {
    var ids := [Ledger[0].id, Ledger[1].id, Ledger[2].id, Ledger[3].id];
    assert ids[0][0] == 'r' && ids[1][0] == 'p' && ids[2][0] == 's' && ids[3][0] == 's';
    assert ids[2][1] == 'k' && ids[3][1] == 't';
  }

  /** `score_bounds` equal the bounds on `fit_score`, and the optimism prior lies
      within them. */
  lemma ScoreBoundsAgree()
    ensures Rules.scoreLow == BriefTypes.MinFitScore
    ensures Rules.scoreHigh == BriefTypes.MaxFitScore
    ensures Rules.scoreLow <= Rules.optimismPrior <= Rules.scoreHigh
  {
  }

  predicate Disjoint(a: seq<string>, b: seq<string>)
  {
    forall i, j :: 0 <= i < |a| && 0 <= j < |b| ==> a[i] != b[j]
  }

  /** The proven, working and adjacent skill lists share no skill. */
  lemma SkillListsDisjoint()
    ensures Disjoint(Roster.proven, Roster.working)
    ensures Disjoint(Roster.proven, Roster.adjacent)
    ensures Disjoint(Roster.working, Roster.adjacent)
  {
  }

  const MttrId := "result-mttr-50"
  const OcrId := "proj-ocr-pipeline"

  /** Only `result-mttr-50` and `proj-ocr-pipeline` carry a link, one each; the
      other two items can supply no URL. */
  lemma LedgerLinks()
    ensures |Ledger| == 4
    ensures forall k :: 0 <= k < |Ledger| ==> |Ledger[k].links| == (if k < 2 then 1 else 0)
    ensures Ledger[0].id == MttrId && Ledger[0].links[0].url == MttrUrl
    ensures Ledger[1].id == OcrId && Ledger[1].links[0].url == OcrUrl
  {
  }

  /** Every ledger item has a statement and at least one tag. */
  lemma LedgerItemsDescribed()
    ensures forall k :: 0 <= k < |Ledger| ==> Ledger[k].statement != [] && Ledger[k].tags != []
  {
  }

  /** The risk rule asks for 2 to 3 risks, the same range the `risks` bound allows. */
  lemma RiskRuleMatchesRiskBound()
    ensures OccursAt(Rules.riskRule, "2–3", 8)
    ensures BriefTypes.MinRisks == 2 && BriefTypes.MaxRisks == 3
  {
    var before, after := "Include ", " real, solvable risks with concrete mitigations. One should be a technical skill gap.";
    assert Rules.riskRule == before + RiskRange + after;
    assert (before + RiskRange + after)[8..11] == RiskRange;
  }
}
