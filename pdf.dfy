/** server/pdf.ts: the HTML a brief is rendered to, and the stub that stands in
    for the PDF renderer. */
module Pdf {
  import opened Common
  import opened BriefTypes

  const Indent8 := "        "
  const Indent12 := Indent8 + "    "
  const Indent16 := Indent12 + "    "

  /** The line the template emits as it stands, in place of the other sections. */
  const Placeholder := "{/* ... and so on for all sections of the brief ... */}"

  /** `Brief for <role> at <company>`, with both values inserted as they are. */
  function Heading(b: Brief): string
  {
    "Brief for " + b.jdFields.role + " at " + b.jdFields.company
  }

  function TitleTag(b: Brief): string { "<title>" + Heading(b) + "</title>" }

  function H1Tag(b: Brief): string { "<h1>" + Heading(b) + "</h1>" }

  /** `<fit_score> - <rationale>` */
  function ScoreLine(b: Brief): string { IntToDecimal(b.fitScore) + " - " + b.rationale }

  function ScoreParagraph(b: Brief): string { "<p><strong>Fit Score:</strong> " + ScoreLine(b) + "</p>" }

  function ListItem(text: string): string { "<li>" + text + "</li>" }

  /** Each text wrapped in `<li>…</li>`, joined with nothing between. */
  function ListItems(texts: seq<string>): string
  {
    if texts == [] then "" else ListItem(texts[0]) + ListItems(texts[1..])
  }

  const HtmlOpen := "\n" + Indent8 + "<html>\n" + Indent12 + "<head>"
  const BodyOpen := "</head>\n" + Indent12 + "<body>\n" + Indent16
  const ParagraphOpen := "\n" + Indent16 + "<p><strong>Fit Score:</strong> "
  const SummaryOpen := "</p>\n" + Indent16 + "<h2>Executive Summary</h2>\n" + Indent16 + "<ul>"
  const ListClose := "</ul>\n" + Indent16
  const HtmlClose := "\n" + Indent12 + "</body>\n" + Indent8 + "</html>\n    "

  /** `composeHtml(brief)`: only the job fields, the score, the rationale and the
      bullet texts are rendered, each inserted verbatim with no HTML escaping.
      The document is built from the front, one rendered piece at a time. */
  function ComposeHtml(b: Brief): string
  {
    HtmlOpen + TitleTag(b) + AfterTitle(b)
  }

  function AfterTitle(b: Brief): string { BodyOpen + H1Tag(b) + AfterHeading(b) }

  function AfterHeading(b: Brief): string { ParagraphOpen + ScoreLine(b) + AfterScore(b) }

  function AfterScore(b: Brief): string { SummaryOpen + ListItems(BulletTexts(b.summaryBullets)) + AfterList() }

  function AfterList(): string { ListClose + Placeholder + HtmlClose }

  lemma {:induction false} ListItemsAppend(a: seq<string>, b: seq<string>)
    ensures ListItems(a + b) == ListItems(a) + ListItems(b)
    decreases |a|
  {
    if a == [] {
      assert a + b == b;
    } else {
      assert (a + b)[0] == a[0] && (a + b)[1..] == a[1..] + b;
      ListItemsAppend(a[1..], b);
    }
  }

  /** The `k`-th bullet's item comes right after the items of the bullets before
      it: the list keeps the bullets' order. */
  lemma ListItemInOrder(texts: seq<string>, k: nat)
    requires k < |texts|
    ensures OccursAt(ListItems(texts), ListItem(texts[k]), |ListItems(texts[..k])|)
  {
    assert texts == texts[..k] + [texts[k]] + texts[k + 1..];
    ListItemsAppend(texts[..k] + [texts[k]], texts[k + 1..]);
    ListItemsAppend(texts[..k], [texts[k]]);
    assert ListItems([texts[k]]) == ListItem(texts[k]);
    OccursBetween(ListItems(texts[..k]), ListItem(texts[k]), ListItems(texts[k + 1..]));
  }

  /** The title tag opens the document's head, and the `h1` opens its body. */
  lemma TitleAndH1Placed(b: Brief)
    ensures OccursAt(ComposeHtml(b), TitleTag(b), |HtmlOpen|)
    ensures OccursAt(ComposeHtml(b), H1Tag(b), |HtmlOpen| + |TitleTag(b)| + |BodyOpen|)
  {
    OccursBetween(HtmlOpen, TitleTag(b), AfterTitle(b));
    OccursBetween(BodyOpen, H1Tag(b), AfterHeading(b));
    OccursAfter(HtmlOpen + TitleTag(b), AfterTitle(b), H1Tag(b), |BodyOpen|);
  }

  /** The heading is the text of both the title and the `h1`. */
  lemma HeadingInTitleAndH1(b: Brief)
    ensures OccursAt(TitleTag(b), Heading(b), 7) && OccursAt(H1Tag(b), Heading(b), 4)
  {
    OccursBetween("<title>", Heading(b), "</title>");
    OccursBetween("<h1>", Heading(b), "</h1>");
  }

  /** Role and company enter the heading character for character: nothing is
      escaped, so markup in them reaches the document as markup. */
  lemma HeadingIsVerbatim(b: Brief)
    ensures OccursAt(Heading(b), b.jdFields.role, 10)
    ensures OccursAt(Heading(b), b.jdFields.company, 10 + |b.jdFields.role| + 4)
  {
    OccursBetween("Brief for ", b.jdFields.role, " at " + b.jdFields.company);
    OccursBetween("Brief for " + b.jdFields.role + " at ", b.jdFields.company, "");
    assert "Brief for " + b.jdFields.role + " at " + b.jdFields.company + "" == Heading(b);
  }

  /** The score and the rationale appear together as `<fit_score> - <rationale>`,
      the rationale exactly as given. */
  lemma ScoreAndRationaleRendered(b: Brief)
    ensures Contains(ComposeHtml(b), ScoreLine(b))
    ensures OccursAt(ScoreLine(b), b.rationale, |ScoreLine(b)| - |b.rationale|)
  {
    OccursBetween(ParagraphOpen, ScoreLine(b), AfterScore(b));
    OccursAfter(BodyOpen + H1Tag(b), AfterHeading(b), ScoreLine(b), |ParagraphOpen|);
    OccursAfter(HtmlOpen + TitleTag(b), AfterTitle(b), ScoreLine(b), |BodyOpen + H1Tag(b)| + |ParagraphOpen|);
    OccursBetween(IntToDecimal(b.fitScore) + " - ", b.rationale, "");
    assert IntToDecimal(b.fitScore) + " - " + b.rationale + "" == ScoreLine(b);
  }

  /** The bullet items appear in the document, right after the `ul` opens. */
  lemma BulletsRendered(b: Brief)
    ensures Contains(ComposeHtml(b), ListItems(BulletTexts(b.summaryBullets)))
  {
    var items := ListItems(BulletTexts(b.summaryBullets));
    var front := HtmlOpen + TitleTag(b);
    var mid := BodyOpen + H1Tag(b);
    var para := ParagraphOpen + ScoreLine(b);
    OccursBetween(SummaryOpen, items, AfterList());
    var m := |SummaryOpen|;
    OccursAfter(para, AfterScore(b), items, m);
    m := |para| + m;
    OccursAfter(mid, AfterHeading(b), items, m);
    m := |mid| + m;
    OccursAfter(front, AfterTitle(b), items, m);
  }

  /** The placeholder line is emitted as it stands. */
  lemma PlaceholderRendered(b: Brief)
    ensures Contains(ComposeHtml(b), Placeholder)
  {
    var items := ListItems(BulletTexts(b.summaryBullets));
    var front := HtmlOpen + TitleTag(b);
    var mid := BodyOpen + H1Tag(b);
    var para := ParagraphOpen + ScoreLine(b);
    OccursBetween(ListClose, Placeholder, HtmlClose);
    var m := |ListClose|;
    OccursAfter(SummaryOpen + items, AfterList(), Placeholder, m);
    m := |SummaryOpen + items| + m;
    OccursAfter(para, AfterScore(b), Placeholder, m);
    m := |para| + m;
    OccursAfter(mid, AfterHeading(b), Placeholder, m);
    m := |mid| + m;
    OccursAfter(front, AfterTitle(b), Placeholder, m);
  }

  /** Two briefs that agree on the job fields, the score, the rationale and the
      bullet texts render to the same HTML, whatever their other sections hold. */
  lemma OnlyRenderedFieldsMatter(b1: Brief, b2: Brief)
    requires b1.jdFields == b2.jdFields && b1.fitScore == b2.fitScore && b1.rationale == b2.rationale
    requires BulletTexts(b1.summaryBullets) == BulletTexts(b2.summaryBullets)
    ensures ComposeHtml(b1) == ComposeHtml(b2)
  {
  }

  const DummyPdfText := "Dummy PDF content"

  /** The bytes of an ASCII text, one per character. */
  function AsciiBytes(s: string): (r: seq<Byte>)
    requires forall k :: 0 <= k < |s| ==> (s[k] as int) < 128
    ensures |r| == |s| && forall k :: 0 <= k < |s| ==> r[k] as int == s[k] as int
  {
    seq(|s|, k requires 0 <= k < |s| => (s[k] as int) as Byte)
  }

  /** The characters of ASCII bytes: the partner of AsciiBytes. */
  function AsciiText(bytes: seq<Byte>): (r: string)
    requires forall k :: 0 <= k < |bytes| ==> (bytes[k] as int) < 128
    ensures |r| == |bytes|
  {
    seq(|bytes|, k requires 0 <= k < |bytes| => (bytes[k] as int) as char)
  }

  /** `createPdfFromBrief`: the stub returns the encoding of the same text for
      every brief. */
  function CreatePdfFromBrief(b: Brief): (pdf: seq<Byte>)
    ensures |pdf| == |DummyPdfText|
    ensures forall k :: 0 <= k < |pdf| ==> (pdf[k] as int) < 128
  {
    AsciiBytes(DummyPdfText)
  }

  /** Every brief yields the same 17 bytes, which read back as `Dummy PDF content`. */
  lemma PdfStubIgnoresBrief(b1: Brief, b2: Brief)
    ensures CreatePdfFromBrief(b1) == CreatePdfFromBrief(b2)
    ensures |CreatePdfFromBrief(b1)| == 17
    ensures AsciiText(CreatePdfFromBrief(b1)) == DummyPdfText
  {
    var t := AsciiText(CreatePdfFromBrief(b1));
    forall k | 0 <= k < |t| ensures t[k] == DummyPdfText[k] {
      assert (CreatePdfFromBrief(b1)[k] as int) == DummyPdfText[k] as int;
    }
  }
}
