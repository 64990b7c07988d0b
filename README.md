# WhyJosh brief generator: a Dafny model

WhyJosh turns a job description into a one-page "brief" about one candidate.
The server scrubs personal data from the job description. It asks a language
model for a structured `Brief` grounded in a fixed context pack, renders the
brief to HTML and PDF, stores the PDF under a slug-derived path, and answers
with the PDF and a signed share link. The browser form admits job descriptions
of 200 to 20,000 characters, shows progress and settles on success or an
error. The landing page has an accordion, a toast and a mobile menu.

The model has one module per part of the program:

- `Common`: characters, decimal numbers, UTF-16 lengths and substring facts.
- `Regex`: the fragment of JavaScript regular expressions the code uses. It has
  - a backtracking matcher in JavaScript's search order;
  - a declarative language, with soundness and completeness lemmas connecting the two;
  - global `replace` with a constant replacement.
- `Scrub` (server/scrub.ts): the three replacement passes.
- `BriefTypes` (server/types.ts): `Brief`, the bounds written beside its fields as `WellFormed`, and a checker that lists every broken bound.
- `Context` (server/context.ts): the context pack and its ledger, roster and rules.
- `Gemini` (server/gemini.ts):
  - the request object and the response schema;
  - the clamp and the output rules of the system instruction, with a checker;
  - generation, with the model as a function parameter.
- `Pdf` (server/pdf.ts): `composeHtml` and the PDF stub.
- `Server` (server/index.ts): the slug, path and filename; a `Response` class; the handler as a method, specified by a function.
- `BriefForm` (src/App.tsx): the form as a class. `HandleGenerate` runs the progress loop and calls the API, which is a parameter.
- `Landing` (App.tsx): the accordion, focus arithmetic, toast and header menu.

The whole of server/index.ts is inside a block comment. The model follows the
sequence the comment spells out. `Response.SetHeader` includes Node's check
on header values. A value with a character other than a tab, printable ASCII or
0x80 to 0xff throws. So a company or role such as `Macy’s` ends in the 500
answer, with the Content-Type header already set.

## Model

| member | source | states |
|---|---|---|
| Regex.MatchSound | server/scrub.ts:11-17 | Whatever the backtracking matcher consumes is a word of the pattern's language. |
| Regex.MatchComplete | server/scrub.ts:11-17 | If a word of the pattern's language starts at a position, the matcher finds a match there. |
| Regex.ReplaceLeftmost | server/scrub.ts:19-22 | Global replace copies the text before the leftmost match, replaces that match and resumes after it, so matches never overlap. |
| Regex.ReplaceWithoutMatch | server/scrub.ts:19-22 | A text where the pattern matches nowhere comes back unchanged. |
| Regex.ReplaceRemovesClass | server/index.ts:35 | If every character of a class starts a non-empty match and the replacement lacks that class, the result has no character of it. |
| Regex.PassLeavesNoMatch | server/scrub.ts:19-22 | After a global replacement by a bracketed placeholder, the replaced pattern matches nowhere in the result. Neither does any other bracket-free pattern that matched nowhere before and matches no piece of the placeholder. |
| Regex.CollapseRun | server/index.ts:35 | `k+` replacement turns one run of class characters, between class-free texts, into one copy of the replacement. |
| Scrub.EmailMatchBecomesPlaceholder | server/scrub.ts:11-20 | The leftmost email match is replaced by exactly `[email redacted]`, with the text before it kept. |
| Scrub.PhoneMatchBecomesPlaceholder | server/scrub.ts:13-21 | The leftmost phone match is replaced by exactly `[phone redacted]`. |
| Scrub.LinkedinMatchBecomesPlaceholder | server/scrub.ts:17-22 | The leftmost LinkedIn profile match is replaced by exactly `[linkedin profile redacted]`. |
| Scrub.EmailMatchHasAt | server/scrub.ts:11 | Every email match contains `@`. |
| Scrub.PhoneMatchHasDigit | server/scrub.ts:13 | Every phone match contains a digit. |
| Scrub.LinkedinMatchHasProfilePath | server/scrub.ts:17 | Every LinkedIn match contains `linkedin.com/in/`. |
| Scrub.NoEmailWithoutAt | server/scrub.ts:11 | Without `@` the email pattern matches at no position. |
| Scrub.NoPhoneWithoutDigit | server/scrub.ts:13 | Without a digit the phone pattern matches at no position. |
| Scrub.NoLinkedinWithoutProfilePath | server/scrub.ts:17 | Without `linkedin.com/in/` the LinkedIn pattern matches at no position. |
| Scrub.EmailPassKeepsTextWithoutAt | server/scrub.ts:20 | The email pass leaves text without `@` unchanged. |
| Scrub.PhonePassKeepsTextWithoutDigit | server/scrub.ts:21 | The phone pass leaves text without digits unchanged. |
| Scrub.LinkedinPassKeepsTextWithoutProfilePath | server/scrub.ts:22-23 | The LinkedIn pass leaves text without `linkedin.com/in/` unchanged, so other URLs survive; `urlRegex` is never applied. |
| Scrub.ScrubLeavesCleanText | server/scrub.ts:9-24 | Text with no `@`, no digit and no `linkedin.com/in/` is returned unchanged. |
| Scrub.NoProfilePathWithoutSlash | server/scrub.ts:17 | Text without `/` cannot hold `linkedin.com/in/`. |
| Scrub.PlaceholdersAreClean | server/scrub.ts:20-22 | The three placeholders hold no `@`, no digit and no `linkedin.com/in/`. |
| Scrub.PlaceholderIsFixedPoint | server/scrub.ts:19-22 | Scrubbing a placeholder again leaves it as it is. |
| Scrub.EmailPassWhole | server/scrub.ts:20 | A text that is one email address becomes exactly the email placeholder. |
| Scrub.ScrubAfterCleanEmailPass | server/scrub.ts:19-22 | If the email pass already leaves clean text, the phone and LinkedIn passes keep it. |
| Scrub.EmailPassLeavesNoEmail | server/scrub.ts:11-20 | After the email pass no email match starts anywhere. |
| Scrub.PhonePassLeavesNoMatch | server/scrub.ts:13-21 | After the phone pass no phone match starts anywhere, and the pass creates no email. |
| Scrub.LinkedinPassLeavesNoLinkedin | server/scrub.ts:17-22 | After the LinkedIn pass no profile link match starts anywhere. |
| Scrub.LinkedinPassAddsNoEmail | server/scrub.ts:22 | The LinkedIn pass creates no email. |
| Scrub.LinkedinPassAddsNoPhone | server/scrub.ts:22 | The LinkedIn pass creates no phone number. |
| Scrub.ScrubLeavesNoMatch | server/scrub.ts:9-24 | In any scrubbed text, none of the email, phone and LinkedIn patterns matches at any position. |
| Scrub.ScrubIdempotent | server/scrub.ts:9-24 | Scrubbing is idempotent: scrubbing scrubbed text changes nothing, placeholders included. |
| Scrub.EmailBeforePhone | server/scrub.ts:20-21 | The email pass runs first, so an address full of digits is reported as an email, not a phone. |
| BriefTypes.BulletTexts | server/types.ts:16-19 | The bullet texts in order, one per bullet. |
| BriefTypes.WellFormedIffNoBrokenRule | server/types.ts:13-45 | A brief is well formed exactly when it breaks none of the bounds written beside its fields. |
| BriefTypes.LongBullets | server/types.ts:17 | The indices of exactly the bullets longer than 160 UTF-16 units. |
| BriefTypes.UnknownStatuses | server/types.ts:22 | The indices of exactly the rows whose status is not Proven, Working or Ramp-in-2-weeks. |
| BriefTypes.ScalarViolations | server/types.ts:14-40 | Exactly the broken bounds on `fit_score` (55..96), `rationale` (200) and `cta` (120). |
| BriefTypes.BulletViolations | server/types.ts:16-19 | Exactly the broken bounds on `summary_bullets`: 6 to 8 entries, texts of at most 160. |
| BriefTypes.SkillViolations | server/types.ts:20-24 | Exactly the broken bounds on `skills_matrix`: 8 to 12 rows with a known status. |
| BriefTypes.CountViolations | server/types.ts:25-39 | Exactly the broken counts of `outcomes_alignment` (2..4), `ramp_2w` (3..5) and `risks` (2..3). |
| BriefTypes.Check | server/types.ts:13-45 | Lists exactly the rules a brief breaks, and is empty exactly when the brief is well formed. |
| Context.Lookup | server/context.ts:27-53 | Finds a ledger item with the given id, or reports that no item has it. |
| Context.LookupFindsItem | server/context.ts:27-53 | With distinct ids, looking up an item's id returns that item. |
| Context.PackParts | server/context.ts:4-63 | The pack holds the ledger, the skill roster and the phrasing rules. |
| Context.LedgerIdsDistinct | server/context.ts:27-53 | The four ledger ids are pairwise distinct. |
| Context.ScoreBoundsAgree | server/context.ts:59-60 | `score_bounds` equal the `fit_score` bounds 55 and 96, and `optimism_prior` 65 lies within them. |
| Context.SkillListsDisjoint | server/context.ts:20-22 | No skill is on two of the proven, working and adjacent lists. |
| Context.LedgerLinks | server/context.ts:27-53 | Only `result-mttr-50` and `proj-ocr-pipeline` carry a link, one each; the other two carry none. |
| Context.LedgerItemsDescribed | server/context.ts:28-52 | Every ledger item has a non-empty statement and at least one tag. |
| Context.RiskRuleMatchesRiskBound | server/context.ts:61 | `risk_rule` asks for 2–3 risks, the bounds on `risks`. |
| Gemini.BuildUserContent | server/gemini.ts:84-89 | `jd_text` passes unchanged; a missing or empty role or company becomes "Not specified"; the full context pack is attached. |
| Gemini.SchemaKeysAreBriefKeys | server/gemini.ts:13-78 | The response schema asks for exactly the ten keys of `Brief`, in order. |
| Gemini.SchemaStatusAndNullables | server/gemini.ts:34-46 | The status enum is exactly the three statuses; `ramp_note` and `metric` are nullable strings. |
| Gemini.Clamp | server/gemini.ts:10 | The score is moved into `score_bounds`: in range it is kept, below it becomes 55, above it becomes 96. |
| Gemini.ClampIdempotent | server/gemini.ts:10 | Clamping twice is clamping once, and a clamped score meets the `fit_score` bound. |
| Gemini.ClampMonotone | server/gemini.ts:10 | Clamping keeps the order of scores. |
| Gemini.UrlsFrom | server/gemini.ts:10 | Every link read from a text starts with `http://` or `https://` and holds no whitespace. |
| Gemini.NoUrlsWithoutPrefix | server/gemini.ts:10 | A text where no link starts holds no links. |
| Gemini.LinkedUrls | server/gemini.ts:10 | Exactly the link URLs of the ledger items whose ids are cited. |
| Gemini.FollowsIffNoBreach | server/gemini.ts:10 | A brief follows the system instruction's rules exactly when it breaks none of them. |
| Gemini.CheckInstruction | server/gemini.ts:10 | Lists exactly the instruction rules a brief breaks, and is empty exactly when it follows them all. |
| Gemini.HardBlockerCapsScore | server/gemini.ts:10 | Under a hard blocker, a well-formed brief that follows the rules scores between 55 and 70. |
| Gemini.NonRosterSkillNeverProven | server/gemini.ts:10 | A skill from the working or adjacent list is never marked Proven. |
| Gemini.LedgerUrlsForIds | server/context.ts:27-53 | The ledger supplies the MTTR post URL exactly when `result-mttr-50` is cited, and the OCR repository URL exactly when `proj-ocr-pipeline` is. |
| Gemini.LinksComeFromLedger | server/gemini.ts:10 | A brief that follows the rules holds at most 3 links, each one a ledger URL of an item it cites. |
| Gemini.UnlinkedEvidenceGivesNoLinks | server/gemini.ts:10 | A brief citing neither linked item may hold no link at all. |
| Gemini.GenerateAsWritten | server/gemini.ts:81-105 | As written: the model's output for the request is returned with no validation. |
| Gemini.Generate | server/gemini.ts:81-105 | Returns a brief exactly when the model's output parses and is well formed. Otherwise it reports malformed output, or every broken bound. |
| Gemini.AsWrittenAcceptsOutOfRangeScore | server/gemini.ts:102-104 | The unchecked cast returns a brief with score 100; the checked generation rejects it. |
| Pdf.ListItemInOrder | server/pdf.ts:16 | The k-th bullet's `<li>` comes right after the items of the bullets before it, joined with nothing. |
| Pdf.TitleAndH1Placed | server/pdf.ts:10-13 | The title tag follows `<head>`, and the `h1` opens the body. |
| Pdf.HeadingInTitleAndH1 | server/pdf.ts:11-13 | "Brief for <role> at <company>" is the text of both the title and the `h1`. |
| Pdf.HeadingIsVerbatim | server/pdf.ts:11-13 | Role and company are inserted character for character, with no HTML escaping. |
| Pdf.ScoreAndRationaleRendered | server/pdf.ts:14 | The document holds `<fit_score> - <rationale>`, with the rationale exactly as given. |
| Pdf.BulletsRendered | server/pdf.ts:16 | The document holds every bullet text wrapped in `<li>…</li>`, in list order. |
| Pdf.PlaceholderRendered | server/pdf.ts:17 | The template's placeholder line is emitted literally. |
| Pdf.OnlyRenderedFieldsMatter | server/pdf.ts:9-20 | Two briefs with the same job fields, score, rationale and bullet texts render to the same document. |
| Pdf.CreatePdfFromBrief | server/pdf.ts:29-53 | The stub returns 17 ASCII bytes. |
| Pdf.PdfStubIgnoresBrief | server/pdf.ts:52 | Every brief yields the same bytes, which decode to "Dummy PDF content". |
| Server.GcsPath | server/index.ts:36 | The storage path is `briefs/` + slug + `.pdf`. |
| Server.SlugOfPath | server/index.ts:36 | Recovers the slug from a storage path. |
| Server.PathRoundTrip | server/index.ts:36 | The slug read back from its storage path is the slug. |
| Server.DatePart | server/index.ts:43 | The text before the first `T` of the ISO timestamp, or all of it when there is no `T`. |
| Server.SlugIsNormalised | server/index.ts:35 | The slug contains no whitespace and no upper-case ASCII letter. |
| Server.SlugStartsWithTimestamp | server/index.ts:35 | The slug begins with the timestamp's digits and a hyphen. |
| Server.SlugKeepsSpaceFreeCompany | server/index.ts:35 | A company name without whitespace reaches the slug only lower-cased; `/` and every other character stay in place. |
| Server.SlugCollapsesWhitespaceRun | server/index.ts:35 | A whitespace run inside the company name becomes a single `-`. |
| Server.PathHasNoWhitespace | server/index.ts:35-36 | The storage path contains no whitespace. |
| Server.FilenameOfLayout | server/index.ts:43 | The filename is `whyjosh-`, company, `-`, role, `-`, date and `.pdf`, with company and role verbatim. |
| Server.FilenameLayout | server/index.ts:43 | Company (default `company`) and role (default `role`) appear verbatim, and the name ends with the date part and `.pdf`. |
| Server.Response.SetHeader | server/index.ts:44-47 | Appends one header when Node's header check accepts the value (tab, printable ASCII, 0x80 to 0xff); otherwise reports the throw and leaves the headers as they were. Status and body never change. |
| Server.AcceptedHeaders | server/index.ts:44-47 | The headers in place after a run of `setHeader` calls that stops at the first refused value: the longest prefix whose values all pass, and the value after it is refused. |
| Server.AcceptedHeadersUnique | server/index.ts:44-47 | Any prefix that passes the check and stops at a refused value, or at the end, is exactly the accepted headers. |
| Server.DispositionOkIffFilenameOk | server/index.ts:43-45 | The Content-Disposition value passes the header check exactly when the filename does. |
| Server.SuccessHeadersOk | server/index.ts:44-47 | The two fixed values always pass; all four headers pass exactly when the filename and the share URL do. |
| Server.WideCompanyCharRefused | server/index.ts:43-45 | A company name with a character above 0xff, such as `’` (U+2019), makes the header check refuse the filename. |
| Server.RefusedHeaders | server/index.ts:44-53 | When the filename or the share URL is refused, the headers already set are Content-Type, plus Content-Disposition when the share URL is the refused one. |
| Server.Response.Status | server/index.ts:52 | Sets the status and changes nothing else. |
| Server.Response.Send | server/index.ts:48 | Sends the PDF bytes as the body. |
| Server.Response.Json | server/index.ts:52 | Sends the JSON error as the body. |
| Server.HandleBrief | server/index.ts:18-54 | The handler's steps in turn, leaving the response and the trace of begun steps that `Handle` describes. A refused header value throws into the catch block. |
| Server.SetSuccessHeaders | server/index.ts:44-47 | The four `setHeader` calls in order. They succeed exactly when every value passes the check, and they leave the accepted headers set. |
| Server.Respond | server/index.ts:31-53 | From the generator's answer on: render, upload, sign, set the headers and answer, as `AfterGenerate` describes. A refused header value leads to the 500 answer. |
| Server.AfterGenerateAnswer | server/index.ts:31-53 | After generation: the answer is success or the failure answer, and the steps are a prefix of the five. Success holds exactly when generation, upload and signing succeed and the header check passes the filename and share URL; it then carries the PDF and the four headers. A failure carries the headers accepted before the refused value, or none when a step failed. |
| Server.AnswerIsSuccessOrFailure | server/index.ts:44-53 | Every answer is either status 200 or status 500 with `{error: 'Failed to generate brief.'}`. A 500 carries at most two headers, and the first is `Content-Type: application/pdf`. |
| Server.SucceedsIffEveryStepSucceeds | server/index.ts:19-53 | The handler succeeds exactly when there is a job description, every later step succeeds, and the header check passes the filename and the share URL. |
| Server.SuccessAnswer | server/index.ts:26-48 | On success the body is the PDF of a well-formed brief generated from the scrubbed text. The headers are Content-Type, Content-Disposition, X-Share-URL (the signed URL of the storage path) and Cache-Control, in that order. The filename and the share URL passed the header check. |
| Server.StepsRunInOrder | server/index.ts:26-40 | Steps begin in the order scrub, generate, render, upload, sign, each only after the one before succeeded. The generator is given the scrubbed text. |
| BriefForm.ErrorText | src/App.tsx:56 | A thrown `Error` shows its message; anything else shows 'An unknown error occurred.'. |
| BriefForm.ProgressEvents | src/App.tsx:35-49 | The first n progress updates in order. Each shows the composing state with the error cleared and that update's percentage and text. |
| BriefForm.Form.SetJdText | src/App.tsx:98 | Typing changes only the job description. |
| BriefForm.Form.SetRole | src/App.tsx:94 | Typing changes only the role. |
| BriefForm.Form.SetCompany | src/App.tsx:90 | Typing changes only the company. |
| BriefForm.Form.HandleGenerate | src/App.tsx:29-59 | Outside 200..20,000 UTF-16 units it only sets the length error and sends nothing. Otherwise it clears the error and enters composing. It shows the four progress steps, and then, still composing, posts the form values with the bot token. It settles on the answer. Each step is recorded with the state shown at that moment. |
| BriefForm.Form.HandleReset | src/App.tsx:61-68 | Back to idle with progress 0 and status, link and error cleared; the form values are kept. |
| BriefForm.ProgressClimbsToHundred | src/App.tsx:38-43 | The progress steps strictly increase from 30 to 100, so the bar never moves back while composing. |
| BriefForm.RequestAfterFullProgress | src/App.tsx:45-52 | The request is sent after all four progress steps, the last of them at 100. |
| BriefForm.ComposingUntilSent | src/App.tsx:35-52 | From the start of an admitted submit until the request is sent, the form shows composing with the error cleared and the form values unchanged, and progress only climbs. |
| BriefForm.RefusalOnlySetsError | src/App.tsx:31-34 | A refused submit changes nothing but the error. |
| BriefForm.AdmissionBounds | src/App.tsx:31 | Lengths of exactly 200 and 20,000 are admitted; 199 and 20,001 are refused. |
| BriefForm.AdmissibleBmp | src/App.tsx:31 | On text without astral characters, the admitted length is the character count. |
| BriefForm.SettledOutcome | src/App.tsx:51-58 | Success stores the returned link and clears the error. Failure returns to idle with the thrown message. Either way the form values are kept and progress stays at 100. |
| BriefForm.ResetKeepsRequest | src/App.tsx:61-68 | After a reset, submitting posts the same request as before; resetting twice is resetting once. |
| BriefForm.RetryAfterFailureResends | src/App.tsx:55-58 | After a failed request the form is idle with the same values, so a retry posts the same request. |
| Landing.Accordion.ToggleItem | App.tsx:48-50 | The open item becomes `Toggled` of the previous one. |
| Landing.ToggleClosesOrOpens | App.tsx:48-50 | Toggling the open item closes it, toggling any other opens it, and at most one item is open. |
| Landing.ToggleTwice | App.tsx:49 | Toggling the same id twice restores the previous state exactly when nothing or that item was open. |
| Landing.FocusTarget | App.tsx:52-61 | Only ArrowDown and ArrowUp move focus, and always to an index in range. |
| Landing.FocusWraps | App.tsx:52-61 | ArrowDown goes to the next item and from the last to the first. ArrowUp goes to the previous item and from the first to the last. |
| Landing.UpUndoesDown | App.tsx:52-61 | ArrowUp undoes ArrowDown, and ArrowDown undoes ArrowUp. |
| Landing.DownsAdvance | App.tsx:55 | Up to n presses of ArrowDown advance focus one item each, wrapping once. |
| Landing.DownsCycle | App.tsx:55 | n presses of ArrowDown return focus to where it started. |
| Landing.Page.ShowToast | App.tsx:412-413 | Shows the toast with the message. |
| Landing.Page.CloseToast | App.tsx:414-416 | Hides the toast and clears its message. |
| Landing.Header.ToggleMenu | App.tsx:163 | The menu button flips the mobile menu. |
| Landing.Header.HandleLinkClick | App.tsx:141-144 | A link click closes the menu and scrolls to the link's section. |
| Landing.NavLinksTargetSections | App.tsx:132-139 | Every navigation link targets a page section, and no two links target the same one. |

## Left out

- The Gemini SDK call, the model name, the temperature and `JSON.parse` (server/gemini.ts:82-104) are not modelled. The model is a function parameter that returns a candidate `Brief`, or nothing for output that does not parse.
- The system instruction's rules are judged by the model, not checked by code. Several of them are modelling choices:
  - the hard-blocker judgement is an input;
  - a mitigation plan is a first bullet that mentions "mitigat";
  - a skill-gap risk is a risk naming a non-Proven skill of the matrix;
  - a link is a maximal run that starts with `http://` or `https://` and ends at whitespace.
- `Generate` checks the bounds of server/types.ts only. The instruction rules have their own checker, `CheckInstruction`, which generation does not apply.
- Puppeteer rendering (server/pdf.ts:33-48) is not modelled; `createPdfFromBrief` is the stub that ignores its HTML.
- Storage and signing (server/storage.ts) are only stubs. They are parameters that may succeed or fail, and the logging and the fake signed URL are not modelled.
- The Express setup is not modelled: `express.json`, the GET, DELETE and health handlers, `listen`, rate limiting and bot-token verification. The last two are only announced in comments. The request's `botToken` is carried but never read.
- `res.status(500).json(...)` sets a JSON content type in Express only when no Content-Type is set yet; only the status and body are modelled. After a refused header value, the model keeps the `application/pdf` Content-Type already set, as Express does.
- Node also checks header names. The four names are constants that pass, so only values are checked.
- `Date.now()` and `new Date().toISOString()` are parameters.
- The `console.error` in the handler's catch block (server/index.ts:51) and the logging in server/pdf.ts are not modelled. They are output only and change no state the model tracks.
- Server.HandleBrief: the handler, like the function `Handle` that specifies it, is built on the checked `Gemini.Generate`, the corrected half of the finding below. As written, the handler sends a PDF with status 200 for a model answer that parses but breaks a bound, such as `fit_score` 100. The model instead answers 500. `Server.SuccessAnswer`, `Server.SucceedsIffEveryStepSucceeds` and `Server.AnswerIsSuccessOrFailure` describe this corrected pipeline.
- `fit_score` is an integer, though the schema declares a number.
- `profiles.big5` holds fractions and is not modelled. The ledger link key `label` is called `caption`, because `label` is a Dafny keyword.
- String lengths are UTF-16 code-unit counts. `\s` is ECMAScript's whitespace set, while `\w`, `\d` and `toLowerCase` cover ASCII only, so non-ASCII letters keep their case in the slug.
- JSX, styling, icons, IntersectionObserver fade-ins, `scrollIntoView`, focusing DOM nodes and the ref bookkeeping are presentation and DOM, and are not modelled. Also left out: the 600 ms and five-second timers, and the clipboard and alert calls.
- Landing.Page.ShowToast: the five-second timer that hides the toast again is not modelled; `CloseToast` stands for both it and the close button.
- The form's `e.preventDefault()` and the component's rendering by state are not modelled.

## Findings

| source | as written | input that shows it | evidently intended | confidence | as-written member | corrected member |
|---|---|---|---|---|---|---|
| server/gemini.ts:102-104 | The parsed model output is cast to `Brief` without validation, and the comment defers validation. | A model answer with `fit_score` 100, or with too few bullets: it parses, so it is returned as a `Brief`. | Return a brief only when it meets the bounds of server/types.ts; otherwise fail and name the broken bounds. | not executed | Gemini.GenerateAsWritten, Gemini.AsWrittenAcceptsOutOfRangeScore | Gemini.Generate, Server.HandleBrief, Server.SuccessAnswer |
