# Landing-page interaction logic, modelled in Dafny

This project models the three pieces of real logic in the otosorapapa/zen_ai_2
landing page (a React/TypeScript single-page site for an AI-assisted
management-accounting advisory service). All three are state machines or
string functions:

- **The two-step contact form** (`CTASection.tsx`):
  - the validator and the e-mail regular expression;
  - the step table, "next" and "back", and the partial error sync;
  - the submit handler, with its simulated progress schedule and the reset afterwards;
  - the per-field error clearing, and teardown.

  `ContactForm.Step` is an event → state transition function. Each timer firing is an event: `ProgressTick` fires the next progress timer, `FeedbackExpired` fires the 7-second banner timer, and `Unmount` is teardown.
- **The advisor chat** (`AIAdvisorChatbot.tsx`):
  - the keyword detector and the templated reply;
  - the two-phase send protocol guarded by "thinking";
  - the summary of the latest user message.

  The 600 ms reply timer is the event `ReplyDue`.
- **The demo scenario player** (`AIDemoExperienceSection.tsx`):
  - scenario lookup by id, with its fallback;
  - the cyclic frame index, the reset on a scenario change, and play/pause;
  - the pause when the page is hidden, and the progress bar.

  Each firing of the 3400 ms interval is the event `Tick`.

Modules:

| file | module | contents |
|---|---|---|
| wrappers.dfy | `Wrappers` | `Option` |
| js_text.dfy | `JsText` | JavaScript `trim` and `\s`, UTF-16 `length`, substring search, `toLowerCase`, `split`/`join` on `"\n"` |
| email_pattern.dfy | `EmailPattern` | the regular expression `^[^\s@]+@[^\s@]+\.[^\s@]+$` as a decision procedure and as a declarative shape |
| form_validation.dfy | `FormValidation` | form record, validator, step table, first invalid step, partial error sync |
| contact_form.dfy | `ContactForm` | the form's state, events, transition function, invariant and submission-run lemmas |
| contact_form_scenarios.dfy | `ContactFormScenarios` | concrete runs (advancing, a submit without consent, a full valid submission) |
| advisor_chat.dfy | `AdvisorChat` | focus-area detection, reply construction, the chat state machine and summary |
| demo_cycler.dfy | `DemoCycler` | scenario table, lookup, the player's state machine, cycling and progress lemmas |

Error messages, the greeting, the advice paragraphs and the fallback paragraph are tags or short stand-in strings. The model's logic never depends on their wording. The headline keeps the real area names and suffix, because the headline must contain the first area's name.

Points where the code behaves differently from what a quick reading suggests; the model follows the code:

- **Submit errors.** A rejected submit writes the whole validation result into the error record. It does not write only the failing step's keys. A valid submit writes it too (to an all-clear record).
- **Name length.** The name rule measures `length`, which is counted in UTF-16 code units. A single character outside the Basic Multilingual Plane therefore already passes "at least two characters".
- **Case-insensitive keywords.** Keyword detection is case-insensitive only for ASCII letters. In addition, the AI test runs on `toLowerCase()` of the message. So "Aİ" (capital A, dotted capital I) counts as an AI topic, because it lower-cases to "ai" followed by a combining dot. The case-insensitive test alone would not find "ai" in it.

## Model

| member | source | states |
|---|---|---|
| JsText.Trim | src/components/CTASection.tsx:151-153 | a non-empty result starts and ends with a character outside JavaScript's white space |
| JsText.TrimBlankIff | src/components/CTASection.tsx:151-153 | the result is empty exactly when the input is all JavaScript white space |
| JsText.TrimIsCore | src/components/CTASection.tsx:151-153 | the trimmed text is the slice between a leading and a trailing run of white space |
| JsText.TrimIdempotent | src/components/AIAdvisorChatbot.tsx:125 | trimming twice equals trimming once |
| JsText.TrimKeeps | src/components/CTASection.tsx:151-153 | a non-empty text with no white space at either end trims to itself |
| JsText.Utf16Length | src/components/CTASection.tsx:157 | `length` counts between one and two units per code point, and exactly one each when all lie in the Basic Multilingual Plane |
| JsText.Utf16LengthCount | src/components/CTASection.tsx:157 | `length` is the number of code points plus the number of code points above U+FFFF |
| JsText.ContainsIff | src/components/AIAdvisorChatbot.tsx:47-56 | the substring test holds iff the keyword occurs at some position of the text |
| JsText.JsLower | src/components/AIAdvisorChatbot.tsx:44 | the modelled `toLowerCase` leaves no ASCII capital A-Z and never shortens the text |
| JsText.JsLowerIsAscii | src/components/AIAdvisorChatbot.tsx:44 | without a dotted capital I, the modelled `toLowerCase` is exactly the ASCII A-Z folding, code point by code point |
| JsText.IndexOf | src/components/CTASection.tsx:201 | the first occurrence of a character, or none exactly when it is absent |
| JsText.Split | src/components/AIAdvisorChatbot.tsx:281 | `split` always gives at least one piece, and no piece holds the separator |
| JsText.SplitAfterLine | src/components/AIAdvisorChatbot.tsx:281 | a separator-free first line followed by the separator splits off as the first piece, the rest splitting as before |
| JsText.SplitJoin | src/components/AIAdvisorChatbot.tsx:86 | splitting the line-break join of break-free lines gives the lines back |
| EmailPattern.MatchesIff | src/components/CTASection.tsx:201 | the decision procedure accepts exactly the texts L@A.B with L, A and B non-empty and free of white space and '@' (A may hold dots) |
| FormValidation.Validate | src/components/CTASection.tsx:150-165 | company error iff blank; name error iff the trimmed name has fewer than 2 UTF-16 units; e-mail "required" iff blank, else "format" iff the trimmed text fails the pattern; consent error iff not given |
| FormValidation.ValidateClearIff | src/components/CTASection.tsx:150-165 | the validator reports nothing exactly for a record that meets all four rules |
| FormValidation.StepTableWellFormed | src/components/CTASection.tsx:92-105 | two steps numbered 1 and 2; each validated key belongs to exactly one step |
| FormValidation.FindInvalidStep | src/components/CTASection.tsx:261 | the first step from a given index that owns an invalid key, or none when no later step does |
| FormValidation.FirstInvalidStep | src/components/CTASection.tsx:261-264 | none iff all keys are valid; step 1 iff the e-mail is invalid; step 2 iff only step-2 keys are invalid |
| FormValidation.SyncErrors | src/components/CTASection.tsx:167-175 | listed keys take the new message; every other key keeps its old one |
| ContactForm.ScheduleShape | src/components/CTASection.tsx:219-225 | five entries; values rise strictly from above 12 to exactly 100; delays rise strictly |
| ContactForm.ApplyEdit | src/components/CTASection.tsx:528-533 | while idle and on the control's step, an edit changes that one field and clears only that field's message; otherwise nothing changes |
| ContactForm.EditEmailOnStepOne | src/components/CTASection.tsx:528-533 | on step 1, typing an e-mail stores it, clears that message only and raises no notice |
| ContactForm.HandleNext | src/components/CTASection.tsx:177-190 | no-op while submitting; otherwise only the active step's messages are refreshed, and the step rises by exactly one iff those keys are valid and a later step exists |
| ContactForm.NextWith | src/components/CTASection.tsx:181-189 | for a given validation result: only the active step's messages change, to that result's; the step rises by one iff all of them are clear and a later step exists, and otherwise stays |
| ContactForm.NextOnStepOne | src/components/CTASection.tsx:177-190 | on step 1, "next" sets the e-mail message alone and moves to step 2 exactly when the e-mail passes, raising no notice |
| ContactForm.HandleBack | src/components/CTASection.tsx:192-198 | no-op while submitting; otherwise the step becomes max(1, step - 1) and nothing else changes |
| ContactForm.HandleSubmit | src/components/CTASection.tsx:248-278 | no-op while submitting; a record failing validation gets every message, the first failing step and one notice, and stays idle; a valid one starts submitting at 12 with the request type captured |
| ContactForm.TimerCallback | src/components/CTASection.tsx:230-241 | a progress timer shows its scheduled value; only the last one resolves the run |
| ContactForm.FireProgressTimer | src/components/CTASection.tsx:229-241 | no pending timer: nothing happens; an intermediate timer shows its scheduled value and arms the next; the last one ends the run, resets the form to its defaults on step 1 and confirms the captured type with one notice |
| ContactForm.Resume | src/components/CTASection.tsx:281-309 | unmounted: nothing happens; mounted: the run ends, the captured type is confirmed, and form, messages and step return to their defaults |
| ContactForm.HandleUnmount | src/components/CTASection.tsx:320-325 | teardown marks the form unmounted, drops the pending timers and raises no notice |
| ContactForm.Step | src/components/CTASection.tsx:231-233 | an unmounted form reacts to no event; a mounted form's banner timer clears only the confirmation, and its submit is exactly the submit handler |
| ContactForm.BannerExpires | src/components/CTASection.tsx:327-339 | the 7-second banner timer removes the confirmation, raises no notice and changes nothing else |
| ContactForm.StepInv | src/components/CTASection.tsx:177-198 | every event keeps the step in [1, 2], the progress in [0, 100], and a running submission paired with its pending timer |
| ContactForm.RunInv | src/components/CTASection.tsx:177-309 | the invariant holds after any event sequence |
| ContactForm.ProgressRises | src/components/CTASection.tsx:215-243 | each progress timer shows a strictly larger value, at most 100, reaching 100 exactly when the run resolves |
| ContactForm.TornDownStaysPut | src/components/CTASection.tsx:320-325 | after teardown no event sequence changes the state or raises a notice |
| ContactForm.SubmissionRun | src/components/CTASection.tsx:215-309 | after n of the five timers the form shows the n-th scheduled value; after all five it is reset with the captured type confirmed |
| ContactForm.RejectedSubmit | src/components/CTASection.tsx:252-271 | a submit failing validation never starts submitting; it shows all messages, goes to step 1 if the e-mail fails and to step 2 otherwise, and raises one notice |
| ContactForm.AcceptedSubmitCompletes | src/components/CTASection.tsx:273-309 | a valid submit plus the five timers ends on step 1 with the default record, no messages, progress 0 and the captured type confirmed |
| ContactForm.RunSplit | src/components/CTASection.tsx:177-309 | running two event sequences one after the other equals running their concatenation: same end state, and the notices of the first run followed by those of the second |
| ContactFormScenarios.NextAcceptsWellFormedEmail | src/components/CTASection.tsx:177-190 | after typing "a@b.co", "next" reaches step 2 with no e-mail message |
| ContactFormScenarios.NextRejectsMalformedEmail | src/components/CTASection.tsx:177-190 | after typing "bad", "next" stays on step 1 with the format message and no other message |
| ContactFormScenarios.NextBlockedOnStepOne | src/components/CTASection.tsx:177-190 | on step 1 an e-mail the validator rejects keeps the step and sets only the e-mail message |
| ContactFormScenarios.NextAdvancesFromStepOne | src/components/CTASection.tsx:177-190 | on step 1 an e-mail the validator accepts moves to step 2 with the e-mail message cleared and the others kept |
| ContactFormScenarios.SubmitWithoutConsent | src/components/CTASection.tsx:252-271 | a record valid but for consent shows only the consent message, stays on step 2, raises one notice and does not start |
| ContactFormScenarios.FilledInValidates | src/components/CTASection.tsx:150-165 | the sample record gets no message, except the consent message when consent is withheld |
| ContactFormScenarios.ValidSubmissionCompletes | src/components/CTASection.tsx:273-309 | the sample Acme / Yamada Taro / a@b.co submission runs at 12 with "consultation" captured and ends reset with "consultation" confirmed |
| ContactFormScenarios.OneAstralCharacterNamePasses | src/components/CTASection.tsx:157 | a one-character name outside the Basic Multilingual Plane passes the two-character rule |
| AdvisorChat.DetectFocusAreas | src/components/AIAdvisorChatbot.tsx:43-61 | at most four areas, strictly in the order cash, sales, time, AI, and an area is present iff its keyword test matches |
| AdvisorChat.Keep | src/components/AIAdvisorChatbot.tsx:45-58 | keeping the matching areas of a list in the order cash, sales, time, AI keeps that order, never grows the list, and holds exactly the input areas that match |
| AdvisorChat.Mentions | src/components/AIAdvisorChatbot.tsx:47-56 | each keyword test ignores ASCII case: folding the message's capitals first gives the same answer, for the AI test too |
| AdvisorChat.DetectFocusAreasUnique | src/components/AIAdvisorChatbot.tsx:43-61 | any ordered list holding exactly the matching areas is the detector's result |
| AdvisorChat.MentionsAiIff | src/components/AIAdvisorChatbot.tsx:44-56 | the AI test is a plain substring test on the lower-cased message |
| AdvisorChat.LowerCaseUnchanged | src/components/AIAdvisorChatbot.tsx:44 | a text with no ASCII capital and no dotted capital I is unchanged by both the ASCII folding and `toLowerCase` |
| AdvisorChat.EmailCountsAsAi | src/components/AIAdvisorChatbot.tsx:56 | the message "email" is detected as exactly the AI area, through the bare substring "ai" |
| AdvisorChat.DottedCapitalIMentionsAi | src/components/AIAdvisorChatbot.tsx:44-56 | "Aİ" counts as an AI topic only because of the separate lower-casing |
| AdvisorChat.BulletLines | src/components/AIAdvisorChatbot.tsx:86 | one body line per area, in the areas' order, each "・" followed by that area's suggestion |
| AdvisorChat.BuildResponse | src/components/AIAdvisorChatbot.tsx:63-93 | the areas are the detector's; none gives the fallback headline and body; otherwise the headline starts with the first area's name and the body splits into one "・" line per area, in order |
| AdvisorChat.HeadlineSingleLine | src/components/AIAdvisorChatbot.tsx:63-93 | every headline, fallback or area-based, holds no line break |
| AdvisorChat.ReplyText | src/components/AIAdvisorChatbot.tsx:139-145 | split into lines, the reply text is its headline alone followed by the body's lines |
| AdvisorChat.ReplyLines | src/components/AIAdvisorChatbot.tsx:139-145 | the reply text splits into the headline followed by exactly the body's lines |
| AdvisorChat.SendMessage | src/components/AIAdvisorChatbot.tsx:124-137 | blank text or a pending reply leaves the state unchanged; otherwise one user message holding the trimmed text is appended and the reply is scheduled |
| AdvisorChat.DeliverReply | src/components/AIAdvisorChatbot.tsx:139-149 | the reply timer appends exactly one assistant message, headline + line break + body, and stops thinking |
| AdvisorChat.ChatStep | src/components/AIAdvisorChatbot.tsx:152-162 | typing is ignored while thinking; submitting or a quick prompt empties the input box and sends the text (accepted or not) |
| AdvisorChat.LatestUserAt | src/components/AIAdvisorChatbot.tsx:117 | none iff no message is a user's; otherwise the position of a user message with no user message after it |
| AdvisorChat.LatestUser | src/components/AIAdvisorChatbot.tsx:117 | none iff there is no user message; otherwise the text of a user message with no user message after it |
| AdvisorChat.LatestUserSkips | src/components/AIAdvisorChatbot.tsx:117 | appending an assistant message does not change the latest user message |
| AdvisorChat.Summary | src/components/AIAdvisorChatbot.tsx:116-122 | the summary is absent iff no user message exists; otherwise it is the response built from the text of the last user message |
| AdvisorChat.ChatStepInv | src/components/AIAdvisorChatbot.tsx:124-162 | thinking iff a reply is pending; the input is empty while thinking; the pending text is the last message, a user one |
| AdvisorChat.InitialChatInv | src/components/AIAdvisorChatbot.tsx:96-105 | the chat opens idle with only the greeting, satisfies the invariant, and has no summary yet |
| AdvisorChat.ChatRunInv | src/components/AIAdvisorChatbot.tsx:124-162 | the invariant holds after any sequence of chat events |
| AdvisorChat.ChatReachableInv | src/components/AIAdvisorChatbot.tsx:96-162 | every state reached from the opening state satisfies the invariant |
| AdvisorChat.ReplyMatchesSummary | src/components/AIAdvisorChatbot.tsx:116-149 | the delivered reply's text is the summary's headline and body, and delivering it does not change the summary |
| AdvisorChat.SummaryAfterSend | src/components/AIAdvisorChatbot.tsx:116-137 | an accepted send makes the summary the response to its trimmed text |
| DemoCycler.ScenariosWellFormed | src/components/AIDemoExperienceSection.tsx:61-170 | the table is non-empty, every scenario has a frame, and ids are distinct |
| DemoCycler.FindId | src/components/AIDemoExperienceSection.tsx:180 | the first scenario with the id, or none iff no scenario has it |
| DemoCycler.ScenarioIndex | src/components/AIDemoExperienceSection.tsx:179-182 | the scenario with the id when one exists, the first scenario otherwise |
| DemoCycler.Lookup | src/components/AIDemoExperienceSection.tsx:179-182 | the scenario shown is a table entry: the one with the id when it exists, the first one otherwise |
| DemoCycler.LookupById | src/components/AIDemoExperienceSection.tsx:179-182 | an id of the table selects exactly that scenario |
| DemoCycler.FrameAt | src/components/AIDemoExperienceSection.tsx:184 | the indexed frame when the index is in range, the first frame otherwise |
| DemoCycler.HandleTick | src/components/AIDemoExperienceSection.tsx:190-200 | paused: nothing changes; playing: the next frame, and the first frame after the last |
| DemoCycler.HandleSelect | src/components/AIDemoExperienceSection.tsx:186-188 | a selection plays; the frame resets to the first exactly when the shown scenario changes |
| DemoCycler.HandleVisibility | src/components/AIDemoExperienceSection.tsx:202-211 | hiding the page pauses; showing it changes nothing |
| DemoCycler.DemoStep | src/components/AIDemoExperienceSection.tsx:272 | the play button flips playing; only it or a scenario button starts the player; only a scenario button changes the scenario |
| DemoCycler.InitialDemoInv | src/components/AIDemoExperienceSection.tsx:175-184 | the player starts on the first frame of the first scenario |
| DemoCycler.DemoStepInv | src/components/AIDemoExperienceSection.tsx:184-213 | every event keeps the index on a frame of the shown scenario |
| DemoCycler.DemoRunInv | src/components/AIDemoExperienceSection.tsx:184-213 | the same after any event sequence |
| DemoCycler.TicksAdvance | src/components/AIDemoExperienceSection.tsx:195-197 | k ticks while playing move the index k frames on modulo the frame count and change nothing else |
| DemoCycler.FullCycle | src/components/AIDemoExperienceSection.tsx:195-197 | as many ticks as frames return to the same state |
| DemoCycler.VisitsEveryFrame | src/components/AIDemoExperienceSection.tsx:195-197 | while playing, every frame is shown within one cycle |
| DemoCycler.PausedStaysPut | src/components/AIDemoExperienceSection.tsx:190-193 | paused, no number of ticks changes the state |
| DemoCycler.HiddenFreezes | src/components/AIDemoExperienceSection.tsx:202-207 | after the page is hidden, no sequence of ticks, hides or the page becoming visible again changes the state: only play or a scenario button resumes |
| DemoCycler.PausedFrozen | src/components/AIDemoExperienceSection.tsx:190-207 | a paused player stays as it is under any events other than the play and scenario buttons |
| DemoCycler.SelectKeepsOrResets | src/components/AIDemoExperienceSection.tsx:252-255 | a scenario button shows that scenario, playing, at the same frame if it was already shown and at the first frame otherwise |
| DemoCycler.ProgressBounds | src/components/AIDemoExperienceSection.tsx:213 | progress lies in (0, 100] and equals 100 exactly on the last frame |
| DemoCycler.ProgressMonotone | src/components/AIDemoExperienceSection.tsx:213 | within a scenario a later frame has strictly more progress |
| DemoCycler.Progress | src/components/AIDemoExperienceSection.tsx:213 | the bar's width is positive for every state |

`JsText.Join`, `ContactForm.Run`, `AdvisorChat.ChatRun` and `DemoCycler.DemoRun` are helpers without a contract of their own. `Join` is `join("\n")` at src/components/AIAdvisorChatbot.tsx:86, pinned down by `JsText.SplitJoin`. `Run`, `ChatRun` and `DemoRun` fold a sequence of events through `ContactForm.Step`, `AdvisorChat.ChatStep` and `DemoCycler.DemoStep`; `RunInv`, `RunSplit`, `TornDownStaysPut`, `ChatRunInv`, `DemoRunInv`, `TicksAdvance` and `HiddenFreezes` state what they do.

## Left out

- Wall-clock time: the 240–1420 ms progress delays, the 600 ms reply delay, the 3400 ms interval and the 7000 ms banner are events, not durations. Restarting the banner timer for a new confirmation, and the interval's phase after play or pause, are not modelled.
- Toasts are the `Notice` values `CheckInput` and `Received`. Their titles and descriptions are left out, as are all the Japanese error, greeting and advice texts (replaced by tags or one-line stand-ins).
- Message ids (`Date.now()`), scrolling, focus handling, ARIA ids and the confetti geometry are left out, because none of them affects the logic.
- React batching and the render between `setScenarioId` and the frame-reset effect are not modelled: a selection is one atomic step. Both scenarios have three frames, so that render cannot show an out-of-range index.
- The chat's reply timer is not cleared on unmount. The chat model has no unmount event.
- The step indicator `Math.round(currentStep / totalSteps * 100)` is not modelled, because it is cosmetic.
- The rendering gate on the Next and Back buttons (`currentStep < totalSteps`, `currentStep > 1`) is not modelled: their handlers are modelled with their own guards. The same applies to submitting from step 1 by pressing Enter, which the model allows.
- JsText.JsLower: models `toLowerCase` only for ASCII A-Z and the dotted capital I (U+0130). No other mapping can produce the "a" or "i" of the AI keyword "ai": other code points lower to a single code point that is neither (U+00C0 to U+00E0, the Kelvin sign U+212A to "k"), and the Japanese keywords have no case. Those other code points are kept unchanged, so the model's lower-cased text differs from the real one, but the AI test does not.
- `QuickPrompt` and `Select` accept any string, although the page can only send its three fixed prompts and its two scenario ids. Every property is proved for all strings, so it also holds for those.
- DemoCycler.Progress: computed over the reals. The floating-point rounding of the division is not modelled.
- Frame descriptions, chart data, metric cards and scenario accents carry no logic and are left out.
- The other sections of the site (diagnostic simulator, counters, parallax, scroll observers, static content, the WordPress plugin) are not part of this model.
