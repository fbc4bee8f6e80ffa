# FlowGrid chat turn and diagram panel, in Dafny

FlowGrid is a chat application that turns a conversation into a Mermaid diagram. This
project models the two pieces of it that hold its logic:

- `generateFlowchart` (src/lib/ai-service.ts), which handles one chat turn. It builds the
  transcript (system prompt, history, user message) and calls the model. It extracts the
  first ```` ```mermaid ```` block of the reply, trimmed. While the validator rejects that
  code, it asks the model for a repair, at most twice. Each repair request carries the
  original transcript, the previous reply and a message quoting the latest rejection.
  Finally it removes every mermaid block from the last reply to get the chat message,
  trims it, and falls back to a fixed sentence when nothing is left. A failed model call
  aborts the turn with a fixed error message.
- The state of the diagram panel (src/components/forms/diagram-panel.tsx): the zoom
  percentage and the theme, the buttons that change them, and the guards of the copy and
  export buttons.

The model (`callAI`) and the validator (`validateMermaidSyntax`) are oracles passed in as
functions. The model takes the index of the call within the turn, so two calls on the
same transcript may answer differently. `GenerateFlowchart` returns the result together
with a trace: every transcript sent, every reply read, and every code handed to the
validator. `AiService.IsTurn` states declaratively what a turn does with its oracles. The
method is proved to meet it, and `TurnProperties` derives the turn's observable behaviour
from it.

Modules, one per file:

- `Wrappers` holds `Option` and `Result`.
- `Text` is JavaScript's `String.prototype.trim`.
- `Fence` is the first match of the extraction's regular expression.
- `Cleanup` is the global replace plus the fallback.
- `Prompt` holds the transcripts.
- `AiService` is the turn.
- `TurnProperties` holds the consequences of `IsTurn`.
- `DiagramPanel` is the panel.

Where the documented behaviour and the code differ, the model follows the code:

- **Cleanup can leave a complete block.** Cleanup is documented as removing every diagram
  block from the message. The global replace does not rescan the text it has passed, so
  dropping an inner block can join the text around it into a new complete block, which
  stays in the message. `Cleanup.CleanupCanSpliceBlock` exhibits such a reply.
- **An exhausted turn reports no error.** When all three attempts are rejected, the
  documented behaviour keeps the last syntax error for the user. The code returns only the
  last code and message, with no error detail (`TurnProperties.Exhausted`).
- **Upstream failures are replaced by a fixed message.** The documented upstream error
  carries the status text. The turn rethrows every failure as "Failed to generate diagram.
  Please try again.", so the model keeps no detail (`AiService.AiReply.Failed`).
- **Cleanup only trims.** The documented cleanup also collapses inner white space. The code
  only trims the ends, and so does the model.

## Model

| member | source | states |
|---|---|---|
| Prompt.Initial | src/lib/ai-service.ts:157-161 | the first transcript is the system prompt, then the caller's history unchanged and in order, then the user message |
| Prompt.RepairRequest | src/lib/ai-service.ts:188 | the repair request quotes the validator's error verbatim between a fixed prefix and suffix |
| Prompt.QuotedErrorRoundTrip | src/lib/ai-service.ts:188 | the quoted error can be read back from a repair request unchanged |
| Prompt.RepairTranscript | src/lib/ai-service.ts:183-190 | a repair transcript is the original transcript, the previous reply as the assistant's, and a user message from which the quoted error reads back |
| Text.Trim | src/lib/ai-service.ts:167 | trimming leaves no white space at either end |
| Text.TrimEmptyIffAllSpace | src/lib/ai-service.ts:218-222 | the trimmed text is empty exactly when the text is all white space, which is when the fallback sentence is used |
| Text.TrimPadded | src/lib/ai-service.ts:167 | trimming removes exactly the white space around a text that has none at its ends |
| Fence.FindMatch | src/lib/ai-service.ts:166 | the match found is a complete block at or after the start position, no match starts before it, and none is found exactly when no match exists |
| Fence.Extract | src/lib/ai-service.ts:166-167 | the extracted code has no white space at its ends and contains no closing delimiter |
| Fence.ExtractSpec | src/lib/ai-service.ts:166-167 | the code is the trimmed interior of the leftmost match, whose interior ends at the first closing delimiter after the opening; it is empty when no match exists |
| Cleanup.RemoveMatches | src/lib/ai-service.ts:217 | the global replace from a position keeps the text unchanged when no match lies ahead, and never lengthens it |
| Cleanup.SplitIsScan | src/lib/ai-service.ts:217 | the global replace cuts the reply from left to right, one leftmost match at a time, resuming after each match |
| Cleanup.ScanIsSplit | src/lib/ai-service.ts:217 | such a left-to-right cut is unique, so it is the one the replace makes |
| Cleanup.SplitRoundTrip | src/lib/ai-service.ts:217 | the kept text and the removed blocks put back together give the reply |
| Cleanup.RemoveIsProse | src/lib/ai-service.ts:217 | the replace keeps exactly the text between the blocks, in order |
| Cleanup.CleanMessage | src/lib/ai-service.ts:216-222 | the message is never empty and has no white space at its ends |
| Cleanup.CleanMessageSpec | src/lib/ai-service.ts:216-222 | the message is the trimmed kept text of the left-to-right cut, or the fallback sentence exactly when that text is all white space |
| Cleanup.ExtractIsFirstBlock | src/lib/ai-service.ts:166-217 | the extracted code is the trimmed interior of the first block cleanup removes, and it is empty when cleanup removes nothing |
| Cleanup.ReplyWithoutBlock | src/lib/ai-service.ts:166-222 | a reply without a complete block yields no code, and its message is the reply trimmed |
| Cleanup.CleanupCanSpliceBlock | src/lib/ai-service.ts:217 | a reply exists whose cleaned message is itself a complete mermaid block, from which extraction reads code again |
| AiService.AttemptsAreCodes | src/lib/ai-service.ts:170-199 | the validator is handed exactly the non-empty codes |
| AiService.GenerateFlowchart | src/lib/ai-service.ts:151-228 | every result and trace of the turn satisfies IsTurn: one to three calls, each repair quoting the latest rejection, stopping at the first code that needs no repair, failing with the fixed message when a call fails |
| AiService.Repair | src/lib/ai-service.ts:170-213 | the validation of the first code and the repair loop complete a turn that satisfies IsTurn |
| AiService.Retry | src/lib/ai-service.ts:177-206 | one repair pass either ends the turn as failed or extends the calls by one, with the rejection the next pass must quote: the new code's, or the old one when the answer had no code |
| TurnProperties.CallCount | src/lib/ai-service.ts:173-192 | a turn makes one to three model calls; a success read every reply; a failure carries the fixed message |
| TurnProperties.NoCodeNoRepair | src/lib/ai-service.ts:163-223 | a first reply without code ends the turn after one call, the validator never consulted, answering with that reply |
| TurnProperties.ValidCodeNoRepair | src/lib/ai-service.ts:169-177 | a first code that validates ends the turn after one call and is returned unchanged |
| TurnProperties.RepairShape | src/lib/ai-service.ts:183-190 | every repair transcript has the history's length plus four messages: the first transcript, the previous reply, and a request quoting the latest rejection |
| TurnProperties.FirstRepair | src/lib/ai-service.ts:170-190 | a first repair is made only for non-empty rejected code, and quotes that rejection |
| TurnProperties.NextRepair | src/lib/ai-service.ts:195-206 | after a repair without code the next request quotes the old rejection; after rejected code, the new one |
| TurnProperties.StopsAtValidCode | src/lib/ai-service.ts:198-202 | the first code that validates is the last reply, and the turn answers with it |
| TurnProperties.Exhausted | src/lib/ai-service.ts:177-223 | when every call is answered and every reply asks for a repair, the turn returns rather than fails, after three calls with the last reply's code and message and no error |
| TurnProperties.CallFailureAborts | src/lib/ai-service.ts:163-227 | a failed model call is the turn's last call, and the turn fails with the fixed message |
| TurnProperties.Deterministic | src/lib/ai-service.ts:151-228 | the oracles determine the turn: two turns on the same inputs make the same calls, read the same replies, validate the same codes and give the same result |
| DiagramPanel.InitValid | src/components/forms/diagram-panel.tsx:15-16 | the panel starts at zoom 100 in dark mode, a valid state |
| DiagramPanel.ZoomIn | src/components/forms/diagram-panel.tsx:18-20 | zooming in adds one step of 10, capped at 200, and keeps the theme |
| DiagramPanel.ZoomOut | src/components/forms/diagram-panel.tsx:22-24 | zooming out removes one step of 10, floored at 50, and keeps the theme |
| DiagramPanel.Center | src/components/forms/diagram-panel.tsx:26-28 | centering restores the initial zoom and keeps the theme |
| DiagramPanel.ToggleTheme | src/components/forms/diagram-panel.tsx:122 | the theme button flips the theme and keeps the zoom |
| DiagramPanel.ButtonsPreserveValid | src/components/forms/diagram-panel.tsx:15-28 | every button keeps the zoom between 50 and 200 and a multiple of 10 |
| DiagramPanel.ZoomButtonsAct | src/components/forms/diagram-panel.tsx:90-105 | in a valid state a zoom button changes the zoom exactly when it is enabled (zoom out disabled at 50 or below, zoom in at 200 or above), and then by one step |
| DiagramPanel.ToggleInvolution | src/components/forms/diagram-panel.tsx:122 | toggling the theme twice restores the state |
| DiagramPanel.ThemeIndependentOfZoom | src/components/forms/diagram-panel.tsx:18-28 | the theme button commutes with every zoom button |
| DiagramPanel.RunPreservesValid | src/components/forms/diagram-panel.tsx:15-28 | any sequence of clicks from a valid state stays valid |
| DiagramPanel.RouteReaches | src/components/forms/diagram-panel.tsx:15-28 | every valid state is reachable from the initial one, so the invariant is exact |
| DiagramPanel.HandleCopy | src/components/forms/diagram-panel.tsx:30-41 | without code only the missing-diagram error is shown and the clipboard is not written; with code the clipboard gets the code, and the toast reports success exactly when the write succeeds |
| DiagramPanel.HandleExport | src/components/forms/diagram-panel.tsx:43-56 | without code only the missing-diagram error is shown and the exporter is not called; with code the exporter gets the current theme, and the toast reports success exactly when it does |
| DiagramPanel.NoCodeTouchesNothing | src/components/forms/diagram-panel.tsx:30-47 | without code, copy and export give the same outcome whatever the clipboard and exporter would answer |

## Left out

- The system prompt's text: it is the parameter `policy`, since only its place in the transcript matters.
- `callAI`'s HTTP request, headers, model name, temperature and token limit: the call is the oracle `ai`. Its `|| ""` default means an empty or missing content arrives as an empty reply.
- The upstream status text and every thrown error's detail: the turn rethrows a fixed message, so `AiReply.Failed` carries nothing.
- Console logging, including the "failed to fix after retries" log at src/lib/ai-service.ts:210-212: it has no effect on the result. It fires even after a repair that validated, because the loop leaves with `break` and never updates `validation.valid`.
- The Mermaid parser: `validateMermaidSyntax` is the deterministic function `validate`. The source's own catch turns every parser exception into an invalid verdict with an error text.
- AiService.GenerateFlowchart: a `conversationHistory` that is not an array of messages is modelled only when it is missing. The route handler (src/app/api/chat/route.ts:6, 24) passes the request body's field through unchecked. An undefined history takes the default `[]` of src/lib/ai-service.ts:153, which the model covers as `history == []`. A string is spread into its characters at line 159 and reaches the model call as non-message elements; transcripts here hold messages only. Null, a number, a boolean or a plain object makes the spread throw before any model call, and `IsTurn` requires at least one call, so it cannot state that turn.
- AiService.GenerateFlowchart: a non-string `content` in the history, or a non-string reply, is not modelled. Transcripts hold strings.
- Strings are sequences of Unicode characters, not UTF-16 code units. White space for `trim` is the ECMAScript set of white-space and line-terminator characters.
- The route handler, the chat panel, the PNG exporter's rendering, the Mermaid renderer and the page layout are not part of this model. The exporter is a boolean oracle, and so is the clipboard write.
- Concurrency, awaiting, timeouts and React's rendering and state batching: each handler is modelled as one step on the panel's state.

