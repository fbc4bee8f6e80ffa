/** `generateFlowchart`: one chat turn. It sends the transcript to the model, extracts
    the mermaid code from the reply, and while the validator rejects the code asks the
    model for a repair, at most `MaxRetries` times. The model (`callAI`) and the validator
    (`validateMermaidSyntax`) are oracles passed in as functions. */
module AiService {
  import opened Wrappers
  import opened Text
  import opened Fence
  import opened Cleanup
  import opened Prompt

  /** What `callAI` yields: the reply's content, or a failure (a non-ok response or a thrown
      error; its detail is never shown, since the turn rethrows a fixed message). */
  datatype AiReply = Replied(text: string) | Failed

  /** What `validateMermaidSyntax` yields; an invalid verdict always carries an error text. */
  datatype Validation = Valid | Invalid(error: string)

  /** `AIResponse`. */
  datatype AiResponse = AiResponse(mermaidCode: string, message: string)

  /** The response built from the reply that ends a turn: its code and its cleaned message. */
  function Respond(reply: string): AiResponse {
    AiResponse(Extract(reply), CleanMessage(reply))
  }

  /** The model: the `k`-th call of the turn (from 0) on a transcript. Taking the index lets
      two calls on the same transcript answer differently. */
  type Model = (nat, Transcript) -> AiReply

  /** The mermaid parser behind `validateMermaidSyntax`. */
  type Checker = string -> Validation

  /** What one turn did: the transcript of every model call, every reply received, and
      every code handed to the validator, each in order. */
  datatype Trace = Trace(prompts: seq<Transcript>, replies: seq<string>, checked: seq<string>)

  const MaxRetries: nat := 2

  /** The message of the error every failure of the turn is rethrown as. */
  const FailureMessage: string := "Failed to generate diagram. Please try again."

  /** The code extracted from each reply, in order. */
  function Codes(replies: seq<string>): (codes: seq<string>)
    ensures |codes| == |replies|
    ensures forall k {:trigger Extract(replies[k])} :: 0 <= k < |replies| ==> codes[k] == Extract(replies[k])
  {
    if replies == [] then []
    else Codes(replies[..|replies| - 1]) + [Extract(replies[|replies| - 1])]
  }

  /** Whether the loop asks for another repair after attempt `k` (0 is the initial call)
      extracted `code`: after the initial call only when there is code and the validator
      rejects it; after a repair also when there is no code at all. */
  predicate WantsRepair(validate: Checker, code: string, k: nat) {
    if k == 0 then code != "" && validate(code).Invalid?
    else code == "" || validate(code).Invalid?
  }

  /** The error of the latest code before attempt `k` that the validator rejected ("" if
      there is none): what `validation.error` holds when repair `k` is requested. */
  function LatestError(validate: Checker, codes: seq<string>, k: nat): string
    requires k <= |codes|
  {
    if k == 0 then ""
    else if codes[k - 1] != "" && validate(codes[k - 1]).Invalid? then validate(codes[k - 1]).error
    else LatestError(validate, codes, k - 1)
  }

  /** Every repair call sends the original transcript, the previous reply, and a request
      quoting the error of the latest rejected code. */
  ghost predicate RepairsQuoteLatestError(validate: Checker, prompts: seq<Transcript>, replies: seq<string>, codes: seq<string>)
    requires |codes| == |replies|
  {
    forall k :: 1 <= k < |prompts| ==>
      k <= |replies| && prompts[k] == RepairTranscript(prompts[0], replies[k - 1], LatestError(validate, codes, k))
  }

  /** The codes handed to the validator: the non-empty ones, in order. */
  function Attempts(codes: seq<string>): (checked: seq<string>)
    ensures |checked| <= |codes|
  {
    if codes == [] then []
    else
      var code := codes[|codes| - 1];
      Attempts(codes[..|codes| - 1]) + (if code != "" then [code] else [])
  }

  /** The validator sees exactly the non-empty codes: an empty one is never handed to it. */
  lemma {:induction false} AttemptsAreCodes(codes: seq<string>)
    ensures forall c :: c in Attempts(codes) <==> c in codes && c != ""
  {
    if codes != [] {
      var init := codes[..|codes| - 1];
      AttemptsAreCodes(init);
      assert codes == init + [codes[|codes| - 1]];
    }
  }

  /** What the calls of a turn so far have done: one to three model calls, the first on the
      initial transcript; every call but possibly a failed last one answered; a call followed
      by another only when its reply asked for a repair, each repair quoting the latest error;
      and the non-empty codes handed to the validator in order. */
  ghost predicate CallsSoFar(policy: string, userMessage: string, history: Transcript,
                             ai: Model, validate: Checker, prompts: seq<Transcript>, replies: seq<string>, checked: seq<string>)
  {
    && 1 <= |prompts| <= MaxRetries + 1
    && prompts[0] == Initial(policy, history, userMessage)
    && |prompts| - 1 <= |replies| <= |prompts|
    && (forall k :: 0 <= k < |replies| ==> ai(k, prompts[k]) == Replied(replies[k]))
    && (forall k :: 0 <= k < |prompts| - 1 ==> WantsRepair(validate, Codes(replies)[k], k))
    && RepairsQuoteLatestError(validate, prompts, replies, Codes(replies))
    && checked == Attempts(Codes(replies))
  }

  /** The behaviour of one turn, stated over its trace. */
  ghost predicate IsTurn(policy: string, userMessage: string, history: Transcript,
                         ai: Model, validate: Checker, result: Result<AiResponse, string>,
                         prompts: seq<Transcript>, replies: seq<string>, checked: seq<string>)
  {
    && CallsSoFar(policy, userMessage, history, ai, validate, prompts, replies, checked)
    && match result
       case Failure(e) =>
         // a failed call ends the turn with the fixed error and nothing else
         && e == FailureMessage
         && |replies| == |prompts| - 1
         && ai(|replies|, prompts[|replies|]).Failed?
       case Success(response) =>
         && |replies| == |prompts|
         // with retries left, the last reply asked for no repair
         && (|replies| <= MaxRetries ==> !WantsRepair(validate, Codes(replies)[|replies| - 1], |replies| - 1))
         // the code and the cleaned text of the last reply, whether valid or not
         && response == Respond(replies[|replies| - 1])
  }

  lemma CodesAppend(replies: seq<string>, reply: string)
    ensures Codes(replies + [reply]) == Codes(replies) + [Extract(reply)]
  {
    assert (replies + [reply])[..|replies|] == replies;
  }

  lemma AttemptsAppend(codes: seq<string>, code: string)
    ensures Attempts(codes + [code]) == Attempts(codes) + (if code != "" then [code] else [])
  {
    assert (codes + [code])[..|codes|] == codes;
  }

  /** A later code does not change the latest error before `k`. */
  lemma {:induction false} LatestErrorAppend(validate: Checker, codes: seq<string>, code: string, k: nat)
    requires k <= |codes|
    ensures LatestError(validate, codes + [code], k) == LatestError(validate, codes, k)
  {
    if k > 0 {
      assert (codes + [code])[k - 1] == codes[k - 1];
      LatestErrorAppend(validate, codes, code, k - 1);
    }
  }

  /** The error the next repair would quote: the new reply's if its code is rejected, else
      the one quoted before (an empty code leaves it unchanged). */
  lemma LatestErrorAfter(validate: Checker, replies: seq<string>, reply: string)
    ensures LatestError(validate, Codes(replies + [reply]), |replies| + 1) ==
      if Extract(reply) != "" && validate(Extract(reply)).Invalid? then validate(Extract(reply)).error
      else LatestError(validate, Codes(replies), |replies|)
  {
    CodesAppend(replies, reply);
    LatestErrorAppend(validate, Codes(replies), Extract(reply), |replies|);
  }

  lemma RepairsAppend(validate: Checker, prompts: seq<Transcript>, replies: seq<string>, codes: seq<string>,
                       reply: string, code: string)
    requires |prompts| <= |replies| + 1 && |codes| == |replies|
    requires RepairsQuoteLatestError(validate, prompts, replies, codes)
    ensures RepairsQuoteLatestError(validate, prompts, replies + [reply], codes + [code])
  {
    var replies' := replies + [reply];
    forall k | 1 <= k < |prompts|
      ensures prompts[k] == RepairTranscript(prompts[0], replies'[k - 1], LatestError(validate, codes + [code], k))
    {
      LatestErrorAppend(validate, codes, code, k);
      assert replies'[k - 1] == replies[k - 1];
    }
  }

  lemma ConcludeSuccess(policy: string, userMessage: string, history: Transcript,
                        ai: Model, validate: Checker, prompts: seq<Transcript>, replies: seq<string>, checked: seq<string>,
                        reply: string, code: string)
    requires CallsSoFar(policy, userMessage, history, ai, validate, prompts, replies, checked)
    requires |replies| == |prompts| && reply == replies[|replies| - 1] && code == Extract(reply)
    requires |replies| <= MaxRetries ==> !WantsRepair(validate, code, |replies| - 1)
    ensures IsTurn(policy, userMessage, history, ai, validate, Success(Respond(reply)),
      prompts, replies, checked)
  {
  }

  lemma ConcludeFailure(policy: string, userMessage: string, history: Transcript,
                        ai: Model, validate: Checker, prompts: seq<Transcript>, replies: seq<string>, checked: seq<string>)
    requires CallsSoFar(policy, userMessage, history, ai, validate, prompts, replies, checked)
    requires |replies| == |prompts| - 1
    requires ai(|replies|, prompts[|replies|]).Failed?
    ensures IsTurn(policy, userMessage, history, ai, validate, Failure(FailureMessage), prompts, replies, checked)
  {
  }

  /** The repair calls so far keep their transcripts when one more call is added. */
  lemma RepairKept(validate: Checker, prompts: seq<Transcript>, replies: seq<string>, codes: seq<string>,
                    fix: Transcript, k: nat)
    requires 1 <= k < |prompts| && |codes| == |replies|
    requires RepairsQuoteLatestError(validate, prompts, replies, codes)
    ensures k <= |replies|
    ensures (prompts + [fix])[k] == RepairTranscript((prompts + [fix])[0], replies[k - 1], LatestError(validate, codes, k))
  {
    assert (prompts + [fix])[k] == prompts[k];
    assert (prompts + [fix])[0] == prompts[0];
  }

  /** The added call is the repair for the last reply. */
  lemma RepairLast(validate: Checker, prompts: seq<Transcript>, replies: seq<string>, codes: seq<string>,
                   fix: Transcript, k: nat)
    requires 1 <= k == |prompts| <= |replies| == |codes|
    requires fix == RepairTranscript(prompts[0], replies[k - 1], LatestError(validate, codes, k))
    ensures (prompts + [fix])[k] == RepairTranscript((prompts + [fix])[0], replies[k - 1], LatestError(validate, codes, k))
  {
    assert (prompts + [fix])[k] == fix;
    assert (prompts + [fix])[0] == prompts[0];
  }

  /** A repair call quoting the latest error may follow the replies so far. */
  lemma RepairsExtend(validate: Checker, prompts: seq<Transcript>, replies: seq<string>, codes: seq<string>, fix: Transcript)
    requires 1 <= |prompts| == |replies| == |codes|
    requires RepairsQuoteLatestError(validate, prompts, replies, codes)
    requires fix == RepairTranscript(prompts[0], replies[|replies| - 1], LatestError(validate, codes, |replies|))
    ensures RepairsQuoteLatestError(validate, prompts + [fix], replies, codes)
  {
    var prompts' := prompts + [fix];
    forall k | 1 <= k < |prompts'|
      ensures k <= |replies| && prompts'[k] == RepairTranscript(prompts'[0], replies[k - 1], LatestError(validate, codes, k))
    {
      if k < |prompts| {
        RepairKept(validate, prompts, replies, codes, fix, k);
      } else {
        assert replies[k - 1] == replies[|replies| - 1];
        assert LatestError(validate, codes, k) == LatestError(validate, codes, |replies|);
        RepairLast(validate, prompts, replies, codes, fix, k);
      }
    }
  }

  /** A repair call may follow the last reply when that reply asked for a repair; it sends
      the original transcript, that reply and the latest error. */
  lemma AddRepairCall(policy: string, userMessage: string, history: Transcript,
                      ai: Model, validate: Checker, prompts: seq<Transcript>, replies: seq<string>, checked: seq<string>,
                      messages: Transcript, reply: string, error: string)
    requires CallsSoFar(policy, userMessage, history, ai, validate, prompts, replies, checked)
    requires |replies| == |prompts| <= MaxRetries
    requires messages == prompts[0] && reply == replies[|replies| - 1]
    requires WantsRepair(validate, Extract(reply), |replies| - 1)
    requires error == LatestError(validate, Codes(replies), |replies|)
    ensures CallsSoFar(policy, userMessage, history, ai, validate,
      prompts + [RepairTranscript(messages, reply, error)], replies, checked)
  {
    var fix := RepairTranscript(messages, reply, error);
    RepairsExtend(validate, prompts, replies, Codes(replies), fix);
    CallsKept(ai, validate, prompts, replies, fix);
    assert (prompts + [fix])[0] == prompts[0];
  }

  /** Helper: the answered calls keep their transcripts and their requests for a repair when
      one more call is added. */
  lemma CallsKept(ai: Model, validate: Checker, prompts: seq<Transcript>, replies: seq<string>, fix: Transcript)
    requires 1 <= |prompts| == |replies|
    requires forall k :: 0 <= k < |replies| ==> ai(k, prompts[k]) == Replied(replies[k])
    requires forall k :: 0 <= k < |prompts| - 1 ==> WantsRepair(validate, Codes(replies)[k], k)
    requires WantsRepair(validate, Extract(replies[|replies| - 1]), |replies| - 1)
    ensures forall k :: 0 <= k < |replies| ==> ai(k, (prompts + [fix])[k]) == Replied(replies[k])
    ensures forall k :: 0 <= k < |prompts + [fix]| - 1 ==> WantsRepair(validate, Codes(replies)[k], k)
  {
    var prompts' := prompts + [fix];
    forall k | 0 <= k < |replies|
      ensures ai(k, prompts'[k]) == Replied(replies[k])
    {
      assert prompts'[k] == prompts[k];
    }
    forall k | 0 <= k < |prompts'| - 1
      ensures WantsRepair(validate, Codes(replies)[k], k)
    {
      if k == |replies| - 1 {
        assert Codes(replies)[k] == Extract(replies[k]);
      }
    }
  }

  /** The answer to the latest call joins the trace, its code (if any) as validated. */
  lemma AddReply(policy: string, userMessage: string, history: Transcript,
                 ai: Model, validate: Checker, prompts: seq<Transcript>, replies: seq<string>, checked: seq<string>,
                 reply: string)
    requires CallsSoFar(policy, userMessage, history, ai, validate, prompts, replies, checked)
    requires |replies| == |prompts| - 1
    requires ai(|replies|, prompts[|replies|]) == Replied(reply)
    ensures CallsSoFar(policy, userMessage, history, ai, validate, prompts, replies + [reply],
      checked + (if Extract(reply) != "" then [Extract(reply)] else []))
  {
    var replies' := replies + [reply];
    assert forall k :: 0 <= k < |replies| ==> replies'[k] == replies[k];
    CodesAppend(replies, reply);
    RepairsAppend(validate, prompts, replies, Codes(replies), reply, Extract(reply));
    AttemptsAppend(Codes(replies), Extract(reply));
  }

  /** `generateFlowchart(userMessage, conversationHistory)`, with the system prompt `policy`. */
  method GenerateFlowchart(policy: string, userMessage: string, history: Transcript, ai: Model, validate: Checker)
    returns (result: Result<AiResponse, string>, trace: Trace)
    ensures IsTurn(policy, userMessage, history, ai, validate, result, trace.prompts, trace.replies, trace.checked)
  {
    var messages := Initial(policy, history, userMessage);
    var prompts, replies, checked := [messages], [], [];
    var answer := ai(0, messages);
    if answer.Failed? {
      ConcludeFailure(policy, userMessage, history, ai, validate, prompts, replies, checked);
      return Failure(FailureMessage), Trace(prompts, replies, checked);
    }
    var aiMessage := answer.text;
    AddReply(policy, userMessage, history, ai, validate, prompts, replies, checked, aiMessage);
    replies := [aiMessage];
    var mermaidCode := Extract(aiMessage);
    if mermaidCode == "" {
      ConcludeSuccess(policy, userMessage, history, ai, validate, prompts, replies, checked, aiMessage, mermaidCode);
      return Success(Respond(aiMessage)), Trace(prompts, replies, checked);
    }
    checked := [mermaidCode];
    result, trace := Repair(policy, userMessage, history, ai, validate, prompts, replies, checked,
      aiMessage, validate(mermaidCode));
  }

  /** The validation of the first code and the repair loop that follows it, up to `MaxRetries`
      further calls, each quoting the latest rejection. */
  method Repair(policy: string, userMessage: string, history: Transcript, ai: Model, validate: Checker,
                prompts0: seq<Transcript>, replies0: seq<string>, checked0: seq<string>,
                reply0: string, validation0: Validation)
    returns (result: Result<AiResponse, string>, trace: Trace)
    requires CallsSoFar(policy, userMessage, history, ai, validate, prompts0, replies0, checked0)
    requires |prompts0| == |replies0| == 1 && reply0 == replies0[0]
    requires Extract(reply0) != "" && validation0 == validate(Extract(reply0))
    ensures IsTurn(policy, userMessage, history, ai, validate, result, trace.prompts, trace.replies, trace.checked)
  {
    var messages := prompts0[0];
    var prompts, replies, checked := prompts0, replies0, checked0;
    var aiMessage := reply0;
    var validation := validation0;
    var retryCount: nat := 0;
    // A repair that validates leaves the loop at once, as the source's `break` does: here
    // `validation` becomes `Valid` and the loop condition fails.
    while validation.Invalid? && retryCount < MaxRetries
      invariant CallsSoFar(policy, userMessage, history, ai, validate, prompts, replies, checked)
      invariant |prompts| == |replies| == retryCount + 1 && messages == prompts[0]
      invariant aiMessage == replies[|replies| - 1]
      invariant validation.Valid? ==> !WantsRepair(validate, Extract(aiMessage), retryCount)
      invariant validation.Invalid? ==>
        && WantsRepair(validate, Extract(aiMessage), retryCount)
        && validation.error == LatestError(validate, Codes(replies), |replies|)
      decreases MaxRetries - retryCount
    {
      var failed;
      failed, prompts, replies, checked, aiMessage, validation :=
        Retry(policy, userMessage, history, ai, validate, prompts, replies, checked,
          messages, aiMessage, validation.error, retryCount);
      if failed {
        return Failure(FailureMessage), Trace(prompts, replies, checked);
      }
      retryCount := retryCount + 1;
    }
    ConcludeSuccess(policy, userMessage, history, ai, validate, prompts, replies, checked,
      aiMessage, Extract(aiMessage));
    return Success(Respond(aiMessage)), Trace(prompts, replies, checked);
  }

  /** One pass of the repair loop: ask for a fix quoting `error`, then extract and validate the
      code of the answer. `failed` says the call failed, which ends the turn; otherwise
      `validation'` is `Valid` when the fixed code validates and otherwise the rejection the
      next pass quotes (the old one when the answer held no code). */
  method Retry(policy: string, userMessage: string, history: Transcript, ai: Model, validate: Checker,
               prompts: seq<Transcript>, replies: seq<string>, checked: seq<string>,
               messages: Transcript, aiMessage: string, error: string, retryCount: nat)
    returns (failed: bool, prompts': seq<Transcript>, replies': seq<string>, checked': seq<string>,
             reply': string, validation': Validation)
    requires CallsSoFar(policy, userMessage, history, ai, validate, prompts, replies, checked)
    requires |prompts| == |replies| == retryCount + 1 <= MaxRetries
    requires messages == prompts[0] && aiMessage == replies[|replies| - 1]
    requires WantsRepair(validate, Extract(aiMessage), retryCount)
    requires error == LatestError(validate, Codes(replies), |replies|)
    ensures failed ==> IsTurn(policy, userMessage, history, ai, validate, Failure(FailureMessage),
      prompts', replies', checked')
    ensures !failed ==>
      && CallsSoFar(policy, userMessage, history, ai, validate, prompts', replies', checked')
      && |prompts'| == |replies'| == retryCount + 2 && messages == prompts'[0]
      && reply' == replies'[|replies'| - 1]
      && (validation'.Valid? ==> !WantsRepair(validate, Extract(reply'), retryCount + 1))
      && (validation'.Invalid? ==>
           && WantsRepair(validate, Extract(reply'), retryCount + 1)
           && validation'.error == LatestError(validate, Codes(replies'), |replies'|))
  {
    AddRepairCall(policy, userMessage, history, ai, validate, prompts, replies, checked,
      messages, aiMessage, error);
    var fixMessages := RepairTranscript(messages, aiMessage, error);
    prompts' := prompts + [fixMessages];
    var answer := ai(retryCount + 1, fixMessages);
    if answer.Failed? {
      ConcludeFailure(policy, userMessage, history, ai, validate, prompts', replies, checked);
      return true, prompts', replies, checked, aiMessage, Invalid(error);
    }
    reply' := answer.text;
    replies' := replies + [reply'];
    var mermaidCode := Extract(reply');
    if mermaidCode == "" {
      checked', validation' := checked, Invalid(error);
    } else {
      checked', validation' := checked + [mermaidCode], validate(mermaidCode);
    }
    Revalidated(policy, userMessage, history, ai, validate, prompts', replies, checked, error,
      reply', replies', checked', validation');
    failed := false;
  }

  /** The answer to a repair call joins the trace; the rejection the next pass would quote is the
      new code's when it is rejected and the old one when the answer held no code. */
  lemma Revalidated(policy: string, userMessage: string, history: Transcript, ai: Model, validate: Checker,
                    prompts: seq<Transcript>, replies: seq<string>, checked: seq<string>, error: string,
                    reply: string, replies': seq<string>, checked': seq<string>, validation': Validation)
    requires CallsSoFar(policy, userMessage, history, ai, validate, prompts, replies, checked)
    requires 1 <= |replies| == |prompts| - 1
    requires ai(|replies|, prompts[|replies|]) == Replied(reply)
    requires error == LatestError(validate, Codes(replies), |replies|)
    requires replies' == replies + [reply]
    requires Extract(reply) == "" ==> checked' == checked && validation' == Invalid(error)
    requires Extract(reply) != "" ==> checked' == checked + [Extract(reply)] && validation' == validate(Extract(reply))
    ensures CallsSoFar(policy, userMessage, history, ai, validate, prompts, replies', checked')
    ensures validation'.Valid? ==> !WantsRepair(validate, Extract(reply), |replies|)
    ensures validation'.Invalid? ==>
      && WantsRepair(validate, Extract(reply), |replies|)
      && validation'.error == LatestError(validate, Codes(replies'), |replies'|)
  {
    AddReply(policy, userMessage, history, ai, validate, prompts, replies, checked, reply);
    NextRejection(validate, replies, error, reply, replies', validation');
  }

  /** Which rejection the next repair call quotes, after one more reply. */
  lemma NextRejection(validate: Checker, replies: seq<string>, error: string,
                      reply: string, replies': seq<string>, validation': Validation)
    requires 1 <= |replies|
    requires error == LatestError(validate, Codes(replies), |replies|)
    requires replies' == replies + [reply]
    requires Extract(reply) == "" ==> validation' == Invalid(error)
    requires Extract(reply) != "" ==> validation' == validate(Extract(reply))
    ensures validation'.Valid? ==> !WantsRepair(validate, Extract(reply), |replies|)
    ensures validation'.Invalid? ==>
      && WantsRepair(validate, Extract(reply), |replies|)
      && validation'.error == LatestError(validate, Codes(replies'), |replies'|)
  {
    LatestErrorAfter(validate, replies, reply);
    assert |replies'| == |replies| + 1;
  }
}
