/** What every turn of `generateFlowchart` does, read off the behaviour `IsTurn` fixes: how
    many calls it makes, what each repair request says, when the loop stops, and that the
    oracles' answers determine the whole turn. */
module TurnProperties {
  import opened Wrappers
  import opened Fence
  import opened Prompt
  import opened AiService

  /** A turn makes one to three model calls; a successful one read every reply, a failed one
      all but the last call's, and failure carries the fixed message. */
  lemma CallCount(policy: string, userMessage: string, history: Transcript, ai: Model, validate: Checker,
                  result: Result<AiResponse, string>, prompts: seq<Transcript>, replies: seq<string>, checked: seq<string>)
    requires IsTurn(policy, userMessage, history, ai, validate, result, prompts, replies, checked)
    ensures 1 <= |prompts| <= MaxRetries + 1
    ensures result.Success? ==> |replies| == |prompts|
    ensures result.Failure? ==> |replies| == |prompts| - 1 && result.error == FailureMessage
    ensures |checked| <= |replies|
  {
  }

  /** Helper: the code of the first reply, as `Codes` records it. */
  lemma FirstCode(replies: seq<string>)
    requires 1 <= |replies|
    ensures Codes(replies)[0] == Extract(replies[0])
  {
    assert Extract(replies[0]) == Codes(replies)[0];
  }

  /** A first reply without code ends the turn at once: one call, the validator never
      consulted, and the reply itself answered. */
  lemma NoCodeNoRepair(policy: string, userMessage: string, history: Transcript, ai: Model, validate: Checker,
                       result: Result<AiResponse, string>, prompts: seq<Transcript>, replies: seq<string>, checked: seq<string>)
    requires IsTurn(policy, userMessage, history, ai, validate, result, prompts, replies, checked)
    requires 1 <= |replies| && Extract(replies[0]) == ""
    ensures |prompts| == 1 && checked == []
    ensures result == Success(Respond(replies[0]))
  {
    TurnEnd(policy, userMessage, history, ai, validate, result, prompts, replies, checked);
    TurnChained(policy, userMessage, history, ai, validate, result, prompts, replies, checked);
    StopsAt(ai, validate, result, prompts, replies, 0);
    OneCheck(replies);
  }

  /** A first code the validator accepts ends the turn at once: one call, that code the only
      one validated, and returned unchanged. */
  lemma ValidCodeNoRepair(policy: string, userMessage: string, history: Transcript, ai: Model, validate: Checker,
                          result: Result<AiResponse, string>, prompts: seq<Transcript>, replies: seq<string>, checked: seq<string>)
    requires IsTurn(policy, userMessage, history, ai, validate, result, prompts, replies, checked)
    requires 1 <= |replies| && Extract(replies[0]) != "" && validate(Extract(replies[0])).Valid?
    ensures |prompts| == 1 && checked == [Extract(replies[0])]
    ensures result.Success? && result.value.mermaidCode == Extract(replies[0])
  {
    TurnEnd(policy, userMessage, history, ai, validate, result, prompts, replies, checked);
    TurnChained(policy, userMessage, history, ai, validate, result, prompts, replies, checked);
    StopsAt(ai, validate, result, prompts, replies, 0);
    OneCheck(replies);
  }

  /** Helper: after one reply the validator has seen its code, if it has one. */
  lemma OneCheck(replies: seq<string>)
    requires |replies| == 1
    ensures Attempts(Codes(replies)) == if Extract(replies[0]) != "" then [Extract(replies[0])] else []
  {
    assert Codes(replies) == [Extract(replies[0])];
    assert Attempts([Extract(replies[0])]) == Attempts([]) + Attempts([Extract(replies[0])]);
  }

  /** Every repair request is the original transcript, the previous reply as the assistant's,
      and a user message quoting the latest rejection: always `|history| + 4` messages, so the
      transcript does not grow from one repair to the next. */
  lemma RepairShape(policy: string, userMessage: string, history: Transcript, ai: Model, validate: Checker,
                    result: Result<AiResponse, string>, prompts: seq<Transcript>, replies: seq<string>, checked: seq<string>,
                    k: nat)
    requires IsTurn(policy, userMessage, history, ai, validate, result, prompts, replies, checked)
    requires 1 <= k < |prompts|
    ensures |prompts[k]| == |history| + 4
    ensures prompts[k][..|history| + 2] == Initial(policy, history, userMessage)
    ensures prompts[k][|history| + 2] == Message(Assistant, replies[k - 1])
    ensures prompts[k][|history| + 3].role == User
    ensures QuotedError(prompts[k][|history| + 3].content) == LatestError(validate, Codes(replies), k)
  {
    var error := LatestError(validate, Codes(replies), k);
    assert prompts[k] == RepairTranscript(prompts[0], replies[k - 1], error);
    assert prompts[k][..|history| + 2] == prompts[0];
    QuotedErrorRoundTrip(error);
  }

  /** The first repair is asked for only when the first reply held code the validator
      rejected, and it quotes that rejection. */
  lemma FirstRepair(policy: string, userMessage: string, history: Transcript, ai: Model, validate: Checker,
                    result: Result<AiResponse, string>, prompts: seq<Transcript>, replies: seq<string>, checked: seq<string>)
    requires IsTurn(policy, userMessage, history, ai, validate, result, prompts, replies, checked)
    requires 2 <= |prompts|
    ensures Extract(replies[0]) != "" && validate(Extract(replies[0])).Invalid?
    ensures prompts[1] == RepairTranscript(prompts[0], replies[0], validate(Extract(replies[0])).error)
  {
    FirstCode(replies);
    assert WantsRepair(validate, Codes(replies)[0], 0);
    assert prompts[1] == RepairTranscript(prompts[0], replies[0], LatestError(validate, Codes(replies), 1));
  }

  /** After a repair, the next request quotes the old rejection again when the answer held no
      code, and the new one when its code was rejected; a repair that validates asks for no
      further one. */
  lemma NextRepair(policy: string, userMessage: string, history: Transcript, ai: Model, validate: Checker,
                   result: Result<AiResponse, string>, prompts: seq<Transcript>, replies: seq<string>, checked: seq<string>,
                   k: nat)
    requires IsTurn(policy, userMessage, history, ai, validate, result, prompts, replies, checked)
    requires 1 <= k && k + 1 < |prompts|
    ensures Extract(replies[k]) != "" ==> validate(Extract(replies[k])).Invalid?
    ensures Extract(replies[k]) == "" ==> prompts[k + 1][|history| + 3] == prompts[k][|history| + 3]
    ensures Extract(replies[k]) != "" ==>
      prompts[k + 1][|history| + 3] == Message(User, RepairRequest(validate(Extract(replies[k])).error))
  {
    var codes := Codes(replies);
    assert codes[k] == Extract(replies[k]);
    assert WantsRepair(validate, codes[k], k);
    assert prompts[k] == RepairTranscript(prompts[0], replies[k - 1], LatestError(validate, codes, k));
    assert prompts[k + 1] == RepairTranscript(prompts[0], replies[k], LatestError(validate, codes, k + 1));
    assert |prompts[0]| == |history| + 2;
  }

  /** The loop stops at the first code the validator accepts: that reply is the last one and
      the turn answers with it. */
  lemma StopsAtValidCode(policy: string, userMessage: string, history: Transcript, ai: Model, validate: Checker,
                         result: Result<AiResponse, string>, prompts: seq<Transcript>, replies: seq<string>, checked: seq<string>,
                         k: nat)
    requires IsTurn(policy, userMessage, history, ai, validate, result, prompts, replies, checked)
    requires k < |replies| && Extract(replies[k]) != "" && validate(Extract(replies[k])).Valid?
    ensures |prompts| == |replies| == k + 1
    ensures result == Success(Respond(replies[k]))
  {
    TurnEnd(policy, userMessage, history, ai, validate, result, prompts, replies, checked);
    TurnChained(policy, userMessage, history, ai, validate, result, prompts, replies, checked);
    StopsAt(ai, validate, result, prompts, replies, k);
  }

  lemma StopsAt(ai: Model, validate: Checker, result: Result<AiResponse, string>, prompts: seq<Transcript>, replies: seq<string>,
                k: nat)
    requires Ended(ai, result, prompts, replies) && Chained(validate, prompts, replies)
    requires k < |replies| && !WantsRepair(validate, Extract(replies[k]), k)
    ensures |prompts| == |replies| == k + 1
    ensures result == Success(Respond(replies[k]))
  {
    assert |prompts| == |replies| == k + 1;
    var last := replies[|replies| - 1];
    assert last == replies[k];
    assert result == Success(Respond(last));
  }

  /** Helper: every call but the last asked for a repair. */
  ghost predicate Chained(validate: Checker, prompts: seq<Transcript>, replies: seq<string>) {
    && |prompts| - 1 <= |replies|
    && forall k :: 0 <= k < |prompts| - 1 ==> WantsRepair(validate, Extract(replies[k]), k)
  }

  lemma TurnChained(policy: string, userMessage: string, history: Transcript, ai: Model, validate: Checker,
                    result: Result<AiResponse, string>, prompts: seq<Transcript>, replies: seq<string>, checked: seq<string>)
    requires IsTurn(policy, userMessage, history, ai, validate, result, prompts, replies, checked)
    ensures Chained(validate, prompts, replies)
  {
    forall k | 0 <= k < |prompts| - 1
      ensures WantsRepair(validate, Extract(replies[k]), k)
    {
      assert Codes(replies)[k] == Extract(replies[k]);
    }
  }

  /** When every call is answered and every reply asks for a repair, the turn returns
      rather than fails: three calls, the last retry's code as it is (possibly empty), and
      no error. */
  lemma Exhausted(policy: string, userMessage: string, history: Transcript, ai: Model, validate: Checker,
                  result: Result<AiResponse, string>, prompts: seq<Transcript>, replies: seq<string>, checked: seq<string>)
    requires IsTurn(policy, userMessage, history, ai, validate, result, prompts, replies, checked)
    requires forall k :: 0 <= k < |prompts| ==> ai(k, prompts[k]).Replied?
    requires forall k :: 0 <= k < |replies| ==> WantsRepair(validate, Extract(replies[k]), k)
    ensures result.Success?
    ensures |prompts| == |replies| == MaxRetries + 1
    ensures result.value == Respond(replies[MaxRetries])
  {
    assert result.Success?;
    ExhaustedAnswer(policy, userMessage, history, ai, validate, result, prompts, replies, checked);
  }

  /** Helper: a turn that answered, with every reply asking for a repair, used all retries. */
  lemma ExhaustedAnswer(policy: string, userMessage: string, history: Transcript, ai: Model, validate: Checker,
                        result: Result<AiResponse, string>, prompts: seq<Transcript>, replies: seq<string>, checked: seq<string>)
    requires IsTurn(policy, userMessage, history, ai, validate, result, prompts, replies, checked)
    requires result.Success?
    requires forall k :: 0 <= k < |replies| ==> WantsRepair(validate, Extract(replies[k]), k)
    ensures |prompts| == |replies| == MaxRetries + 1
    ensures result.value == Respond(replies[MaxRetries])
  {
    var last := |replies| - 1;
    assert Codes(replies)[last] == Extract(replies[last]);
    assert WantsRepair(validate, Extract(replies[last]), last);
  }

  /** A failed model call aborts the whole turn: it is the turn's last call, and the turn
      fails with the fixed message. */
  lemma CallFailureAborts(policy: string, userMessage: string, history: Transcript, ai: Model, validate: Checker,
                          result: Result<AiResponse, string>, prompts: seq<Transcript>, replies: seq<string>, checked: seq<string>,
                          k: nat)
    requires IsTurn(policy, userMessage, history, ai, validate, result, prompts, replies, checked)
    requires k < |prompts| && ai(k, prompts[k]).Failed?
    ensures k == |prompts| - 1 && |replies| == k
    ensures result == Failure(FailureMessage)
  {
  }

  /** Helper: the latest rejection before attempt `k` depends only on the first `k` codes. */
  lemma {:induction false} LatestErrorPrefix(validate: Checker, codes: seq<string>, codes': seq<string>, k: nat)
    requires k <= |codes| && k <= |codes'|
    requires forall i :: 0 <= i < k ==> codes[i] == codes'[i]
    ensures LatestError(validate, codes, k) == LatestError(validate, codes', k)
    decreases k
  {
    if k > 0 {
      LatestErrorPrefix(validate, codes, codes', k - 1);
    }
  }

  /** Helper: the part of `CallsSoFar` that fixes each call from the ones before it. */
  ghost predicate Answered(ai: Model, validate: Checker, prompts: seq<Transcript>, replies: seq<string>, codes: seq<string>) {
    && codes == Codes(replies)
    && 1 <= |prompts| && |prompts| - 1 <= |replies| <= |prompts|
    && (forall k {:trigger prompts[k]} :: 0 <= k < |replies| ==> ai(k, prompts[k]) == Replied(replies[k]))
    && RepairsQuoteLatestError(validate, prompts, replies, codes)
  }

  lemma TurnAnswered(policy: string, userMessage: string, history: Transcript, ai: Model, validate: Checker,
                      prompts: seq<Transcript>, replies: seq<string>, checked: seq<string>)
    requires CallsSoFar(policy, userMessage, history, ai, validate, prompts, replies, checked)
    ensures Answered(ai, validate, prompts, replies, Codes(replies))
    ensures prompts[0] == Initial(policy, history, userMessage)
  {
  }

  /** Helper: two turns made the same first `n` calls and read the same replies to them. */
  ghost predicate AgreeBelow(prompts: seq<Transcript>, replies: seq<string>,
                             prompts': seq<Transcript>, replies': seq<string>, n: nat)
    requires n <= |prompts| && n <= |prompts'|
  {
    && (forall k :: 0 <= k < n ==> prompts[k] == prompts'[k])
    && (forall k :: 0 <= k < n && k < |replies| && k < |replies'| ==> replies[k] == replies'[k])
  }

  /** Helper: two turns on the same inputs and oracles agree call by call, up to the shorter. */
  lemma {:induction false} TurnsAgreeUpTo(ai: Model, validate: Checker,
                                          prompts: seq<Transcript>, replies: seq<string>, codes: seq<string>,
                                          prompts': seq<Transcript>, replies': seq<string>, codes': seq<string>,
                                          n: nat)
    requires Answered(ai, validate, prompts, replies, codes) && Answered(ai, validate, prompts', replies', codes')
    requires prompts[0] == prompts'[0]
    requires n <= |prompts| && n <= |prompts'|
    ensures AgreeBelow(prompts, replies, prompts', replies', n)
    decreases n
  {
    if n > 0 {
      TurnsAgreeUpTo(ai, validate, prompts, replies, codes, prompts', replies', codes', n - 1);
      AgreeStep(ai, validate, prompts, replies, codes, prompts', replies', codes', n - 1);
    }
  }

  /** Helper: call `k` of two turns agrees when the calls before it do. */
  lemma AgreeStep(ai: Model, validate: Checker,
                  prompts: seq<Transcript>, replies: seq<string>, codes: seq<string>,
                  prompts': seq<Transcript>, replies': seq<string>, codes': seq<string>,
                  k: nat)
    requires Answered(ai, validate, prompts, replies, codes) && Answered(ai, validate, prompts', replies', codes')
    requires prompts[0] == prompts'[0]
    requires k < |prompts| && k < |prompts'|
    requires AgreeBelow(prompts, replies, prompts', replies', k)
    ensures AgreeBelow(prompts, replies, prompts', replies', k + 1)
  {
    if k > 0 {
      CodesAgree(replies, replies', k);
      RepairsAgree(validate, prompts, replies, codes, prompts', replies', codes', k);
    }
    ReplyAgrees(ai, prompts, replies, prompts', replies', k);
    forall i | 0 <= i < k + 1
      ensures prompts[i] == prompts'[i]
    {
      if i < k {
      }
    }
    forall i | 0 <= i < k + 1 && i < |replies| && i < |replies'|
      ensures replies[i] == replies'[i]
    {
      if i < k {
      }
    }
  }

  /** Helper: the same call gets the same reply. */
  lemma ReplyAgrees(ai: Model, prompts: seq<Transcript>, replies: seq<string>,
                    prompts': seq<Transcript>, replies': seq<string>, k: nat)
    requires k < |prompts| && k < |prompts'| && prompts[k] == prompts'[k]
    requires forall i {:trigger prompts[i]} :: 0 <= i < |replies| ==> i < |prompts| && ai(i, prompts[i]) == Replied(replies[i])
    requires forall i {:trigger prompts'[i]} :: 0 <= i < |replies'| ==> i < |prompts'| && ai(i, prompts'[i]) == Replied(replies'[i])
    ensures k < |replies| && k < |replies'| ==> replies[k] == replies'[k]
  {
    if k < |replies| && k < |replies'| {
      assert ai(k, prompts[k]) == Replied(replies[k]);
      assert ai(k, prompts'[k]) == Replied(replies'[k]);
    }
  }

  /** Helper: replies that agree up to `k` have codes that agree up to `k`. */
  lemma CodesAgree(replies: seq<string>, replies': seq<string>, k: nat)
    requires k <= |replies| && k <= |replies'|
    requires forall i :: 0 <= i < k ==> replies[i] == replies'[i]
    ensures forall i :: 0 <= i < k ==> Codes(replies)[i] == Codes(replies')[i]
  {
    forall i | 0 <= i < k
      ensures Codes(replies)[i] == Codes(replies')[i]
    {
      assert Codes(replies)[i] == Extract(replies[i]) && Codes(replies')[i] == Extract(replies'[i]);
    }
  }

  /** Helper: repair `k` of two turns is the same request when the replies and codes before
      it are. */
  lemma RepairsAgree(validate: Checker, prompts: seq<Transcript>, replies: seq<string>, codes: seq<string>,
                     prompts': seq<Transcript>, replies': seq<string>, codes': seq<string>, k: nat)
    requires |codes| == |replies| && |codes'| == |replies'|
    requires RepairsQuoteLatestError(validate, prompts, replies, codes)
    requires RepairsQuoteLatestError(validate, prompts', replies', codes')
    requires 1 <= k < |prompts| && k < |prompts'| && prompts[0] == prompts'[0]
    requires k <= |replies| && k <= |replies'|
    requires forall i :: 0 <= i < k ==> replies[i] == replies'[i] && codes[i] == codes'[i]
    ensures prompts[k] == prompts'[k]
  {
    LatestErrorPrefix(validate, codes, codes', k);
    assert replies[k - 1] == replies'[k - 1];
    assert prompts[k] == RepairTranscript(prompts[0], replies[k - 1], LatestError(validate, codes, k));
    assert prompts'[k] == RepairTranscript(prompts'[0], replies'[k - 1], LatestError(validate, codes', k));
  }

  /** The oracles' answers determine the turn: two runs on the same inputs make the same
      calls, read the same replies, validate the same codes and end the same way. */
  lemma Deterministic(policy: string, userMessage: string, history: Transcript, ai: Model, validate: Checker,
                      result: Result<AiResponse, string>, prompts: seq<Transcript>, replies: seq<string>, checked: seq<string>,
                      result': Result<AiResponse, string>, prompts': seq<Transcript>, replies': seq<string>, checked': seq<string>)
    requires IsTurn(policy, userMessage, history, ai, validate, result, prompts, replies, checked)
    requires IsTurn(policy, userMessage, history, ai, validate, result', prompts', replies', checked')
    ensures prompts == prompts' && replies == replies' && checked == checked' && result == result'
  {
    SamePrompts(policy, userMessage, history, ai, validate, result, prompts, replies, checked,
      result', prompts', replies', checked');
    TurnEnd(policy, userMessage, history, ai, validate, result, prompts, replies, checked);
    TurnEnd(policy, userMessage, history, ai, validate, result', prompts', replies', checked');
    SameEnd(ai, prompts, result, replies, result', replies');
  }

  /** Helper: two turns on the same inputs and oracles make the same calls. */
  lemma SamePrompts(policy: string, userMessage: string, history: Transcript, ai: Model, validate: Checker,
                    result: Result<AiResponse, string>, prompts: seq<Transcript>, replies: seq<string>, checked: seq<string>,
                    result': Result<AiResponse, string>, prompts': seq<Transcript>, replies': seq<string>, checked': seq<string>)
    requires IsTurn(policy, userMessage, history, ai, validate, result, prompts, replies, checked)
    requires IsTurn(policy, userMessage, history, ai, validate, result', prompts', replies', checked')
    ensures prompts == prompts'
    ensures forall k :: 0 <= k < |prompts| && k < |replies| && k < |replies'| ==> replies[k] == replies'[k]
  {
    var n := if |prompts| < |prompts'| then |prompts| else |prompts'|;
    TurnAnswered(policy, userMessage, history, ai, validate, prompts, replies, checked);
    TurnAnswered(policy, userMessage, history, ai, validate, prompts', replies', checked');
    TurnsAgreeUpTo(ai, validate, prompts, replies, Codes(replies), prompts', replies', Codes(replies'), n);
    if |prompts| <= |prompts'| {
      SameLength(policy, userMessage, history, ai, validate, result, prompts, replies, checked,
        result', prompts', replies', checked');
    } else {
      SameLength(policy, userMessage, history, ai, validate, result', prompts', replies', checked',
        result, prompts, replies, checked);
    }
    assert prompts == prompts';
  }

  /** Helper: a turn that agrees with another on its calls makes no fewer calls. */
  lemma SameLength(policy: string, userMessage: string, history: Transcript, ai: Model, validate: Checker,
                   result: Result<AiResponse, string>, prompts: seq<Transcript>, replies: seq<string>, checked: seq<string>,
                   result': Result<AiResponse, string>, prompts': seq<Transcript>, replies': seq<string>, checked': seq<string>)
    requires IsTurn(policy, userMessage, history, ai, validate, result, prompts, replies, checked)
    requires IsTurn(policy, userMessage, history, ai, validate, result', prompts', replies', checked')
    requires |prompts| <= |prompts'|
    requires forall k :: 0 <= k < |prompts| ==> prompts[k] == prompts'[k]
    requires forall k :: 0 <= k < |prompts| && k < |replies| && k < |replies'| ==> replies[k] == replies'[k]
    ensures |prompts| == |prompts'|
  {
    var k := |prompts| - 1;
    if result.Success? {
      // the last reply asked for no repair, and the other turn read the same reply
      assert Codes(replies)[k] == Extract(replies[k]);
      if k < |replies'| {
        assert replies'[k] == replies[k];
        assert Codes(replies')[k] == Extract(replies'[k]);
      }
    } else {
      // the last call failed, in the other turn too
      assert ai(k, prompts'[k]).Failed?;
    }
  }

  /** Helper: how a turn ends, read off its last call: it failed exactly when that call did,
      and otherwise answers with that call's reply. */
  ghost predicate Ended(ai: Model, result: Result<AiResponse, string>, prompts: seq<Transcript>, replies: seq<string>) {
    && 1 <= |prompts| && |prompts| - 1 <= |replies| <= |prompts|
    && (|replies| < |prompts| <==> ai(|prompts| - 1, prompts[|prompts| - 1]).Failed?)
    && result == Outcome(|prompts|, replies)
  }

  /** Helper: the result of a turn of `calls` calls that read `replies`. */
  function Outcome(calls: nat, replies: seq<string>): Result<AiResponse, string>
    requires 1 <= calls && calls - 1 <= |replies| <= calls
  {
    if |replies| < calls then Failure(FailureMessage) else Success(Respond(replies[|replies| - 1]))
  }

  lemma TurnEnd(policy: string, userMessage: string, history: Transcript, ai: Model, validate: Checker,
                result: Result<AiResponse, string>, prompts: seq<Transcript>, replies: seq<string>, checked: seq<string>)
    requires IsTurn(policy, userMessage, history, ai, validate, result, prompts, replies, checked)
    ensures Ended(ai, result, prompts, replies)
    ensures checked == Attempts(Codes(replies))
  {
    var n := |prompts|;
    if |replies| == n {
      assert ai(n - 1, prompts[n - 1]) == Replied(replies[n - 1]);
    }
  }

  /** Helper: two turns with the same calls read the same replies and end the same way. */
  lemma SameEnd(ai: Model, prompts: seq<Transcript>,
                result: Result<AiResponse, string>, replies: seq<string>,
                result': Result<AiResponse, string>, replies': seq<string>)
    requires Ended(ai, result, prompts, replies) && Ended(ai, result', prompts, replies')
    requires forall k :: 0 <= k < |prompts| && k < |replies| && k < |replies'| ==> replies[k] == replies'[k]
    ensures replies == replies' && result == result'
  {
    assert |replies| == |replies'|;
    assert replies == replies';
  }
}
