/** The transcripts `generateFlowchart` sends to the model: role-tagged messages. */
module Prompt {

  datatype Role = System | User | Assistant

  /** `ChatMessage`: one turn of the conversation. */
  datatype Message = Message(role: Role, content: string)

  /** An ordered conversation, the model's context window. */
  type Transcript = seq<Message>

  /** `messages`: the system prompt, then the caller's history unchanged and in order,
      then the new user message. The history is a value, so the caller's copy cannot
      change. */
  function Initial(policy: string, history: Transcript, userMessage: string): (t: Transcript)
    ensures |t| == |history| + 2
    ensures t[0] == Message(System, policy)
    ensures forall k :: 0 <= k < |history| ==> t[k + 1] == history[k]
    ensures t[|t| - 1] == Message(User, userMessage)
  {
    [Message(System, policy)] + history + [Message(User, userMessage)]
  }

  /** The fixed text before the quoted error in a repair request. */
  const RepairPrefix: string := "There's a syntax error in the Mermaid code: \""

  /** The fixed text after the quoted error in a repair request. */
  const RepairSuffix: string := "\". Please fix the Mermaid diagram and provide the corrected version. Make sure the syntax is valid."

  /** The user message asking the model to repair its diagram, quoting the validator's error. */
  function RepairRequest(error: string): (text: string)
    ensures |text| == |RepairPrefix| + |error| + |RepairSuffix|
    ensures text[|RepairPrefix|..|RepairPrefix| + |error|] == error
  {
    RepairPrefix + error + RepairSuffix
  }

  /** The error a repair request quotes. */
  function QuotedError(text: string): string
    requires |RepairPrefix| + |RepairSuffix| <= |text|
  {
    text[|RepairPrefix|..|text| - |RepairSuffix|]
  }

  /** The error can be read back from the request: it is quoted verbatim, nothing lost. */
  lemma QuotedErrorRoundTrip(error: string)
    ensures QuotedError(RepairRequest(error)) == error
  {
  }

  /** `fixMessages`: the original transcript, the latest reply, and the repair request. */
  function RepairTranscript(messages: Transcript, latestReply: string, error: string): (t: Transcript)
    ensures |t| == |messages| + 2 && t[..|messages|] == messages
    ensures t[|messages|] == Message(Assistant, latestReply)
    ensures t[|messages| + 1].role == User
    ensures |RepairPrefix| + |RepairSuffix| <= |t[|messages| + 1].content|
    ensures QuotedError(t[|messages| + 1].content) == error
  {
    QuotedErrorRoundTrip(error);
    messages + [Message(Assistant, latestReply), Message(User, RepairRequest(error))]
  }
}
