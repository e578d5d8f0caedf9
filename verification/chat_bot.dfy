/** The chat widget: a fixed keyword table answering the learner's message,
    and the rule by which a send extends the conversation. */
module ChatBot {
  import opened Text

  const RefundReply := "You can get a refund based on your test performance! Score 90% or higher on the final test to receive a 90% refund of your course fee."
  const TestReply := "Each course has a final test that you can take once you feel ready. Your performance on this test determines your refund amount - the higher your score, the higher your refund!"
  const StartReply := "You can start your enrolled courses immediately! Just navigate to 'My Courses' and click on the course you want to begin. Each course includes detailed materials and a final test."
  const PriceReply := "Our courses range from ₹5,000 to ₹10,000. Remember, you can earn a refund based on your performance in the final test!"
  const FallbackReply := "I'm here to help with any questions about courses, tests, refunds, or general information. Could you please be more specific about what you'd like to know?"
  const ErrorReply := "I apologize, but I encountered an error. Please try again."
  const Greeting := "Hello! I'm here to help you with any questions about your courses or general queries. How can I assist you today?"

  predicate AsksRefund(m: string) { Includes(m, "refund") }
  predicate AsksTest(m: string) { Includes(m, "test") || Includes(m, "exam") }
  predicate AsksStart(m: string) { Includes(m, "course") && (Includes(m, "start") || Includes(m, "begin")) }
  predicate AsksPrice(m: string) { Includes(m, "price") || Includes(m, "cost") }

  /** `generateResponse`: the first row of the table whose keywords the
      lower-cased message contains. */
  function Reply(message: string): (r: string)
    ensures AsksRefund(Lower(message)) ==> r == RefundReply
    ensures r == TestReply <==> !AsksRefund(Lower(message)) && AsksTest(Lower(message))
    ensures r == StartReply <==>
              !AsksRefund(Lower(message)) && !AsksTest(Lower(message)) && AsksStart(Lower(message))
    ensures r == PriceReply <==>
              !AsksRefund(Lower(message)) && !AsksTest(Lower(message)) && !AsksStart(Lower(message))
              && AsksPrice(Lower(message))
    ensures r == FallbackReply <==>
              !AsksRefund(Lower(message)) && !AsksTest(Lower(message)) && !AsksStart(Lower(message))
              && !AsksPrice(Lower(message))
  {
    var m := Lower(message);
    if AsksRefund(m) then RefundReply
    else if AsksTest(m) then TestReply
    else if AsksStart(m) then StartReply
    else if AsksPrice(m) then PriceReply
    else FallbackReply
  }

  /** The reply depends only on the lower-cased message. */
  lemma ReplyIgnoresCase(message: string)
    ensures Reply(message) == Reply(Lower(message))
  {
    LowerIdempotent(message);
  }

  /** "refund" wins over every other keyword, wherever it stands. */
  lemma RefundWins(before: string, after: string)
    ensures Reply(before + "refund" + after) == RefundReply
  {
    var m := before + "refund" + after;
    assert Lower(m)[|before|..|before| + 6] == "refund";
    assert OccursAt(Lower(m), "refund", |before|);
    IncludesIffOccurs(Lower(m), "refund");
  }

  datatype Role = User | Assistant
  datatype Message = Message(role: Role, content: string)

  const InitialLog := [Message(Assistant, Greeting)]

  /** The conversation and the input box after a send. */
  datatype Chat = Chat(log: seq<Message>, input: string)

  /** `handleSendMessage`; `replyFails` stands for a rejected reply promise. */
  function Send(chat: Chat, replyFails: bool): (c: Chat)
    // white space alone is ignored and the input box keeps it
    ensures AllSpace(chat.input) ==> c == chat
    // otherwise the trimmed text and one answer are appended, the box cleared
    ensures !AllSpace(chat.input) ==>
              && c.input == ""
              && |c.log| == |chat.log| + 2
              && c.log[..|chat.log|] == chat.log
              && c.log[|chat.log|] == Message(User, Trim(chat.input))
              && c.log[|chat.log| + 1].role == Assistant
              && c.log[|chat.log| + 1].content == (if replyFails then ErrorReply else Reply(Trim(chat.input)))
  {
    var text := Trim(chat.input);
    if text == "" then chat
    else
      var answer := if replyFails then ErrorReply else Reply(text);
      Chat(chat.log + [Message(User, text), Message(Assistant, answer)], "")
  }

  /** A log made of one assistant opener followed by user/assistant pairs. */
  predicate Alternating(log: seq<Message>)
    decreases |log|
  {
    if |log| <= 1 then |log| == 1 && log[0].role == Assistant
    else |log| >= 3 && log[|log| - 2].role == User && log[|log| - 1].role == Assistant
         && Alternating(log[..|log| - 2])
  }

  /** Every send that is not ignored adds one user message answered by one
      assistant message, so the log keeps strict alternation from the greeting. */
  lemma SendKeepsAlternation(chat: Chat, replyFails: bool)
    requires Alternating(chat.log)
    ensures Alternating(Send(chat, replyFails).log)
  {
    var c := Send(chat, replyFails);
    var n := |chat.log|;
    if !AllSpace(chat.input) {
      assert c.log[..n] == chat.log;
      assert c.log[n].role == User && c.log[n + 1].role == Assistant;
    }
  }

  lemma InitialLogAlternates()
    ensures Alternating(InitialLog)
  {
  }
}
