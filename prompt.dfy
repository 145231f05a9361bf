/**
 The prompt `chat` builds for the language model: a fixed template around the
 user's message and the text returned by the knowledge-base search.
 */
module Prompt {

  const PromptHead :=
    "\nYou are a helpful company assistant with access to the company knowledge base.\n"
    + "\nUser Question: "
  const PromptMiddle := "\n\nKnowledge Base Search Results:\n"
  const PromptTail :=
    "\n\nInstructions:\n"
    + "1. Use the search results to answer the user's question accurately\n"
    + "2. If the search results contain relevant information, base your answer on them\n"
    + "3. If no relevant information is found, say so politely\n"
    + "4. Always be helpful and conversational\n"
    + "5. Cite which documents you're referencing when possible\n"
    + "\nAnswer:"

  /** The prompt for one user message and one block of search results. Both
      are embedded verbatim: the message right after the head of the
      template, the search text right before its tail. */
  function ChatPrompt(userMessage: string, searchResults: string): (p: string)
    ensures |p| == |PromptHead| + |userMessage| + |PromptMiddle| + |searchResults| + |PromptTail|
    ensures p[.. |PromptHead|] == PromptHead
    ensures p[|PromptHead| .. |PromptHead| + |userMessage|] == userMessage
    ensures p[|PromptHead| + |userMessage| .. |PromptHead| + |userMessage| + |PromptMiddle|] == PromptMiddle
    ensures p[|p| - |PromptTail| - |searchResults| .. |p| - |PromptTail|] == searchResults
    ensures p[|p| - |PromptTail| ..] == PromptTail
  {
    PromptHead + userMessage + PromptMiddle + searchResults + PromptTail
  }

  /** Two prompts for messages of the same length are equal only when the
      messages and the search texts are: nothing of either input is lost. */
  lemma ChatPromptInjective(m1: string, r1: string, m2: string, r2: string)
    requires |m1| == |m2|
    requires ChatPrompt(m1, r1) == ChatPrompt(m2, r2)
    ensures m1 == m2 && r1 == r2
  {
    var p := ChatPrompt(m1, r1);
    assert m1 == p[|PromptHead| .. |PromptHead| + |m1|];
    assert r1 == p[|p| - |PromptTail| - |r1| .. |p| - |PromptTail|];
  }
}
