/**
 * The fixed reply tables shared by the command-line loop and the web handler:
 * the small-talk table, the fallback pool and the web handler's apology.
 */
module Replies {
  import opened Text

  /** The small-talk table, keys exactly as written in the source (two of them hold capitals). */
  const CasualResponses: map<string, string> := map[
    "hi" := "Hi there! I'm Atom AI, your friendly assistant at Atomcamp. How can I help you today?",
    "hello" := "Hello! I'm Atom AI. Ask me anything about courses, bootcamps, or webinars!",
    "hey" := "Hey! I'm Atom AI, your friendly assistant. What would you like to know today?",
    "thank you" := "You're welcome! \U{1F60A} Happy to help.",
    "thanks" := "Anytime! Let me know if you have more questions.",
    "thanku" := "Anytime! Let me know if you have more questions.",
    "Thanks" := "Anytime! Let me know if you have more questions.",
    "Thanku so much" := "Anytime! Let me know if you have more questions."
  ]

  /** The generic replies one of which replaces an empty answer. */
  const FallbackResponses: seq<string> := [
    "Hmm, I'm not entirely sure about that. Can you rephrase?",
    "Good question! Let me think\U{2026} \U{1F914}",
    "I'm still learning about that. Maybe try asking differently?"
  ]

  /** `random.choice(fallback_responses)`, supplied by the caller as the index it picks. */
  type Pick = i: nat | i < |FallbackResponses|

  /** The web handler's reply when anything inside its `try` raises. */
  const Apology: string := "\U{26A0}\U{FE0F} Sorry, I'm having trouble right now."

  /** Every fallback reply is non-empty and short, so substituting one never leaves an empty answer. */
  lemma FallbacksAreNonEmpty(p: Pick)
    ensures 0 < |FallbackResponses[p]| <= 60
  {
    assert p == 0 || p == 1 || p == 2;
  }

  /**
   * The apology is none of the fallback or small-talk replies (it differs from each in
   * length), so an empty answer and a failed call can be told apart.
   */
  lemma ApologyIsDistinct()
    ensures Apology !in FallbackResponses
    ensures forall k :: k in CasualResponses ==> CasualResponses[k] != Apology
  {
    assert |Apology| == 39;
    forall k | k in CasualResponses ensures CasualResponses[k] != Apology {
      assert CasualResponses.Keys == {"hi", "hello", "hey", "thank you", "thanks", "thanku", "Thanks", "Thanku so much"};
      assert |CasualResponses[k]| in {85, 74, 77, 32, 48};
    }
    assert forall i :: 0 <= i < |FallbackResponses| ==> |FallbackResponses[i]| in {56, 30, 60};
  }

  /** The table's keys, one by one. */
  lemma CasualKeys(k: string)
    ensures k in CasualResponses <==> k in ["hi", "hello", "hey", "thank you", "thanks", "thanku", "Thanks", "Thanku so much"]
  {
    assert CasualResponses.Keys == {"hi", "hello", "hey", "thank you", "thanks", "thanku", "Thanks", "Thanku so much"};
  }

  /** Every key starts with a letter. */
  lemma CasualKeyStartsWithLetter(k: string)
    requires k in CasualResponses
    ensures |k| > 0 && ('a' <= k[0] <= 'z' || 'A' <= k[0] <= 'Z')
  {
    CasualKeys(k);
  }

  /** Every key ends in a lower-case letter, so none ends in whitespace. */
  lemma CasualKeyEndsWithLetter(k: string)
    requires k in CasualResponses
    ensures |k| > 0 && 'a' <= k[|k| - 1] <= 'z'
  {
    CasualKeys(k);
  }

  /** Every small-talk reply is non-empty and at most 85 characters long. */
  lemma CasualRepliesAreShort(k: string)
    requires k in CasualResponses
    ensures 0 < |CasualResponses[k]| <= 85
  {
    assert CasualResponses.Keys == {"hi", "hello", "hey", "thank you", "thanks", "thanku", "Thanks", "Thanku so much"};
  }

  /**
   * A key holding an upper-case letter can never equal a lowered query: the entries
   * "Thanks" and "Thanku so much" are unreachable wherever the lookup key is lowered.
   */
  lemma CapitalisedKeysUnreachable(s: string)
    ensures Lower(s) != "Thanks" && Lower(s) != "Thanku so much"
    ensures "Thanks" in CasualResponses && "Thanku so much" in CasualResponses
  {
    LowerHasNoUpper(s);
    if |Lower(s)| > 0 {
      assert !IsUpper(Lower(s)[0]);
      assert IsUpper("Thanks"[0]) && IsUpper("Thanku so much"[0]);
    }
  }
}
