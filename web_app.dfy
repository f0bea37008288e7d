/**
 * The turn handler of the Streamlit page in app.py: a submitted message is appended to
 * the session's message list, answered from the small-talk table or by the retrieval
 * chain, and the answer appended after it. The page is re-run once per submission, so a
 * session is a sequence of such turns over one `messages` list.
 *
 * `qa.invoke` is not modelled: its outcome is a parameter, either the value it returned
 * (a dict or some other object, with `str` of it) or an exception. Timestamps are left out.
 */
module WebApp {
  import opened Wrappers
  import opened Text
  import opened Replies

  /** What `str(d)` gives for a dict `d`: its entries between braces, so never blank. */
  type DictText = s: string | |s| >= 2 && s[0] == '{' && s[|s| - 1] == '}' witness "{}"

  /**
   * A value returned by `qa.invoke`: a dict, with its "answer" and "output_text" entries
   * (None when absent or falsy) and its `str`; or any other object, as its `str`.
   */
  datatype ChainResult =
    | Dict(answer: Option<string>, outputText: Option<string>, repr: DictText)
    | Plain(shown: string)

  /** The call either returned a value or raised. */
  datatype Invoked = Returned(result: ChainResult) | Failed

  datatype Role = User | Bot

  /** One entry of `st.session_state.messages`, without its timestamp. */
  datatype Message = Message(role: Role, content: string)

  /** Python truthiness of an optional string entry: present and non-empty. */
  predicate Truthy(v: Option<string>) {
    v.Some? && v.value != []
  }

  /**
   * `result.get("answer", "") or result.get("output_text", "") or str(result)` for a
   * dict, `str(result)` for anything else (before stripping).
   */
  function Extract(result: ChainResult): string {
    match result
    case Dict(answer, outputText, text) =>
      if Truthy(answer) then answer.value
      else if Truthy(outputText) then outputText.value
      else text
    case Plain(text) => text
  }

  /** The bot's reply to a submitted `input`. */
  function Respond(input: string, invoked: Invoked, pick: Pick): string {
    if Lower(input) in CasualResponses then CasualResponses[Lower(input)]
    else match invoked
      case Failed => Apology
      case Returned(result) =>
        var response := Strip(Extract(result));
        if response == [] then FallbackResponses[pick] else response
  }

  /** `if user_input:` — the widget gave a non-empty string. */
  predicate Submitted(input: Option<string>) {
    input.Some? && input.value != []
  }

  /** The entries one run of the handler appends: none, or the user's then the bot's. */
  function TurnEntries(input: Option<string>, invoked: Invoked, pick: Pick): seq<Message> {
    if Submitted(input)
    then [Message(User, input.value), Message(Bot, Respond(input.value, invoked, pick))]
    else []
  }

  /** Entries alternate user, bot, user, bot, … and come in whole turns. */
  predicate Alternating(messages: seq<Message>) {
    |messages| % 2 == 0
    && forall i :: 0 <= i < |messages| ==> messages[i].role == (if i % 2 == 0 then User else Bot)
  }

  // ----- properties of one reply -----

  /**
   * A small-talk hit is answered with exactly the table's reply, whatever the chain would
   * have done: the lookup key is the lowered input, which is not stripped.
   */
  lemma CannedReplySkipsChain(input: string, i1: Invoked, p1: Pick, i2: Invoked, p2: Pick)
    requires Lower(input) in CasualResponses
    ensures Respond(input, i1, p1) == Respond(input, i2, p2) == CasualResponses[Lower(input)]
  {
  }

  /**
   * The web lookup does not strip: an input with leading whitespace never hits the table
   * (no key starts with whitespace), although the command-line loop, which strips first,
   * looks up a different key for it.
   */
  lemma LookupIsNotStripped(input: string)
    requires |input| > 0 && IsSpace(input[0])
    ensures Lower(input) !in CasualResponses
    ensures Lower(input) != Lower(Strip(input))
  {
    var key := Lower(input);
    assert key[0] == input[0];
    if key in CasualResponses {
      CasualKeyStartsWithLetter(key);
      assert false;
    }
    var stripped := Strip(input);
    if stripped != [] {
      assert Lower(stripped)[0] == LowerChar(stripped[0]);
      assert !IsSpace(LowerChar(stripped[0]));
    }
  }

  /**
   * Nor does an input with trailing whitespace hit the table (no key ends in whitespace),
   * while the command-line loop strips it first: "hi " is small talk there but not here.
   */
  lemma TrailingSpaceMissesLookup(input: string)
    requires |input| > 0 && IsSpace(input[|input| - 1])
    ensures Lower(input) !in CasualResponses
    ensures Lower(input) != Lower(Strip(input))
  {
    var key := Lower(input);
    assert key[|key| - 1] == LowerChar(input[|input| - 1]) == input[|input| - 1];
    if key in CasualResponses {
      CasualKeyEndsWithLetter(key);
      assert false;
    }
    if |Strip(input)| == |input| {
      StripIsTrimmedSlice(input);
      assert false;
    }
  }

  /** A call that raises is answered with the apology, which is no fallback and no small-talk reply. */
  lemma FailureGivesApology(input: string, pick: Pick)
    requires Lower(input) !in CasualResponses
    ensures Respond(input, Failed, pick) == Apology
    ensures Apology !in FallbackResponses
    ensures forall k :: k in CasualResponses ==> CasualResponses[k] != Apology
  {
    ApologyIsDistinct();
  }

  /** The reply is never empty, whichever way the turn went. */
  lemma ReplyNeverEmpty(input: string, invoked: Invoked, pick: Pick)
    ensures Respond(input, invoked, pick) != []
  {
    if Lower(input) in CasualResponses {
      CasualRepliesAreShort(Lower(input));
    } else if invoked.Failed? {
      assert |Apology| == 39;
    } else {
      FallbacksAreNonEmpty(pick);
    }
  }

  /** `str(d)` of a dict starts with a brace, so stripping it never leaves it blank. */
  lemma DictTextIsNotBlank(text: DictText)
    ensures Strip(text) != [] && !AllSpace(text)
  {
    StripKeepsFirst(text);
    StripEmptyIffAllSpace(text);
  }

  /**
   * For a dict result the fallback is used exactly when the entry the `or` chain selects
   * is whitespace only: a truthy but blank "answer" shadows "output_text", and when
   * neither entry is truthy `str(result)` is used, which is never blank.
   */
  lemma DictFallbackIffBlankEntry(answer: Option<string>, outputText: Option<string>, text: DictText)
    ensures Strip(Extract(Dict(answer, outputText, text))) == []
      <==> ((Truthy(answer) && AllSpace(answer.value))
            || (!Truthy(answer) && Truthy(outputText) && AllSpace(outputText.value)))
  {
    var e := Extract(Dict(answer, outputText, text));
    StripEmptyIffAllSpace(e);
    if !Truthy(answer) && !Truthy(outputText) {
      DictTextIsNotBlank(text);
    }
  }

  /**
   * A chain answer reaches the log as returned apart from stripping: no follow-up note,
   * no sentence shaping and no length cap, unlike the command-line loop.
   */
  lemma ReplyIsNotShapedOrCapped(input: string, text: string, pick: Pick)
    requires Lower(input) !in CasualResponses
    requires |text| > 0 && !IsSpace(text[0]) && !IsSpace(text[|text| - 1])
    ensures Respond(input, Returned(Plain(text)), pick) == text
  {
    StripUnchangedWithoutOuterSpace(text);
  }

  // ----- the message log over a session -----

  /** Appending a user entry and then a bot entry keeps the log alternating. */
  lemma AlternatingGrowsByTurns(before: seq<Message>, added: seq<Message>)
    requires Alternating(before)
    requires added == [] || (|added| == 2 && added[0].role == User && added[1].role == Bot)
    ensures Alternating(before + added)
  {
    var log := before + added;
    forall i | 0 <= i < |log| ensures log[i].role == (if i % 2 == 0 then User else Bot) {
      if i < |before| {
        assert log[i] == before[i];
      } else {
        assert log[i] == added[i - |before|];
      }
    }
  }

  /** One run of the page: what the chat input gave, what `qa.invoke` did, the fallback pick. */
  datatype Turn = Turn(input: Option<string>, invoked: Invoked, pick: Pick)

  /** The message list after the given runs, starting from the empty list. */
  function Log(turns: seq<Turn>): seq<Message> {
    if turns == [] then []
    else
      var last := turns[|turns| - 1];
      Log(turns[..|turns| - 1]) + TurnEntries(last.input, last.invoked, last.pick)
  }

  /** The submitted inputs of the given runs, in order. */
  function SubmittedInputs(turns: seq<Turn>): seq<string> {
    if turns == [] then []
    else
      var last := turns[|turns| - 1];
      SubmittedInputs(turns[..|turns| - 1]) + (if Submitted(last.input) then [last.input.value] else [])
  }

  /**
   * After any sequence of runs the log holds two entries per submission, alternating user
   * and bot, and the user entries are the raw submitted inputs in order.
   */
  lemma {:induction false} LogHoldsTurnsInOrder(turns: seq<Turn>)
    ensures |Log(turns)| == 2 * |SubmittedInputs(turns)|
    ensures Alternating(Log(turns))
    ensures forall j :: 0 <= j < |SubmittedInputs(turns)| ==>
      Log(turns)[2 * j] == Message(User, SubmittedInputs(turns)[j])
  {
    if turns != [] {
      var init := turns[..|turns| - 1];
      var last := turns[|turns| - 1];
      LogHoldsTurnsInOrder(init);
      var before := Log(init);
      var added := TurnEntries(last.input, last.invoked, last.pick);
      var log := before + added;
      assert log == Log(turns);
      AlternatingGrowsByTurns(before, added);
      forall j | 0 <= j < |SubmittedInputs(turns)|
        ensures log[2 * j] == Message(User, SubmittedInputs(turns)[j])
      {
        if j < |SubmittedInputs(init)| {
          assert log[2 * j] == before[2 * j];
        }
      }
    }
  }

  /** The page's session state: the list of chat messages kept across runs. */
  class ChatSession {
    var messages: seq<Message>

    ghost predicate Valid()
      reads this
    {
      Alternating(messages)
    }

    /** `st.session_state.messages = []` on the first run. */
    constructor ()
      ensures Valid() && messages == []
    {
      messages := [];
    }

    /**
     * The handler under `if user_input:`: appends the user's entry with the raw input,
     * then the bot's entry with the reply, whichever path produced it; earlier entries
     * are kept. Without a submission nothing changes.
     */
    method HandleTurn(userInput: Option<string>, invoked: Invoked, pick: Pick)
      requires Valid()
      modifies this
      ensures Valid()
      ensures messages == old(messages) + TurnEntries(userInput, invoked, pick)
      ensures !Submitted(userInput) ==> messages == old(messages)
      ensures Submitted(userInput) ==> (|messages| == |old(messages)| + 2
                                         && messages[|messages| - 2] == Message(User, userInput.value)
                                         && messages[|messages| - 1].role == Bot
                                         && messages[|messages| - 1].content != [])
    {
      if userInput.Some? && userInput.value != [] {
        var input := userInput.value;
        messages := messages + [Message(User, input)];
        var response := Reply(input, invoked, pick);
        messages := messages + [Message(Bot, response)];
        assert messages == old(messages) + [Message(User, input), Message(Bot, response)];
        AlternatingGrowsByTurns(old(messages), [Message(User, input), Message(Bot, response)]);
      }
    }
  }

  /**
   * The `try` block's reply to a submitted input, reassigning `response` as the handler
   * does; an exception from the chain call becomes the apology.
   */
  method Reply(input: string, invoked: Invoked, pick: Pick) returns (response: string)
    ensures response == Respond(input, invoked, pick)
    ensures response != []
  {
    if Lower(input) in CasualResponses {
      response := CasualResponses[Lower(input)];
    } else {
      match invoked
      case Failed =>
        response := Apology;
      case Returned(result) =>
        response := Extract(result);
        response := Strip(response);
        if response == [] {
          response := FallbackResponses[pick];
        }
    }
    ReplyNeverEmpty(input, invoked, pick);
  }
}
