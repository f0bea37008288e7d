/**
 * The command-line chat loop of atomcamp_bot.py: each line read is stripped, checked
 * for `exit`/`quit`, looked up in the small-talk table, and otherwise sent to the
 * retrieval chain, whose answer is post-processed in four steps (fallback, follow-up
 * note, sentence shaping, hard truncation) before it is printed.
 *
 * The chain and its conversation memory are not modelled: the k-th call of `qa.invoke`
 * is given as `chain(k)`, holding the "answer" entry of the returned dict, the memory's
 * message contents right after the call, and the index `random.choice` would pick.
 */
module CliBot {
  import opened Wrappers
  import opened Text
  import opened Replies

  /** Outcome of one `qa.invoke` call: the dict it returned, or an exception. */
  datatype ChainCall =
    | Answered(answer: Option<string>, history: seq<string>, pick: Pick)
    | Raised

  const LongAnswer: nat := 300
  const MaxSentences: nat := 5
  const MaxLength: nat := 500
  const Ellipsis: string := "\U{2026}"
  const Goodbye: string := "Bot: Goodbye! \U{1F44B}"

  function Min(a: nat, b: nat): nat {
    if a <= b then a else b
  }

  /** The line ends the loop: its stripped, lowered form is `exit` or `quit`. */
  predicate IsExit(query: string) {
    Lower(query) in ["exit", "quit"]
  }

  /** Step 1: an empty answer is replaced by the picked fallback reply. */
  function WithFallback(answer: string, pick: Pick): string {
    if answer == [] then FallbackResponses[pick] else answer
  }

  function FollowUpNote(previous: string): string {
    "(Regarding your previous question: '" + previous + "') "
  }

  /**
   * Step 2: when memory holds more than one message and the second-to-last one differs
   * from the query ignoring case, the answer is prefixed with a note quoting it.
   */
  function FollowUp(answer: string, query: string, history: seq<string>): string {
    if |history| > 1 && Lower(history[|history| - 2]) != Lower(query)
    then FollowUpNote(history[|history| - 2]) + answer
    else answer
  }

  /**
   * Step 3: an answer longer than 300 characters is split on ". ", at most the first
   * five pieces are rejoined with ".\n", and an ellipsis marks dropped pieces.
   */
  function Shape(answer: string): string {
    if |answer| <= LongAnswer then answer
    else
      var sentences := Split(answer);
      Join(sentences[..Min(|sentences|, MaxSentences)], ".\n")
        + (if |sentences| > MaxSentences then Ellipsis else "")
  }

  /** Step 4: an answer longer than 500 characters is cut to 500 and an ellipsis added. */
  function Truncate(answer: string): (r: string)
    ensures Min(|answer|, MaxLength) <= |r| <= MaxLength + 1
    ensures r[..Min(|answer|, MaxLength)] == answer[..Min(|answer|, MaxLength)]
    ensures |answer| <= MaxLength ==> r == answer
    ensures |answer| > MaxLength ==> |r| == MaxLength + 1 && r[MaxLength] == Ellipsis[0]
  {
    if |answer| > MaxLength then answer[..MaxLength] + Ellipsis else answer
  }

  /** The answer printed for a query that went to the chain. */
  function Finish(answer: Option<string>, query: string, history: seq<string>, pick: Pick): string {
    Truncate(Shape(FollowUp(WithFallback(Strip(answer.GetOr("")), pick), query, history)))
  }

  // ----- properties of the post-processing steps -----

  /** After step 1 the answer is never empty: it is the stripped chain answer or a fallback. */
  lemma FallbackNeverEmpty(answer: string, pick: Pick)
    ensures WithFallback(Strip(answer), pick) != []
    ensures Strip(answer) != [] ==> WithFallback(Strip(answer), pick) == Strip(answer)
    ensures AllSpace(answer) ==> WithFallback(Strip(answer), pick) in FallbackResponses
  {
    StripEmptyIffAllSpace(answer);
    FallbacksAreNonEmpty(pick);
  }

  /**
   * Step 2 only ever prepends the note: the answer is unchanged exactly when memory holds
   * at most one message or the second-to-last one equals the query ignoring case; what it
   * prepends is the note quoting that second-to-last message word for word.
   */
  lemma FollowUpOnlyPrefixes(answer: string, query: string, history: seq<string>)
    ensures var r := FollowUp(answer, query, history);
      |r| >= |answer| && r[|r| - |answer|..] == answer
    ensures FollowUp(answer, query, history) != answer
      <==> |history| > 1 && Lower(history[|history| - 2]) != Lower(query)
    ensures FollowUp(answer, query, history) != answer
      ==> FollowUp(answer, query, history) == FollowUpNote(history[|history| - 2]) + answer
  {
    var r := FollowUp(answer, query, history);
    if |history| > 1 && Lower(history[|history| - 2]) != Lower(query) {
      assert |r| > |answer|;
    }
  }

  /** An answer of at most five pieces keeps its length: each ". " becomes ".\n" in place. */
  lemma ShapeFewSentences(answer: string)
    requires |Split(answer)| <= MaxSentences
    ensures Shape(answer) == if |answer| > LongAnswer then Newlined(answer) else answer
    ensures |Shape(answer)| == |answer|
  {
    var sentences := Split(answer);
    assert sentences[..Min(|sentences|, MaxSentences)] == sentences;
    JoinSplitNewline(answer);
  }

  /**
   * A long answer of more than five pieces keeps exactly the text before its fifth ". ",
   * with each earlier ". " turned into ".\n", followed by one ellipsis.
   */
  lemma ShapeManySentences(answer: string)
    requires |answer| > LongAnswer && |Split(answer)| > MaxSentences
    ensures exists n :: (0 <= n && n + 2 <= |answer| && BreakAt(answer, n)
                         && |Split(answer[..n])| == MaxSentences
                         && Shape(answer) == Newlined(answer[..n]) + Ellipsis)
  {
    var sentences := Split(answer);
    var kept := sentences[..MaxSentences];
    var p := Join(kept, ". ");
    JoinSplitPrefix(answer, MaxSentences);
    SplitPiecesHaveNoBreak(answer);
    SplitJoin(kept);
    JoinSplitNewline(p);
    assert answer[..|p|] == p;
  }

  /** Shaping never lengthens an answer, and leaves one of at most 300 characters untouched. */
  lemma ShapeNeverLonger(answer: string)
    ensures |Shape(answer)| <= |answer|
    ensures |answer| <= LongAnswer ==> Shape(answer) == answer
  {
    if |Split(answer)| <= MaxSentences {
      ShapeFewSentences(answer);
    } else if |answer| > LongAnswer {
      ShapeManySentences(answer);
    }
  }

  /** A shaped long answer holds no ". " any more. */
  lemma ShapedHasNoBreak(answer: string)
    requires |answer| > LongAnswer
    ensures NoBreak(Shape(answer))
  {
    var sentences := Split(answer);
    var kept := sentences[..Min(|sentences|, MaxSentences)];
    SplitPiecesHaveNoBreak(answer);
    assert forall k :: 0 <= k < |kept| ==> kept[k] == sentences[k];
    JoinNewlineHasNoBreak(kept);
    if |sentences| > MaxSentences {
      AppendKeepsNoBreak(Join(kept, ".\n"), Ellipsis[0]);
      assert Ellipsis == [Ellipsis[0]];
    } else {
      assert Shape(answer) == Join(kept, ".\n") + "";
      assert Join(kept, ".\n") + "" == Join(kept, ".\n");
    }
  }

  /** Shaping a shaped answer changes nothing: no second split, no second ellipsis. */
  lemma ShapeIdempotent(answer: string)
    ensures Shape(Shape(answer)) == Shape(answer)
  {
    if |answer| > LongAnswer {
      var r := Shape(answer);
      ShapedHasNoBreak(answer);
      SplitWithoutBreak(r);
      ShapeFewSentences(r);
      if |r| > LongAnswer {
        forall i | 0 <= i < |r| ensures Newlined(r)[i] == r[i] {
          assert !BreakAt(r, i - 1);
        }
      }
    }
  }

  /** Truncating a truncated answer changes nothing. */
  lemma TruncateIdempotent(answer: string)
    ensures Truncate(Truncate(answer)) == Truncate(answer)
  {
    if |answer| > MaxLength {
      var r := Truncate(answer);
      assert r[..MaxLength] == answer[..MaxLength];
    }
  }

  /** Truncating a string without ". " cannot create one. */
  lemma TruncateKeepsNoBreak(answer: string)
    requires NoBreak(answer)
    ensures NoBreak(Truncate(answer))
  {
    if |answer| > MaxLength {
      var head := answer[..MaxLength];
      forall i | 0 <= i < |head| - 1 ensures !BreakAt(head, i) {
        assert !BreakAt(answer, i);
      }
      AppendKeepsNoBreak(head, Ellipsis[0]);
      assert Ellipsis == [Ellipsis[0]];
    }
  }

  /**
   * Every printed chain answer is non-empty and at most 501 characters long, and one
   * that went through shaping holds no ". " any more.
   */
  lemma FinishBounds(answer: Option<string>, query: string, history: seq<string>, pick: Pick)
    ensures 0 < |Finish(answer, query, history, pick)| <= MaxLength + 1
    ensures var noted := FollowUp(WithFallback(Strip(answer.GetOr("")), pick), query, history);
      |noted| > LongAnswer ==> NoBreak(Finish(answer, query, history, pick))
  {
    var stripped := Strip(answer.GetOr(""));
    FallbackNeverEmpty(answer.GetOr(""), pick);
    var filled := WithFallback(stripped, pick);
    FollowUpOnlyPrefixes(filled, query, history);
    var noted := FollowUp(filled, query, history);
    var shaped := Shape(noted);
    if |Split(noted)| <= MaxSentences {
      ShapeFewSentences(noted);
    } else if |noted| > LongAnswer {
      ShapeManySentences(noted);
    }
    assert |shaped| > 0;
    if |noted| > LongAnswer {
      ShapedHasNoBreak(noted);
      TruncateKeepsNoBreak(shaped);
    }
  }

  /** An answer over 500 characters before shaping always ends in an ellipsis once capped. */
  lemma CappedAnswersEndInEllipsis(answer: string)
    requires |answer| > MaxLength
    ensures var r := Truncate(Shape(answer)); |r| > 0 && r[|r| - 1] == Ellipsis[0]
  {
    if |Split(answer)| <= MaxSentences {
      ShapeFewSentences(answer);
    } else {
      ShapeManySentences(answer);
    }
  }

  // ----- one answered query, step by step -----

  /** The post-processing of one chain answer, reassigning `answer` step by step. */
  method AnswerQuery(query: string, raw: Option<string>, history: seq<string>, pick: Pick)
    returns (answer: string)
    ensures answer == Finish(raw, query, history, pick)
  {
    answer := Strip(raw.GetOr(""));
    if answer == [] {
      answer := FallbackResponses[pick];
    }
    ghost var filled := answer;
    if |history| > 0 {
      if |history| > 1 {
        var lastUserMsg := history[|history| - 2];
        if Lower(lastUserMsg) != Lower(query) {
          answer := FollowUpNote(lastUserMsg) + answer;
        }
      }
    }
    assert answer == FollowUp(filled, query, history);
    ghost var noted := answer;
    if |answer| > LongAnswer {
      var sentences := Split(answer);
      answer := Join(sentences[..Min(|sentences|, MaxSentences)], ".\n")
        + (if |sentences| > MaxSentences then Ellipsis else "");
    }
    assert answer == Shape(noted);
    if |answer| > MaxLength {
      answer := answer[..MaxLength] + Ellipsis;
    }
  }

  // ----- the loop -----

  /** How the loop stops: `exit`/`quit`, input running out, or an exception from the chain. */
  datatype Ending = Quit | EndOfInput | ChainFailed

  /** What a run of the loop prints, how many chain calls it made, and how it stopped. */
  datatype Run = Run(said: seq<string>, calls: nat, ending: Ending)

  function Prepend(said: seq<string>, run: Run): Run {
    run.(said := said + run.said)
  }

  /** The loop over `lines`, with `k` chain calls already made. */
  function Converse(lines: seq<string>, chain: nat -> ChainCall, k: nat): Run
    decreases |lines|
  {
    if |lines| == 0 then Run([], k, EndOfInput)
    else
      var query := Strip(lines[0]);
      if IsExit(query) then Run([Goodbye], k, Quit)
      else if Lower(query) in CasualResponses then
        Prepend(["Bot: " + CasualResponses[Lower(query)]], Converse(lines[1..], chain, k))
      else
        match chain(k)
        case Raised => Run([], k + 1, ChainFailed)
        case Answered(answer, history, pick) =>
          Prepend(["Bot: " + Finish(answer, query, history, pick)], Converse(lines[1..], chain, k + 1))
  }

  /** Lines that are all small talk or exit commands never reach the chain. */
  predicate AllCannedOrExit(lines: seq<string>) {
    forall j :: 0 <= j < |lines| ==>
      IsExit(Strip(lines[j])) || Lower(Strip(lines[j])) in CasualResponses
  }

  /**
   * A session of small talk makes no chain call: what it prints does not depend on the
   * chain at all, and the call count does not move.
   */
  lemma {:induction false} CannedSessionSkipsChain(lines: seq<string>, c1: nat -> ChainCall, c2: nat -> ChainCall, k: nat)
    requires AllCannedOrExit(lines)
    ensures Converse(lines, c1, k) == Converse(lines, c2, k)
    ensures Converse(lines, c1, k).calls == k
    decreases |lines|
  {
    if |lines| > 0 && !IsExit(Strip(lines[0])) {
      assert Lower(Strip(lines[0])) in CasualResponses;
      ConverseCanned(lines, c1, k);
      ConverseCanned(lines, c2, k);
      assert AllCannedOrExit(lines[1..]) by {
        forall j | 0 <= j < |lines[1..]|
          ensures IsExit(Strip(lines[1..][j])) || Lower(Strip(lines[1..][j])) in CasualResponses
        {
          assert lines[1..][j] == lines[j + 1];
        }
      }
      CannedSessionSkipsChain(lines[1..], c1, c2, k);
    } else if |lines| > 0 {
      ConverseExit(lines, c1, k);
      ConverseExit(lines, c2, k);
    }
  }

  /**
   * Once the loop has stopped on `exit`/`quit` or on an exception from the chain, no
   * later line is read: more input after that point changes nothing about the run.
   */
  lemma {:induction false} StoppedRunIgnoresLaterLines(lines: seq<string>, more: seq<string>, chain: nat -> ChainCall, k: nat)
    requires Converse(lines, chain, k).ending != EndOfInput
    ensures Converse(lines + more, chain, k) == Converse(lines, chain, k)
    decreases |lines|
  {
    assert |lines| > 0;
    var all := lines + more;
    assert all[0] == lines[0] && all[1..] == lines[1..] + more;
    var query := Strip(lines[0]);
    if IsExit(query) {
      ConverseExit(lines, chain, k);
      ConverseExit(all, chain, k);
    } else if Lower(query) in CasualResponses {
      ConverseCanned(lines, chain, k);
      assert Converse(lines[1..], chain, k).ending != EndOfInput;
      StoppedRunIgnoresLaterLines(lines[1..], more, chain, k);
      assert !GoesToChain(lines[0]);
      SameFirstLineSameRun(lines, all, chain, k, k);
    } else {
      assert GoesToChain(lines[0]);
      if chain(k).Raised? {
        ConverseRaised(lines, chain, k);
        ConverseRaised(all, chain, k);
      } else {
        ConverseAnswered(lines, chain, k);
        assert Converse(lines[1..], chain, k + 1).ending != EndOfInput;
        StoppedRunIgnoresLaterLines(lines[1..], more, chain, k + 1);
        SameFirstLineSameRun(lines, all, chain, k, k + 1);
      }
    }
  }

  /** Two inputs with the same first line, whose rests run alike, run alike. */
  lemma SameFirstLineSameRun(lines: seq<string>, all: seq<string>, chain: nat -> ChainCall, k: nat, next: nat)
    requires |lines| > 0 && |all| > 0 && all[0] == lines[0] && !IsExit(Strip(lines[0]))
    requires GoesToChain(lines[0]) ==> next == k + 1
    requires !GoesToChain(lines[0]) ==> next == k
    requires Converse(all[1..], chain, next) == Converse(lines[1..], chain, next)
    ensures Converse(all, chain, k) == Converse(lines, chain, k)
  {
    if GoesToChain(lines[0]) {
      if chain(k).Raised? {
        ConverseRaised(lines, chain, k);
        ConverseRaised(all, chain, k);
      } else {
        ConverseAnswered(lines, chain, k);
        ConverseAnswered(all, chain, k);
      }
    } else {
      ConverseCanned(lines, chain, k);
      ConverseCanned(all, chain, k);
    }
  }

  /** The line goes to the chain: it is neither an exit command nor small talk. */
  predicate GoesToChain(line: string) {
    !IsExit(Strip(line)) && Lower(Strip(line)) !in CasualResponses
  }

  /** How many of `lines` would go to the chain. */
  function ChainBound(lines: seq<string>): nat
    decreases |lines|
  {
    if |lines| == 0 then 0
    else (if GoesToChain(lines[0]) then 1 else 0) + ChainBound(lines[1..])
  }

  /**
   * The loop prints at most one line per line read and calls the chain at most once per
   * line that goes to it. When input runs out, every line got exactly one reply and every
   * chain-bound line exactly one call; a run that quits ends with the goodbye line.
   */
  lemma {:induction false} RunCountsLines(lines: seq<string>, chain: nat -> ChainCall, k: nat)
    ensures var run := Converse(lines, chain, k);
      k <= run.calls <= k + ChainBound(lines) && |run.said| <= |lines|
    ensures var run := Converse(lines, chain, k);
      run.ending == EndOfInput ==> |run.said| == |lines| && run.calls == k + ChainBound(lines)
    ensures var run := Converse(lines, chain, k);
      run.ending == Quit ==> |run.said| > 0 && run.said[|run.said| - 1] == Goodbye
    decreases |lines|
  {
    if |lines| > 0 {
      var query := Strip(lines[0]);
      if IsExit(query) {
        ConverseExit(lines, chain, k);
      } else if Lower(query) in CasualResponses {
        ConverseCanned(lines, chain, k);
        RunCountsLines(lines[1..], chain, k);
      } else if chain(k).Raised? {
        ConverseRaised(lines, chain, k);
      } else {
        ConverseAnswered(lines, chain, k);
        RunCountsLines(lines[1..], chain, k + 1);
      }
    }
  }

  /** A line printed by the loop: "Bot: " and a non-empty reply of at most 501 characters. */
  predicate IsBotLine(line: string) {
    5 < |line| <= 5 + MaxLength + 1 && line[..5] == "Bot: "
  }

  lemma BotLineOf(reply: string)
    requires 0 < |reply| <= MaxLength + 1
    ensures IsBotLine("Bot: " + reply)
  {
    assert ("Bot: " + reply)[..5] == "Bot: ";
  }

  /** Every line the loop prints is "Bot: " followed by a non-empty reply of at most 501 characters. */
  lemma {:induction false} PrintedLinesAreBounded(lines: seq<string>, chain: nat -> ChainCall, k: nat)
    ensures forall j :: 0 <= j < |Converse(lines, chain, k).said| ==> IsBotLine(Converse(lines, chain, k).said[j])
    decreases |lines|
  {
    if |lines| > 0 {
      var query := Strip(lines[0]);
      if IsExit(query) {
        ConverseExit(lines, chain, k);
        assert Goodbye[..5] == "Bot: ";
      } else if Lower(query) in CasualResponses {
        var reply := CasualResponses[Lower(query)];
        ConverseCanned(lines, chain, k);
        CasualRepliesAreShort(Lower(query));
        BotLineOf(reply);
        PrintedLinesAreBounded(lines[1..], chain, k);
      } else if chain(k).Raised? {
        ConverseRaised(lines, chain, k);
      } else {
        var call := chain(k);
        ConverseAnswered(lines, chain, k);
        FinishBounds(call.answer, query, call.history, call.pick);
        BotLineOf(Finish(call.answer, query, call.history, call.pick));
        PrintedLinesAreBounded(lines[1..], chain, k + 1);
      }
    }
  }

  /**
   * The `while True` loop: reads `lines` in order, stops at the first `exit`/`quit`,
   * at an exception from the chain, or when input runs out.
   */
  method ChatLoop(lines: seq<string>, chain: nat -> ChainCall)
    returns (said: seq<string>, calls: nat, ending: Ending)
    ensures Run(said, calls, ending) == Converse(lines, chain, 0)
  {
    said, calls := [], 0;
    var i := 0;
    ghost var whole := Converse(lines, chain, 0);
    assert lines[0..] == lines;
    while i < |lines|
      invariant 0 <= i <= |lines|
      invariant whole == Prepend(said, Converse(lines[i..], chain, calls))
    {
      ghost var rest := lines[i..];
      assert rest[0] == lines[i] && rest[1..] == lines[i + 1..];
      var query := Strip(lines[i]);
      if IsExit(query) {
        ConverseExit(rest, chain, calls);
        said := said + [Goodbye];
        ending := Quit;
        return;
      }
      var userInputLower := Lower(query);
      if userInputLower in CasualResponses {
        var line := "Bot: " + CasualResponses[userInputLower];
        ConverseCanned(rest, chain, calls);
        PrependTwice(said, [line], Converse(lines[i + 1..], chain, calls));
        said := said + [line];
        i := i + 1;
        continue;
      }
      var result := chain(calls);
      if result.Raised? {
        ConverseRaised(rest, chain, calls);
        assert said + [] == said;
        calls := calls + 1;
        ending := ChainFailed;
        return;
      }
      var answer := AnswerQuery(query, result.answer, result.history, result.pick);
      var line := "Bot: " + answer;
      ConverseAnswered(rest, chain, calls);
      PrependTwice(said, [line], Converse(lines[i + 1..], chain, calls + 1));
      calls := calls + 1;
      said := said + [line];
      i := i + 1;
    }
    assert Converse(lines[i..], chain, calls) == Run([], calls, EndOfInput);
    assert said + [] == said;
    ending := EndOfInput;
  }

  lemma PrependTwice(a: seq<string>, b: seq<string>, run: Run)
    ensures Prepend(a, Prepend(b, run)) == Prepend(a + b, run)
  {
    assert a + (b + run.said) == (a + b) + run.said;
  }

  // One step of `Converse` per kind of line, for the loop's proof.

  lemma ConverseExit(lines: seq<string>, chain: nat -> ChainCall, k: nat)
    requires |lines| > 0 && IsExit(Strip(lines[0]))
    ensures Converse(lines, chain, k) == Run([Goodbye], k, Quit)
  {
  }

  lemma ConverseCanned(lines: seq<string>, chain: nat -> ChainCall, k: nat)
    requires |lines| > 0 && !IsExit(Strip(lines[0])) && Lower(Strip(lines[0])) in CasualResponses
    ensures Converse(lines, chain, k)
      == Prepend(["Bot: " + CasualResponses[Lower(Strip(lines[0]))]], Converse(lines[1..], chain, k))
  {
  }

  lemma ConverseRaised(lines: seq<string>, chain: nat -> ChainCall, k: nat)
    requires |lines| > 0 && !IsExit(Strip(lines[0])) && Lower(Strip(lines[0])) !in CasualResponses
    requires chain(k).Raised?
    ensures Converse(lines, chain, k) == Run([], k + 1, ChainFailed)
  {
  }

  lemma ConverseAnswered(lines: seq<string>, chain: nat -> ChainCall, k: nat)
    requires |lines| > 0 && !IsExit(Strip(lines[0])) && Lower(Strip(lines[0])) !in CasualResponses
    requires chain(k).Answered?
    ensures Converse(lines, chain, k)
      == Prepend(["Bot: " + Finish(chain(k).answer, Strip(lines[0]), chain(k).history, chain(k).pick)],
                 Converse(lines[1..], chain, k + 1))
  {
  }
}
