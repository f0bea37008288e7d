# Atom AI chatbot — conversation controller in Dafny

This project models the per-turn conversation controller of the Atom AI retrieval chatbot. The controller exists in two copies:

- the command-line chat loop of `atomcamp_bot.py`. It strips each line and stops on `exit`/`quit`. It answers small talk from a fixed table. Otherwise it asks the retrieval chain and post-processes the answer in four steps: fallback for an empty answer, a follow-up note, sentence shaping above 300 characters, and a hard cap at 500 characters.
- the Streamlit turn handler of `app.py`. It appends the user's message to the session's `messages` list. It answers from the small-talk table, or pulls the answer out of whatever the chain returned, or turns an exception into a fixed apology. It then appends the bot's message.

The retrieval chain, its conversation memory and `random.choice` are not modelled. They become parameters:
- the k-th `qa.invoke` of the loop is `chain(k)`: the dict's "answer" entry, the memory's message contents after the call, and a fallback index;
- the web handler gets the call's outcome as an `Invoked` value;
- a random pick is a `Pick`, an index below the size of the fallback pool.

Files:
- `wrappers.dfy`: `Option`.
- `text.dfy`: Python's `strip`, `lower`, `split(". ")` and `join`, with the round trips between split and join.
- `replies.dfy`: the small-talk table, the fallback pool, the apology, and their properties.
- `cli_bot.dfy`: the loop's post-processing steps, the answered-query method, the loop as a method proved against a recursive run function, and the properties of each.
- `web_app.dfy`: result extraction, the reply, the `ChatSession` class whose `HandleTurn` appends to `messages`, and the message log over many turns.

In these points the model follows the code as written:
- the follow-up note quotes the second-to-last message in memory, whatever its speaker;
- the web handler looks up the lowered input without stripping it;
- the web handler does no follow-up note, no shaping and no cap;
- the command-line loop keeps no message list of its own, and a small-talk turn does not reach the chain's memory.

`app.py:3` imports `qa` and the tables from `atomcamp_bot`. That module runs its `while True` loop at import time (`atomcamp_bot.py:94`), with no `__main__` guard. As written, importing it runs that loop, which reads standard input until `exit`/`quit` before the rest of `app.py` runs, and afterwards both front ends share `qa`'s memory. The two front ends are modelled separately, each from a fresh start.

## Model

| member | source | states |
|---|---|---|
| Text.Split | atomcamp_bot.py:130 | `split(". ")` always yields at least one piece |
| Text.StripIsTrimmedSlice | atomcamp_bot.py:95 | `strip()` returns a contiguous slice of its input. Only whitespace is cut on either side, and the result neither starts nor ends with whitespace |
| Text.StripEmptyIffAllSpace | atomcamp_bot.py:109-114 | a stripped string is empty exactly when the input was all whitespace |
| Text.StripUnchangedWithoutOuterSpace | app.py:170 | a string with non-space ends is unchanged by `strip()` |
| Text.StripKeepsFirst | app.py:170 | a string starting with a non-space keeps that character first after `strip()` |
| Text.LowerHasNoUpper | atomcamp_bot.py:100 | `lower()` keeps the length and leaves no upper-case letter |
| Text.JoinSplit | atomcamp_bot.py:130-131 | joining the pieces of `split(". ")` with ". " gives back the input |
| Text.SplitPiecesHaveNoBreak | atomcamp_bot.py:130 | no piece of `split(". ")` contains ". " |
| Text.SplitWithoutBreak | atomcamp_bot.py:130 | a string without ". " splits into itself alone |
| Text.SplitAfterPiece | atomcamp_bot.py:130 | a piece without ". " followed by ". " splits off as exactly that piece |
| Text.SplitJoin | atomcamp_bot.py:130-131 | splitting the ". "-join of pieces without ". " gives the pieces back |
| Text.JoinNewlineHasNoBreak | atomcamp_bot.py:131 | joining pieces without ". " using ".\n" creates no ". " |
| Text.AppendKeepsNoBreak | atomcamp_bot.py:131 | appending a non-space character (the ellipsis) creates no ". " |
| Text.Newlined | atomcamp_bot.py:131 | the reference text in which every ". " reads ".\n" has the input's length |
| Text.JoinSplitNewline | atomcamp_bot.py:130-131 | rejoining the pieces of `split(". ")` with ".\n" equals that reference text |
| Text.JoinSplitPrefix | atomcamp_bot.py:131 | the first m of more than m pieces, rejoined with ". ", are a prefix of the input followed there by ". " |
| Replies.FallbacksAreNonEmpty | atomcamp_bot.py:70-74 | every fallback reply is non-empty (and at most 60 characters) |
| Replies.CasualRepliesAreShort | atomcamp_bot.py:59-68 | every small-talk reply is non-empty and at most 85 characters |
| Replies.CasualKeys | atomcamp_bot.py:59-68 | the table has exactly the eight keys written in the source |
| Replies.CasualKeyStartsWithLetter | atomcamp_bot.py:59-68 | every key starts with a letter |
| Replies.CasualKeyEndsWithLetter | atomcamp_bot.py:59-68 | every key ends in a lower-case letter, so none ends in whitespace |
| Replies.CapitalisedKeysUnreachable | atomcamp_bot.py:59-68 | the keys "Thanks" and "Thanku so much" are in the table, yet no lowered query equals them, so they can never be hit |
| Replies.ApologyIsDistinct | app.py:174 | the apology differs from every fallback and every small-talk reply |
| CliBot.Truncate | atomcamp_bot.py:136-137 | an answer of at most 500 characters passes unchanged; a longer one keeps its first 500 characters and gets exactly one more, the ellipsis |
| CliBot.FallbackNeverEmpty | atomcamp_bot.py:109-115 | after the fallback step the answer is non-empty. It is the stripped chain answer when that is non-empty, and a member of the fallback pool when the answer was blank |
| CliBot.FollowUpOnlyPrefixes | atomcamp_bot.py:120-124 | the note only prepends text. The answer changes exactly when memory has more than one message and the second-to-last differs from the query ignoring case. What is prepended is "(Regarding your previous question: '", that message word for word, and "') " |
| CliBot.ShapeFewSentences | atomcamp_bot.py:129-131 | with at most five pieces, a short answer is untouched and a long one has each ". " turned into ".\n" in place, so its length is kept |
| CliBot.ShapeManySentences | atomcamp_bot.py:129-131 | with more than five pieces, a long answer becomes the text before its fifth ". " (exactly five pieces, breaks turned into ".\n") plus one ellipsis |
| CliBot.ShapeNeverLonger | atomcamp_bot.py:129-131 | shaping never lengthens an answer, and an answer of at most 300 characters is untouched however many ". " it holds |
| CliBot.ShapedHasNoBreak | atomcamp_bot.py:129-131 | a shaped long answer contains no ". " |
| CliBot.ShapeIdempotent | atomcamp_bot.py:129-131 | shaping a shaped answer changes nothing: no second split and no second ellipsis |
| CliBot.TruncateIdempotent | atomcamp_bot.py:136-137 | capping a capped answer changes nothing |
| CliBot.TruncateKeepsNoBreak | atomcamp_bot.py:136-137 | capping a text without ". " creates none |
| CliBot.FinishBounds | atomcamp_bot.py:108-137 | every answered query prints a non-empty answer of at most 501 characters. An answer that went through shaping has no ". " left after the cap |
| CliBot.CappedAnswersEndInEllipsis | atomcamp_bot.py:129-137 | an answer over 500 characters before shaping always ends in an ellipsis after shaping and the cap |
| CliBot.AnswerQuery | atomcamp_bot.py:108-137 | the step-by-step reassignment of `answer` computes the composed fallback, note, shape and cap |
| CliBot.StoppedRunIgnoresLaterLines | atomcamp_bot.py:95-98 | once the loop has stopped on `exit`/`quit` or on a chain exception, no later line is read: more input changes nothing about the run |
| CliBot.RunCountsLines | atomcamp_bot.py:94-142 | the loop prints at most one line per line read and calls the chain at most once per line that is neither an exit nor small talk. When input runs out, every line got exactly one reply and each such line exactly one call. A run that quits ends with the goodbye line |
| CliBot.CannedSessionSkipsChain | atomcamp_bot.py:94-105 | a run of small talk and exit lines makes no chain call, and what it prints does not depend on the chain |
| CliBot.PrintedLinesAreBounded | atomcamp_bot.py:94-142 | every printed line is "Bot: " followed by a non-empty reply of at most 501 characters |
| CliBot.ChatLoop | atomcamp_bot.py:94-142 | the `while True` loop prints, counts calls and stops exactly as the recursive run function says |
| WebApp.CannedReplySkipsChain | app.py:162-163 | a table hit on the lowered input replies with exactly the table's text, whatever the chain outcome and pick |
| WebApp.LookupIsNotStripped | app.py:162 | an input with leading whitespace never hits the table, and its key differs from the stripped key the command-line loop uses |
| WebApp.TrailingSpaceMissesLookup | app.py:162 | an input with trailing whitespace never hits the table, and its key differs from the stripped key the command-line loop uses ("hi " is small talk there, not here) |
| WebApp.FailureGivesApology | app.py:173-174 | an exception yields the apology, which is neither a fallback nor a small-talk reply |
| WebApp.ReplyNeverEmpty | app.py:161-174 | the bot's reply is never empty on any path |
| WebApp.DictTextIsNotBlank | app.py:167 | `str(d)` of a dict is never blank after stripping |
| WebApp.DictFallbackIffBlankEntry | app.py:166-172 | for a dict the fallback is used exactly when the entry the `or` chain selects is whitespace only. A truthy blank "answer" shadows "output_text"; `str(result)` is never blank |
| WebApp.ReplyIsNotShapedOrCapped | app.py:165-172 | a returned text with non-space ends is the reply as it is, of any length and with its ". " kept |
| WebApp.Reply | app.py:161-174 | the `try` block's reassignments of `response` compute the reply, which is non-empty |
| WebApp.AlternatingGrowsByTurns | app.py:159-178 | appending a user entry then a bot entry keeps the log alternating user/bot |
| WebApp.LogHoldsTurnsInOrder | app.py:157-178 | after any sequence of page runs, the log has two entries per submission. The entries alternate user and bot, and the user entries are the raw submitted inputs in order |
| WebApp.ChatSession.constructor | app.py:14-15 | the message list starts empty and alternating |
| WebApp.ChatSession.HandleTurn | app.py:157-178 | a submission appends exactly the user entry with the raw input and then a non-empty bot entry, and keeps earlier entries. No submission leaves the list unchanged. The list stays alternating |

## Left out

- The retrieval chain, its vector store, the language model and the conversation memory (LangChain, Chroma, Groq) are not modelled. Their behaviour enters only as parameters: the "answer" entry, the memory contents after the call, and whether the call raised.
- `random.choice` is not modelled as randomness. The caller supplies the picked index.
- `input()`, `bot_print` (character-by-character output and `time.sleep`) and the startup banner are I/O. The loop takes its input lines as a sequence and returns what it would print. Running out of lines ends the run; in the source `input()` would raise `EOFError`, which is not caught.
- Text.Lower: only ASCII letters are lowered. Python's `str.lower` also lowers non-ASCII letters.
- CliBot.AnswerQuery: a present but non-string "answer" entry (for example `None`) makes `.strip()` raise and ends the program. The model's answer entry is a string or absent.
- WebApp.Reply: a truthy non-string "answer" or "output_text" entry would make `.strip()` raise, giving the apology. The model's entries are strings or absent/falsy.
- `str(result)` is not computed. A dict's `str` is given as text between braces, and another object's `str` as plain text.
- Timestamps (`datetime.now()`) on the web messages are left out.
- The Streamlit page is left out: CSS, bubble rendering, the toggle button, the auto-scroll script and `chat_open`.
- The environment-variable API key check and the model settings at startup are configuration.
- build_chroma.py is not part of this model: it does scraping, splitting, embedding and persistence through foreign libraries.
- memory_test.py, hello_bot.py and test_groq.py are not part of this model: they only wrap calls to the language model.
