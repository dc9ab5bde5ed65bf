# LlamaAdventure controller, modelled in Dafny

LlamaAdventure plays Colossal Cave Adventure with a language model as the
player. A controller runs the game as a subprocess. Each turn it reads the
game's output, records it as a move in a history, and waits until a minimum
interval has passed since the last call. It then asks the model for a move and
notes (`get_move`), parses the reply and writes the command to the game.
Replies that fail to parse, or calls that fail, are retried. An interrupt quits
the game once and logs the final score.

The repository holds two near-identical programs, `advent.py` and `llm.py`.
Both are modelled at once. The `Controller.Variant` datatype holds five of
their differences. The prompt templates also differ (a template is a model
input), as does advent.py's closed-pipe check (see Left out):

| | advent.py | llm.py |
|---|---|---|
| a reply without `notes:` | notes are `""` | rejected and retried |
| moves shown to the model | the last 10 | all of them |
| seconds between calls | 4 | 3 |
| output from `read` | "> " echo lines dropped, then trimmed | chunks as read |
| what a turn logs | the rendered move and a blank line | the raw output |

Modules, in dependency order:

- `Text` (text.dfy): the parts of Python's `str` that are used. These are
  `strip` (with and without a character set), `split`, `join`, `startswith`
  and leftmost search.
- `Parser` (parser.dfy): the reply parser. The regular expression
  `move:((\s*\w+\b)+)$`, under ASCII and MULTILINE, is modelled the way the
  matcher runs it: leftmost marker first, greedy repetition with backtracking.
  It is proved equal to a declarative description of what it matches.
  `ParserExamples` (parser_examples.dfy) works through the reply shapes
  discussed below.
- `History` (history.dfy): `Move`, its rendering for the prompt, and the
  slice of the history the model sees.
- `Oracle` (oracle.dfy): prompt assembly from a template, how each reply is
  classified, and the retry recursion of `get_move`.
- `Session` (session.dfy): `GameController`, a class with the `writing` flag
  and the game's input as fields. Its `read` is loop code: a chunk loop and
  the echo filter.
- `Controller` (controller.dfy): `Program`, a class for the global state
  (controller, `handling_signal`, the log). It has the signal handler and
  the `main` loop. `Run` is proved against the record predicate `Recorded`,
  and lemmas read properties off that record.

The model's inputs stand in for the parts that cannot be modelled. Each turn
(`Turn`) is given as:

- the results of the game's successive `read()` calls;
- the clock when the rate limit is checked;
- the service's replies to successive attempts: a completion with content, a
  completion with no content, or an exception.

Behaviours of the code that are easy to miss:

- The markers `move:` and `notes:` are case-sensitive.
- A move must run to a line end (`$` under MULTILINE). It does not end where
  `notes:` begins. A reply on one line, such as `move: go north notes: heading
  north next`, is rejected (`ParserExamples.OneLineReplyRejected`). The
  exception is a one-line reply where a later `move:` is followed only by
  words. The search then matches at that later marker, and the notes run
  from the first `notes:` to the end (`ParserExamples.LaterMarkerAccepted`).
  The two-line form is accepted (`ParserExamples.TwoLineReply`).
- ASCII `\s` includes the newline. So a move can run over several lines, and
  then reaches the game as several commands (`ParserExamples.MoveSpansLines`).
- Only an exception costs the five-second pause. A reply with no content, or
  one that fails to parse, is retried at once (`Oracle.GetMoveWaits`).
- Retries are not rate-limited. Only the first call of each turn waits for
  the interval since the previous turn's call (`Controller.CallsSpaced`).
- A retry drops the extra instruction: `get_move` calls itself with the
  history and notes only (`Oracle.GetMoveSpec`).
- The history list is never trimmed. advent.py hands the model a slice of the
  last ten moves (`moves[-10:]`); llm.py hands it the whole list.
- The retry is a recursive call, so it is modelled as the recursive function
  `Oracle.GetMoveFrom`.
- Moves are rendered and joined with blank lines, so a command containing a
  blank line cannot be read back, even from its own rendering
  (`History.BlankLineIsAmbiguous`). A command that spans lines without a
  blank line, as `ParserExamples.MoveSpansLines` produces, can be read back
  from its own rendering (`History.RenderRoundTrip`). The joined history
  cannot be decoded in general, even when every command is one line: a
  result that holds a blank line and a "> " line reads like one more move
  (`History.ResultCanHideMove`).

## Model

| member | source | states |
|---|---|---|
| Text.StripSpec | advent.py:124 | `strip(chars)` keeps one contiguous slice of the text. Everything removed before and after it is in the character set. The slice neither starts nor ends with such a character. |
| Text.StripUnique | advent.py:124 | Any split of the text into a core and outer parts made of set characters, where the core does not start or end with one, strips to that core. |
| Text.StripIdempotent | advent.py:191 | Stripping twice gives the same text as stripping once. This is a general property of `strip`; the program never strips twice. |
| Text.Strip | advent.py:124 | `strip(chars)`: the slice between the leading and trailing runs of set characters. StripSpec and StripUnique characterise it. |
| Text.PyStrip | advent.py:191 | `strip()` with no argument: Strip over Python's whitespace. |
| Text.FindFrom | advent.py:133 | The leftmost occurrence of the pattern at or after the start, or None exactly when there is none. |
| Text.IndexOf | advent.py:187 | The position of the first occurrence of the character, or None when it does not occur. |
| Text.StartsWith | advent.py:188 | `s.startswith(prefix)`. KeepNonEchoKeeps and KeepNonEchoFrom state what the echo filter does with it. |
| Text.JoinSnoc | advent.py:105 | Joining one more part appends the separator and that part. |
| Text.Join | advent.py:105 | `sep.join(parts)`, used for the history here and for the kept lines at advent.py:189. JoinSnoc and SplitJoin state its properties. |
| Text.Split | advent.py:187 | `split('\n')` gives at least one piece. No piece contains the separator. Joining the pieces with it gives the text back. |
| Text.SplitJoin | advent.py:187-191 | Splitting a join of separator-free pieces gives the pieces back. |
| Parser.NextTokenEndSpec | advent.py:126 | One `\s*\w+\b` step ends exactly where the first word token ends. No match of the group ends earlier. Matches that end later are the matches from that point. |
| Parser.NextTokenEnd | advent.py:126 | One `\s*\w+\b` step of the matcher. It consumes at least one character and stays in the text. NextTokenEndSpec states where it ends. |
| Parser.TrimReply | advent.py:124 | `content.strip('.,!?` \t')`. StripSpec and StripUnique characterise it, and ParserExamples.TrimsTo shows what it removes. |
| Parser.GreedyEndSpec | advent.py:126 | The greedy matcher finds a group exactly when some token run from there ends at a line end. It returns the last such end. |
| Parser.GreedyEnd | advent.py:126 | The greedy `(\s*\w+\b)+$` with backtracking. GreedyEndSpec states what it returns. |
| Parser.FindMoveSpec | advent.py:126 | `re.search` finds the leftmost `move:` at which the pattern matches, and for it the longest group. With no match at any marker it reports none. |
| Parser.FindMove | advent.py:126 | The `re.search` of the move pattern, leftmost marker first. FindMoveSpec states what it finds. |
| Parser.Parse | advent.py:124-139 | An accepted move is non-empty. It consists of word characters and whitespace, and starts and ends with a word character. |
| Parser.ParseTrimmed | advent.py:126-139 | The same guarantee holds for matching on an already-trimmed reply. |
| Parser.GroupMove | advent.py:130 | The stripped group of a match is a well-formed move. |
| Parser.GroupStrip | advent.py:130 | Stripping a matched group removes only its leading whitespace. The move runs from the group's first word character to its end. |
| Parser.ParseAccepts | advent.py:124-139 | A reply is accepted exactly when its trimmed form has a match and, under the strict policy, contains `notes:`. Both directions are proved. |
| Parser.ParseMove | advent.py:126-130 | The accepted move is the text of the leftmost, longest match, from its first word character to the end of the group. |
| Parser.ParseNotes | advent.py:133-136 | Notes are the stripped text after the first `notes:`. Without the marker they are `""` under the lenient policy, and that case cannot arise under the strict one. |
| Parser.PoliciesAgreeOnMove | llm.py:101-105 | A reply the strict policy accepts is accepted with the same result by the lenient policy. |
| ParserExamples.TrimsTo | advent.py:124 | Punctuation wrapped around a reply is removed exactly. |
| ParserExamples.SameTrim | advent.py:124 | Two replies with the same trimmed form parse alike. |
| ParserExamples.TwoLineReply | advent.py:124-139 | "move: M", a newline, "notes:" and a text N, wrapped in any trimmed punctuation. Here M is one word of word characters and N does not end in a trimmed character. Under both policies this parses to M and the stripped N. |
| ParserExamples.OneLineNoMatch | advent.py:126 | In "move: M notes: N" on one line, no marker position matches. This holds when M is non-empty and made of words and spaces with no newline, and N has no colon and no newline. |
| ParserExamples.OneLineReplyRejected | advent.py:126-129 | Such a one-line reply is rejected under both policies. This holds when M is as above and N is non-empty, has no colon and no newline, and does not end in a trimmed character. |
| ParserExamples.LaterMarkerAccepted | advent.py:124-139 | The one-line reply "move: go notes: x move: y" is accepted under both policies. The move "y" comes from the later marker, and the notes are "x move: y". |
| ParserExamples.MoveSpansLines | advent.py:126-130 | "move: A", a newline, "B" gives the move "A\nB". |
| History.Render | advent.py:95-98 | `Move.__str__`: the result alone for an empty command, otherwise "> ", the command, a blank line and the result. Its properties are stated by RenderRoundTrip and BlankLineIsAmbiguous. |
| History.RenderRoundTrip | advent.py:95-98 | A command with no blank line in it and no trailing newline can be read back from its rendering. So can an opening move whose output does not begin with "> ". |
| History.Unrender | advent.py:95-98 | Whatever it reads back renders as the text it was given. The command it reads has no blank line and no trailing newline. |
| History.BlankLineIsAmbiguous | advent.py:95-98 | A command with a blank line in it renders exactly like a different move with a shorter command. |
| History.ResultCanHideMove | advent.py:105 | A history of two moves, where the second result holds a blank line and a "> " line, joins to the same text as a different history of three moves with one-line commands. |
| History.Renders | advent.py:105 | There is one rendering per move, in order. |
| History.RenderAll | advent.py:105 | `'\n\n'.join(map(str, moves))`. RenderAllSnoc states how it grows. |
| History.RenderAllSnoc | advent.py:105 | Appending a move appends a blank line and its rendering. |
| History.SliceFrom | advent.py:233 | Python's `h[start:]` is a suffix of `h`, for negative starts too. |
| History.Window | advent.py:233 | The moves passed to `get_move`: `moves[-10:]` in advent.py, all of them in llm.py (llm.py:194). WindowIsLatest, WindowEvicts and WindowGrows state its properties. |
| History.WindowIsLatest | advent.py:233 | `moves[-10:]` is the last min(10, n) moves, in their original order. |
| History.WindowEvicts | advent.py:233 | Once the window is full, a new move drops the oldest one. |
| History.WindowGrows | advent.py:233 | Until the window is full, a new move is added and nothing is dropped. |
| Oracle.SegmentText | advent.py:104-107 | A template piece fails exactly when it names a placeholder other than `moves` and `notes`. |
| Oracle.Substitute | advent.py:104-107 | `prompt.substitute(moves=..., notes=...)`, or None for `KeyError`. SubstituteDefined, SubstituteConcat, SubstituteLiteral, SubstitutePlaceholder and SubstituteFills state its properties. |
| Oracle.SubstituteDefined | advent.py:104-107 | `substitute` succeeds exactly when every placeholder is known. Both directions are proved. |
| Oracle.SubstituteConcat | advent.py:104-107 | Substituting into two template parts and concatenating the results is the same as substituting into their concatenation. |
| Oracle.SubstituteLiteral | advent.py:104-107 | A template without placeholders gives its own text. |
| Oracle.SubstitutePlaceholder | advent.py:104-107 | `$moves` is replaced by the moves text and `$notes` by the notes. |
| Oracle.SubstituteFills | advent.py:43-47 | A template of literal text, `$moves`, literal text, `$notes` and literal text fills to those five parts in order. This is the shape of both programs' templates (advent.py:28-32, llm.py:20-24). |
| Oracle.WithExtra | advent.py:108-109 | The prompt starts with the filled template. It is extended exactly when the extra instruction is non-empty, and then by a blank line and the instruction. |
| Oracle.BuildPrompt | advent.py:104-109 | A prompt exists exactly when the template can be filled, and is then WithExtra of the filled template. PromptContent states what it contains. |
| Oracle.PromptContent | advent.py:104-109 | For a template of the programs' shape, the prompt is the literal text, the moves joined with blank lines, the literal text, the notes and the literal text. A blank line and the extra instruction follow when there is one. |
| Oracle.Classify | advent.py:118-143 | A reply is accepted exactly when it is a completion that parses, and the result is that parse. It backs off exactly when it is an exception. |
| Oracle.ClassifiedAt | advent.py:118-143 | The verdict at each position is the verdict on the reply there. |
| Oracle.FirstAcceptFrom | advent.py:120-139 | The first accepting attempt; no earlier attempt accepts. |
| Oracle.CountBackoff | advent.py:140-142 | Counts the exceptions in a range of attempts; at most its length. |
| Oracle.AttemptsFrom | advent.py:100-143 | The attempts made never exceed the replies available. |
| Oracle.GetMoveFrom | advent.py:100-143 | No more attempts than replies. At most one prompt reaches the service per attempt. |
| Oracle.GetMoveSpec | advent.py:100-143 | Every attempt rebuilds the prompt from the same history and notes, and only the first carries the extra instruction. The decision is the first accepted reply, and nothing is attempted after it. If the template cannot be filled, nothing is sent and every attempt backs off. |
| Oracle.GetMove | advent.py:100-143 | `get_move` against the service's successive replies. GetMoveSpec, GetMoveWaits and DecisionComesFromReply state its course and result. |
| Oracle.GetMoveWaits | advent.py:140-143 | The time spent waiting is five seconds per exception among the attempts made, and nothing else. |
| Oracle.DecisionComesFromReply | advent.py:120-139 | A decision is the parse of the first completion that parses; it is never invented. |
| Oracle.AcceptedFirstTry | advent.py:104-139 | A first reply that parses is taken at once. One prompt, carrying the extra instruction, is sent, with no pause. |
| Oracle.NoFailuresNoPause | advent.py:140-143 | Without exceptions there is no pause. |
| Oracle.NoBackoffCountsZero | advent.py:140-142 | A range with no exceptions counts none. |
| Session.StopIndex | advent.py:177-184 | The chunk loop stops at the first read that yields nothing or raises; every read before it yields text. |
| Session.CollectedFrom | advent.py:176-184 | The chunk loop's buffer from a given read on. CollectedIsPrefixTexts and CollectedIgnoresLater state its properties. |
| Session.Collected | advent.py:176-184 | The chunk loop's buffer. ReadChunks is proved equal to it, and CollectedIsPrefixTexts states what it holds. |
| Session.ReadChunks | advent.py:176-184 | The loop's buffer is the text of the reads up to the first empty one, and the loop stops there. |
| Session.CollectedIsPrefixTexts | advent.py:176-184 | That buffer is the concatenation, in order, of the chunks before the stop. |
| Session.CollectedIgnoresLater | llm.py:144-152 | Reads after the first empty one never contribute. |
| Session.KeepNonEcho | advent.py:186-189 | No kept line starts with "> ". |
| Session.KeepNonEchoConcat | advent.py:187-189 | Filtering works line by line. |
| Session.KeepNonEchoKeeps | advent.py:187-189 | Every line that does not start with "> " is kept. |
| Session.KeepNonEchoFrom | advent.py:187-189 | Every kept line is an input line that does not start with "> ". |
| Session.IsEcho | advent.py:188 | A line starting with "> ". KeepNonEcho, KeepNonEchoKeeps and KeepNonEchoFrom state how the filter uses it. |
| Session.StripEcho | advent.py:186-191 | The loop gives the trimmed join, with newlines, of the kept lines in their original order. |
| Session.EchoStripped | advent.py:186-191 | The trimmed join of the kept lines. KeepNonEchoKeeps, KeepNonEchoFrom, SingleLineKept and AllEchoReadsEmpty state its properties. |
| Session.ReadText | advent.py:186-192 | What `read` returns for a buffer: the echo-stripped text in advent.py, the buffer itself in llm.py (llm.py:154). GameController.Read is proved to return it. |
| Session.SingleLineKept | advent.py:186-191 | A single line that is not an echo is only trimmed. |
| Session.AllEchoReadsEmpty | advent.py:186-191 | Output made only of echo lines reads as nothing. |
| Session.GameController.constructor | advent.py:146-147 | A new controller is not writing, has written nothing, and its game is running. |
| Session.GameController.Send | advent.py:160-168 | Exactly the command and a newline are written, and `writing` is clear again afterwards. |
| Session.GameController.Read | advent.py:170-192 | The chunk loop's buffer, echo-stripped in advent.py and as read in llm.py (llm.py:138-154). |
| Session.GameController.Stop | advent.py:194-198 | Writes "quit\nyes\n", returns the text then read followed by a newline, and terminates the game. |
| Controller.RateWait | advent.py:228-230 | After the wait the interval since the last call has passed. There is no wait once it already has. |
| Controller.RateWaitIsLeast | advent.py:228-230 | No shorter wait would keep the interval. |
| Controller.NextCallTime | advent.py:228-231 | The next call time is the later of now and one interval after the last call. |
| Controller.CallsSpaced | advent.py:228-231 | The first oracle calls of successive turns are at least one interval apart: 4 seconds in advent.py, 3 in llm.py. Retries within a turn are not spaced. |
| Controller.LogEntry | advent.py:226 | A turn's log text: the rendered move and a blank line in advent.py, the raw output in llm.py (llm.py:186). PlayTurn's ensures state that each turn appends it. |
| Controller.LogAll | advent.py:226 | The log of all turns, one entry per move in order. Run's ensures state that the log grows by exactly this. |
| Controller.OracleSeesLatest | advent.py:233 | advent.py's model sees the last min(10, n) moves in order. llm.py's sees all of them (llm.py:194). |
| Controller.LlmDecidesOnWholeHistory | llm.py:194 | In any llm.py run, each turn's command and notes are `get_move` on the whole history up to that turn, with the notes carried in and no extra instruction. |
| Controller.AdventDecidesOnLastTen | advent.py:233 | In any advent.py run, each turn's command and notes are `get_move` on the last (at most) ten moves up to that turn, with the notes carried in and no extra instruction. |
| Controller.MovesReadAt | advent.py:223-225 | Turn j's move, read off the record. |
| Controller.MovesReadFrame | advent.py:223-225 | The record of the first n moves depends only on them and the commands before them. |
| Controller.TimedAt | advent.py:228-231 | Turn j's call time, read off the record: the rate limit applied after the previous call. |
| Controller.TimedFrame | advent.py:228-231 | The record of call times depends only on the times recorded. |
| Controller.DecidedAt | advent.py:233 | Turn j's command and new notes are the model's decision on the history up to turn j and the notes carried in. |
| Controller.DecidedFrame | advent.py:233 | The record of decisions depends only on the history, the commands and the notes up to each turn. |
| Controller.Decide | advent.py:233 | A turn's decision: `get_move` on the variant's window of the history, with the notes carried in. DecidedAt, LlmDecidesOnWholeHistory and AdventDecidesOnLastTen read it off the record. |
| Controller.HistoryPairsCommandsWithOutput | advent.py:223-225 | Each history entry pairs the output `read` returned with the previous command. The first entry's command is "". |
| Controller.CommandsComeFromReplies | advent.py:233-234 | Every command sent, with its notes, is the parse of a completion the service returned in that turn. |
| Controller.RecordMove | advent.py:223-231 | Recording a turn's move and call time keeps the record. |
| Controller.RecordDecision | advent.py:233 | Recording the decision of the latest turn keeps the record. |
| Controller.Program.constructor | advent.py:211-214 | State at start: the flag is clear, nothing is logged, and the controller is fresh. |
| Controller.Program.SignalHandler | advent.py:200-209 | The first call sends the quit sequence, logs the score and exits. Once the flag is set a call changes nothing. |
| Controller.Program.InterruptTwice | advent.py:203-205 | Two interrupts write the quit sequence once. |
| Controller.Program.PlayTurn | advent.py:223-234 | One turn adds exactly one move and keeps the record. It sends the decision, or nothing when the replies run out. It logs the turn. It is only played while the program has not exited. |
| Controller.Program.Run | advent.py:216-234 | The history gains one move per turn. Moves, commands, notes and call times are as `Recorded` states. The game's input is the commands, each with a newline. The log is one entry per turn. In llm.py (llm.py:178-195) the same loop has an unlimited window and a 3-second interval, and logs the raw output. |

## Left out

- The OpenAI client and its network call. Each attempt's reply is an input:
  a completion, a completion with no content, or an exception.
- Starting the subprocess, `fcntl` setup, `select` polling and `terminate`.
  A read's results are an input, and `Stop` only clears `running`.
- The real clock and `time.sleep`. Timestamps are whole seconds and a sleep
  lasts exactly as long as asked.
- Controller.Program.Run: runs over a finite list of turns. It ends in the
  turn whose replies run out before one is accepted, where the program would
  keep retrying without limit.
- Oracle.GetMoveFrom: the retries are bounded by the replies given, not
  unbounded. The depth of Python's recursion is not modelled.
- Session.GameController.Send: the busy-wait on `writing` is the
  precondition that no write is under way. Calls are sequential in the
  model.
- Concurrency between the interrupt and the main loop. The handler is
  modelled as a call made between steps. An interrupt arriving during
  `send` makes `stop` wait on a flag that the interrupted `send` never
  clears. That interleaving cannot be expressed in this sequential model.
- `sys.exit` and signal registration. `SignalHandler` sets `exited` instead.
- The `Log` class's files and flushing. The log is a string field that
  grows.
- The wording of the prompt templates. A template is a sequence of literal
  and placeholder segments. `$$` escapes and `${name}` syntax are not modelled.
- Flush and write errors on the game's input pipe, and advent.py's check
  for a closed pipe before flushing.
