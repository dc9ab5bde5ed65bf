/**
 * The program around the game (`main` and `signal_handler`, advent.py:200-234
 * and llm.py:162-195): the turn loop that reads the game's output, records the
 * move, waits for the rate limit, asks the oracle and sends its command; and
 * the interrupt handler that quits the game once.
 */
module Controller {
  import opened Wrappers
  import opened Text
  import opened Parser
  import opened History
  import opened Oracle
  import opened Session

  /** What differs between the two programs. */
  datatype Variant = Variant(
    requireNotes: bool,      // a reply without "notes:" is rejected
    window: Option<nat>,     // how many of the latest moves the oracle sees
    interval: nat,           // seconds between oracle calls
    stripsEcho: bool,        // `read` drops "> " lines and trims
    logsMoves: bool)         // each turn logs the rendered move (else the raw output)

  /** advent.py */
  const Advent: Variant := Variant(false, Some(10), 4, true, true)
  /** llm.py */
  const Llm: Variant := Variant(true, None, 3, false, false)

  /** The pause before an oracle call: the rest of the interval since the last
      call, or nothing once the interval has passed. Timestamps are whole seconds. */
  function RateWait(interval: nat, now: int, last: int): (w: nat)
    ensures now + w >= last + interval
    ensures now - last >= interval ==> w == 0
  {
    if now - last < interval then interval - (now - last) else 0
  }

  /** No shorter pause would keep the calls an interval apart. */
  lemma RateWaitIsLeast(interval: nat, now: int, last: int, w: nat)
    requires now + w >= last + interval
    ensures RateWait(interval, now, last) <= w
  {
  }

  /** `last_time` after the pause: the later of now and one interval after the last call. */
  function NextCallTime(interval: nat, now: int, last: int): (r: int)
    ensures r >= now && r >= last + interval
    ensures r == now || r == last + interval
  {
    now + RateWait(interval, now, last)
  }

  /** What one turn of the loop meets: the game's output reads, the clock when the
      rate limit is checked, and the oracle's replies to successive attempts. */
  datatype Turn = Turn(output: seq<ReadResult>, clock: int, replies: seq<Reply>)

  /** The text logged for a turn. */
  function LogEntry(v: Variant, m: Move): string {
    if v.logsMoves then Render(m) + "\n\n" else m.result
  }

  function LogAll(v: Variant, moves: seq<Move>): string
    decreases |moves|
  {
    if moves == [] then "" else LogAll(v, moves[..|moves| - 1]) + LogEntry(v, moves[|moves| - 1])
  }

  /** Each command followed by a newline, as `send` writes them. */
  function Lines(cmds: seq<string>): string
    decreases |cmds|
  {
    if cmds == [] then "" else Lines(cmds[..|cmds| - 1]) + cmds[|cmds| - 1] + "\n"
  }

  /** The oracle's decision in a turn, given the history so far and the notes carried in. */
  function Decide(v: Variant, t: Template, history: seq<Move>, notes: string, replies: seq<Reply>): Option<Parsed> {
    GetMove(t, Window(history, v.window), notes, "", replies, v.requireNotes).decision
  }

  /** A way of deciding a turn from the history, the notes and the replies. */
  type Decider = (seq<Move>, string, seq<Reply>) -> Option<Parsed>

  /** A way of reading a turn's output from the game's reads. */
  type Reader = seq<ReadResult> -> string

  /** `read` of a variant, as a reader. */
  function ReaderOf(stripsEcho: bool): Reader {
    (results: seq<ReadResult>) => ReadText(stripsEcho, Collected(results))
  }

  /** The oracle of a variant and template, as a decider. */
  function OracleOf(v: Variant, t: Template): Decider {
    (history: seq<Move>, notes: string, replies: seq<Reply>) => Decide(v, t, history, notes, replies)
  }

  /** The shape of the loop's record: one move and one call time per turn read,
      one command per turn completed, and the notes carried into each turn. */
  predicate Shaped(turns: seq<Turn>, moves: seq<Move>, sent: seq<string>, notes: seq<string>, calls: seq<int>) {
    |moves| <= |turns| && |sent| <= |moves| <= |sent| + 1 && |notes| == |sent| + 1 && |calls| == |moves|
  }

  /** In each of the first n turns, the command sent and the notes carried on are
      the oracle's decision on the history up to that turn and the notes carried in. */
  predicate Decided(decide: Decider, turns: seq<Turn>,
                    moves: seq<Move>, sent: seq<string>, notes: seq<string>, calls: seq<int>, n: nat)
    requires Shaped(turns, moves, sent, notes, calls) && n <= |sent|
    decreases n
  {
    n == 0 ||
    (Decided(decide, turns, moves, sent, notes, calls, n - 1)
     && decide(moves[..n], notes[n - 1], turns[n - 1].replies) == Some(Parsed(sent[n - 1], notes[n])))
  }

  /** In each of the first n turns, the move pairs the command sent in the turn
      before (none in the first) with the output read in its own turn. */
  predicate MovesRead(read: Reader, turns: seq<Turn>, moves: seq<Move>, sent: seq<string>, n: nat)
    requires n <= |moves| <= |turns| && |moves| <= |sent| + 1
    decreases n
  {
    n == 0 ||
    (MovesRead(read, turns, moves, sent, n - 1)
     && moves[n - 1] == Move(if n == 1 then "" else sent[n - 2], read(turns[n - 1].output)))
  }

  /** In each of the first n turns, the oracle is called at the time the rate
      limit allows after the call before (the first after time zero). */
  predicate Timed(v: Variant, turns: seq<Turn>, calls: seq<int>, n: nat)
    requires n <= |calls| <= |turns|
    decreases n
  {
    n == 0 ||
    (Timed(v, turns, calls, n - 1)
     && calls[n - 1] == NextCallTime(v.interval, turns[n - 1].clock, if n == 1 then 0 else calls[n - 2]))
  }

  /** The loop's record after the turns up to |moves|: every move pairs the command
      sent in the turn before (none in the first) with the output read in its own
      turn; every command and notes text is the oracle's decision for its turn;
      every call time follows the rate limit from the previous one. */
  predicate Recorded(v: Variant, decide: Decider, read: Reader, turns: seq<Turn>,
                     moves: seq<Move>, sent: seq<string>, notes: seq<string>, calls: seq<int>)
  {
    && Shaped(turns, moves, sent, notes, calls)
    && notes[0] == ""
    && MovesRead(read, turns, moves, sent, |moves|)
    && Decided(decide, turns, moves, sent, notes, calls, |sent|)
    && Timed(v, turns, calls, |calls|)
  }

  /** The move of turn j, read off the record. */
  lemma {:induction false} MovesReadAt(read: Reader, turns: seq<Turn>, moves: seq<Move>, sent: seq<string>, n: nat, j: nat)
    requires n <= |moves| <= |turns| && |moves| <= |sent| + 1
    requires MovesRead(read, turns, moves, sent, n)
    requires j < n
    ensures moves[j] == Move(if j == 0 then "" else sent[j - 1], read(turns[j].output))
    decreases n
  {
    if j < n - 1 {
      MovesReadAt(read, turns, moves, sent, n - 1, j);
    }
  }

  /** The moves of the first n turns depend only on the record up to them. */
  lemma {:induction false} MovesReadFrame(read: Reader, turns: seq<Turn>, moves: seq<Move>, sent: seq<string>,
                                          moves': seq<Move>, sent': seq<string>, n: nat)
    requires n <= |moves| <= |turns| && |moves| <= |sent| + 1
    requires n <= |moves'| <= |turns| && |moves'| <= |sent'| + 1
    requires forall k | 0 <= k < n :: moves'[k] == moves[k]
    requires forall k | 0 <= k < n - 1 :: sent'[k] == sent[k]
    requires MovesRead(read, turns, moves, sent, n)
    ensures MovesRead(read, turns, moves', sent', n)
    decreases n
  {
    if n > 0 {
      MovesReadFrame(read, turns, moves, sent, moves', sent', n - 1);
      if n > 1 {
        assert sent'[n - 2] == sent[n - 2];
      }
      assert moves'[n - 1] == moves[n - 1];
    }
  }

  /** The call time of turn j, read off the record. */
  lemma {:induction false} TimedAt(v: Variant, turns: seq<Turn>, calls: seq<int>, n: nat, j: nat)
    requires n <= |calls| <= |turns|
    requires Timed(v, turns, calls, n)
    requires j < n
    ensures calls[j] == NextCallTime(v.interval, turns[j].clock, if j == 0 then 0 else calls[j - 1])
    decreases n
  {
    if j < n - 1 {
      TimedAt(v, turns, calls, n - 1, j);
    }
  }

  /** The call times of the first n turns depend only on those turns' entries. */
  lemma {:induction false} TimedFrame(v: Variant, turns: seq<Turn>, calls: seq<int>, calls': seq<int>, n: nat)
    requires n <= |calls| <= |turns| && n <= |calls'| <= |turns|
    requires forall k | 0 <= k < n :: calls'[k] == calls[k]
    requires Timed(v, turns, calls, n)
    ensures Timed(v, turns, calls', n)
    decreases n
  {
    if n > 0 {
      TimedFrame(v, turns, calls, calls', n - 1);
      if n > 1 {
        assert calls'[n - 2] == calls[n - 2];
      }
      assert calls'[n - 1] == calls[n - 1];
    }
  }

  /** The decision of turn j, read off the record. */
  lemma {:induction false} DecidedAt(decide: Decider, turns: seq<Turn>,
                                     moves: seq<Move>, sent: seq<string>, notes: seq<string>, calls: seq<int>,
                                     n: nat, j: nat)
    requires Shaped(turns, moves, sent, notes, calls) && n <= |sent|
    requires Decided(decide, turns, moves, sent, notes, calls, n)
    requires j < n
    ensures decide(moves[..j + 1], notes[j], turns[j].replies) == Some(Parsed(sent[j], notes[j + 1]))
    decreases n
  {
    if j < n - 1 {
      DecidedAt(decide, turns, moves, sent, notes, calls, n - 1, j);
    }
  }

  /** Decisions depend only on the record up to their turn. */
  lemma {:induction false} DecidedFrame(decide: Decider, turns: seq<Turn>,
                                        moves: seq<Move>, sent: seq<string>, notes: seq<string>, calls: seq<int>,
                                        moves': seq<Move>, sent': seq<string>, notes': seq<string>, calls': seq<int>,
                                        n: nat)
    requires Shaped(turns, moves, sent, notes, calls) && n <= |sent|
    requires Shaped(turns, moves', sent', notes', calls') && n <= |sent'|
    requires moves'[..n] == moves[..n] && sent'[..n] == sent[..n] && notes'[..n + 1] == notes[..n + 1]
    requires Decided(decide, turns, moves, sent, notes, calls, n)
    ensures Decided(decide, turns, moves', sent', notes', calls', n)
    decreases n
  {
    if n > 0 {
      assert moves'[..n - 1] == moves'[..n][..n - 1] && moves[..n - 1] == moves[..n][..n - 1];
      assert sent'[..n - 1] == sent'[..n][..n - 1] && sent[..n - 1] == sent[..n][..n - 1];
      assert notes'[..n] == notes'[..n + 1][..n] && notes[..n] == notes[..n + 1][..n];
      DecidedFrame(decide, turns, moves, sent, notes, calls, moves', sent', notes', calls', n - 1);
      assert sent'[n - 1] == sent'[..n][n - 1];
      assert notes'[n - 1] == notes'[..n + 1][n - 1] && notes'[n] == notes'[..n + 1][n];
    }
  }

  /** The first oracle calls of successive turns are at least one interval
      apart. Retries within a turn are not rate-limited. */
  lemma CallsSpaced(v: Variant, decide: Decider, read: Reader, turns: seq<Turn>,
                    moves: seq<Move>, sent: seq<string>, notes: seq<string>, calls: seq<int>, j: nat)
    requires Recorded(v, decide, read, turns, moves, sent, notes, calls)
    requires j + 1 < |calls|
    ensures calls[j + 1] >= calls[j] + v.interval
  {
    TimedAt(v, turns, calls, |calls|, j + 1);
  }

  /** The oracle in turn j sees the latest moves of the history up to that turn:
      the last ten in advent.py, all of them in llm.py. */
  lemma OracleSeesLatest(h: seq<Move>)
    ensures |Window(h, Advent.window)| == (if |h| < 10 then |h| else 10)
    ensures Window(h, Advent.window) == h[|h| - |Window(h, Advent.window)|..]
    ensures Window(h, Llm.window) == h
  {
    WindowIsLatest(h, 10);
  }

  /** In llm.py each turn's decision is taken on the whole history up to that
      turn, with the notes carried in and no extra instruction. */
  lemma LlmDecidesOnWholeHistory(t: Template, read: Reader, turns: seq<Turn>,
                                 moves: seq<Move>, sent: seq<string>, notes: seq<string>, calls: seq<int>,
                                 j: nat)
    requires Recorded(Llm, OracleOf(Llm, t), read, turns, moves, sent, notes, calls)
    requires j < |sent|
    ensures GetMove(t, moves[..j + 1], notes[j], "", turns[j].replies, true).decision
      == Some(Parsed(sent[j], notes[j + 1]))
  {
    DecidedAt(OracleOf(Llm, t), turns, moves, sent, notes, calls, |sent|, j);
  }

  /** In advent.py each turn's decision is taken on at most the ten latest
      moves up to that turn, with the notes carried in and no extra instruction. */
  lemma AdventDecidesOnLastTen(t: Template, read: Reader, turns: seq<Turn>,
                               moves: seq<Move>, sent: seq<string>, notes: seq<string>, calls: seq<int>,
                               j: nat)
    requires Recorded(Advent, OracleOf(Advent, t), read, turns, moves, sent, notes, calls)
    requires j < |sent|
    ensures var from := if j + 1 < 10 then 0 else j + 1 - 10;
      GetMove(t, moves[from..j + 1], notes[j], "", turns[j].replies, false).decision
      == Some(Parsed(sent[j], notes[j + 1]))
  {
    DecidedAt(OracleOf(Advent, t), turns, moves, sent, notes, calls, |sent|, j);
    var h := moves[..j + 1];
    WindowIsLatest(h, 10);
    var from := if j + 1 < 10 then 0 else j + 1 - 10;
    assert Window(h, Advent.window) == moves[from..j + 1];
  }

  /** Every command the program sends, with the notes it carries on, is the parse
      of a completion the service returned in that turn; nothing is invented. */
  lemma CommandsComeFromReplies(v: Variant, t: Template, read: Reader, turns: seq<Turn>,
                                moves: seq<Move>, sent: seq<string>, notes: seq<string>, calls: seq<int>,
                                j: nat)
    requires Recorded(v, OracleOf(v, t), read, turns, moves, sent, notes, calls)
    requires j < |sent|
    ensures exists k | 0 <= k < |turns[j].replies| ::
      && turns[j].replies[k].Completion?
      && Parse(turns[j].replies[k].content, v.requireNotes) == Some(Parsed(sent[j], notes[j + 1]))
  {
    DecidedAt(OracleOf(v, t), turns, moves, sent, notes, calls, |sent|, j);
    var h := Window(moves[..j + 1], v.window);
    assert GetMove(t, h, notes[j], "", turns[j].replies, v.requireNotes).decision == Some(Parsed(sent[j], notes[j + 1]));
    DecisionComesFromReply(t, h, notes[j], "", turns[j].replies, v.requireNotes);
  }

  /** The history pairs each turn's output, as `read` returns it, with the command
      sent in the turn before; the opening entry has no command. */
  lemma HistoryPairsCommandsWithOutput(v: Variant, decide: Decider, turns: seq<Turn>,
                                       moves: seq<Move>, sent: seq<string>, notes: seq<string>, calls: seq<int>,
                                       j: nat)
    requires Recorded(v, decide, ReaderOf(v.stripsEcho), turns, moves, sent, notes, calls)
    requires j < |moves|
    ensures moves[j].command == (if j == 0 then "" else sent[j - 1])
    ensures moves[j].result == ReadText(v.stripsEcho, Collected(turns[j].output))
  {
    MovesReadAt(ReaderOf(v.stripsEcho), turns, moves, sent, |moves|, j);
  }

  /** The program's global state: the variant, the prompt template and the oracle
      built from it, the game controller, the handler's one-shot flag, and what
      has been logged. `oracle` and `reader` are the variant's decision and read
      as function values; they hold nothing of their own and keep the
      definitions behind them out of the proofs about the loop. */
  class Program {
    const variant: Variant
    const template: Template
    const oracle: Decider
    const reader: Reader
    const controller: GameController
    var handlingSignal: bool
    var exited: bool
    var transcript: string

    constructor(v: Variant, t: Template)
      ensures variant == v && template == t && oracle == OracleOf(v, t) && reader == ReaderOf(v.stripsEcho)
      ensures fresh(controller) && controller.stripsEcho == v.stripsEcho
      ensures !controller.writing && controller.stdin == "" && controller.running
      ensures !handlingSignal && !exited && transcript == ""
    {
      variant := v;
      template := t;
      oracle := OracleOf(v, t);
      reader := ReaderOf(v.stripsEcho);
      controller := new GameController(v.stripsEcho);
      handlingSignal := false;
      exited := false;
      transcript := "";
    }

    /** `signal_handler`: the first call quits the game, logs the score and exits;
        once the flag is set a call changes nothing, so the quit sequence is sent
        at most once. */
    method SignalHandler(output: seq<ReadResult>)
      requires !controller.writing
      modifies this, controller
      ensures old(handlingSignal) ==> unchanged(this) && unchanged(controller)
      ensures !old(handlingSignal) ==>
        && handlingSignal && exited
        && controller.stdin == old(controller.stdin) + QuitSequence + "\n"
        && !controller.running && !controller.writing
        && transcript == old(transcript) + ReadText(controller.stripsEcho, Collected(output)) + "\n"
    {
      if handlingSignal {
        return;
      }
      handlingSignal := true;
      var score := controller.Stop(output);
      transcript := transcript + score;
      exited := true;
    }

    /** Two interrupts in a row write the quit sequence once. */
    method InterruptTwice(first: seq<ReadResult>, second: seq<ReadResult>)
      requires !controller.writing && !handlingSignal
      modifies this, controller
      ensures controller.stdin == old(controller.stdin) + QuitSequence + "\n"
      ensures handlingSignal && exited && !controller.running
    {
      SignalHandler(first);
      SignalHandler(second);
    }

    /**
     * One turn of `main`'s loop: reads the output, appends the move to the history
     * and logs it, waits for the rate limit after the last call, asks the oracle
     * with the carried notes and, when it decides, sends the command. The turn
     * ends without a command when the replies run out before one is accepted.
     */
    method PlayTurn(turns: seq<Turn>, moves: seq<Move>, sent: seq<string>, notes: seq<string>, calls: seq<int>)
      returns (moves': seq<Move>, sent': seq<string>, notes': seq<string>, calls': seq<int>)
      requires Recorded(variant, oracle, reader, turns, moves, sent, notes, calls)
      requires |sent| == |moves| < |turns|
      requires !exited && !controller.writing && reader == ReaderOf(controller.stripsEcho)
      modifies this, controller
      ensures Recorded(variant, oracle, reader, turns, moves', sent', notes', calls')
      ensures |moves'| == |moves| + 1 && moves' == moves + [moves'[|moves|]]
      ensures sent' == sent || (|sent'| == |sent| + 1 && sent' == sent + [sent'[|sent|]])
      ensures sent' == sent ==> notes' == notes
      ensures sent' == sent <==> oracle(moves', notes[|sent|], turns[|sent|].replies).None?
      ensures controller.stdin == old(controller.stdin) + (if sent' == sent then "" else sent'[|sent|] + "\n")
      ensures transcript == old(transcript) + LogEntry(variant, moves'[|moves|])
      ensures LogAll(variant, moves') == LogAll(variant, moves) + LogEntry(variant, moves'[|moves|])
      ensures Lines(sent') == Lines(sent) + (if sent' == sent then "" else sent'[|sent|] + "\n")
      ensures !controller.writing && controller.running == old(controller.running)
      ensures handlingSignal == old(handlingSignal) && exited == old(exited)
    {
      var k := |moves|;
      var cmd := if k == 0 then "" else sent[k - 1];
      var lastTime := if k == 0 then 0 else calls[k - 1];
      var output := controller.Read(turns[k].output);
      assert output == reader(turns[k].output);
      var move := Move(cmd, output);
      var call := NextCallTime(variant.interval, turns[k].clock, lastTime);
      RecordMove(variant, oracle, reader, turns, moves, sent, notes, calls, move, call);
      moves' := moves + [move];
      assert LogAll(variant, moves') == LogAll(variant, moves) + LogEntry(variant, move);
      transcript := transcript + LogEntry(variant, move);
      calls' := calls + [call];
      var decision := oracle(moves', notes[k], turns[k].replies);
      if decision.None? {
        sent', notes' := sent, notes;
        return;
      }
      RecordDecision(variant, oracle, reader, turns, moves', sent, notes, calls', decision.value);
      sent' := sent + [decision.value.move];
      assert Lines(sent') == Lines(sent) + decision.value.move + "\n";
      Appended(Lines(sent), decision.value.move, "\n");
      notes' := notes + [decision.value.notes];
      controller.Send(decision.value.move);
      Appended(old(controller.stdin), decision.value.move, "\n");
    }

    /**
     * `main`, over a finite run of turns. The run ends after the last turn, or
     * in a turn whose replies run out before one is accepted (the program would
     * keep asking).
     */
    method Run(turns: seq<Turn>) returns (moves: seq<Move>, sent: seq<string>, notes: seq<string>, calls: seq<int>)
      requires !exited && !controller.writing && reader == ReaderOf(controller.stripsEcho)
      modifies this, controller
      ensures Recorded(variant, oracle, reader, turns, moves, sent, notes, calls)
      ensures |moves| == |turns| || |sent| < |moves|
      ensures |turns| > 0 ==> |moves| > 0
      ensures |sent| < |moves| ==>
        oracle(moves, notes[|sent|], turns[|sent|].replies).None?
      ensures controller.stdin == old(controller.stdin) + Lines(sent)
      ensures transcript == old(transcript) + LogAll(variant, moves)
      ensures !controller.writing && controller.running == old(controller.running)
      ensures handlingSignal == old(handlingSignal) && exited == old(exited)
    {
      moves, sent, notes, calls := [], [], [""], [];
      while |moves| < |turns|
        invariant Recorded(variant, oracle, reader, turns, moves, sent, notes, calls)
        invariant |sent| == |moves|
        invariant controller.stdin == old(controller.stdin) + Lines(sent)
        invariant transcript == old(transcript) + LogAll(variant, moves)
        invariant !controller.writing && controller.running == old(controller.running)
        invariant handlingSignal == old(handlingSignal) && exited == old(exited)
        decreases |turns| - |moves|
      {
        var moves', sent', notes', calls' := PlayTurn(turns, moves, sent, notes, calls);
        Appended(old(transcript), LogAll(variant, moves), LogEntry(variant, moves'[|moves|]));
        Appended(old(controller.stdin), Lines(sent), if sent' == sent then "" else sent'[|sent|] + "\n");
        if sent' == sent {
          moves, notes, calls := moves', notes', calls';
          break;
        }
        moves, sent, notes, calls := moves', sent', notes', calls';
      }
    }
  }

  /** Regrouping a concatenation; called where the solver would otherwise have
      to find the regrouping itself. */
  lemma Appended(a: string, b: string, c: string)
    ensures a + (b + c) == a + b + c
  {
  }

  /** A turn's read output, recorded with the command sent before it and the
      time of the turn's oracle call, keeps the record. */
  lemma RecordMove(v: Variant, decide: Decider, read: Reader, turns: seq<Turn>,
                   moves: seq<Move>, sent: seq<string>, notes: seq<string>, calls: seq<int>,
                   move: Move, call: int)
    requires Recorded(v, decide, read, turns, moves, sent, notes, calls)
    requires |sent| == |moves| < |turns|
    requires move == Move(if |moves| == 0 then "" else sent[|sent| - 1],
                          read(turns[|moves|].output))
    requires call == NextCallTime(v.interval, turns[|moves|].clock, if |calls| == 0 then 0 else calls[|calls| - 1])
    ensures Recorded(v, decide, read, turns, moves + [move], sent, notes, calls + [call])
  {
    var moves' := moves + [move];
    var calls' := calls + [call];
    var n := |moves|;
    assert moves'[..|sent|] == moves[..|sent|];
    DecidedFrame(decide, turns, moves, sent, notes, calls, moves', sent, notes, calls', |sent|);
    MovesReadFrame(read, turns, moves, sent, moves', sent, n);
    assert moves'[n] == move;
    TimedFrame(v, turns, calls, calls', n);
    assert calls'[n] == call;
  }

  /** The oracle's decision in the latest turn, recorded as the command sent and
      the notes carried on, keeps the record. */
  lemma RecordDecision(v: Variant, decide: Decider, read: Reader, turns: seq<Turn>,
                       moves: seq<Move>, sent: seq<string>, notes: seq<string>, calls: seq<int>,
                       decision: Parsed)
    requires Recorded(v, decide, read, turns, moves, sent, notes, calls)
    requires |sent| + 1 == |moves|
    requires decide(moves, notes[|sent|], turns[|sent|].replies) == Some(decision)
    ensures Recorded(v, decide, read, turns, moves, sent + [decision.move], notes + [decision.notes], calls)
  {
    var sent' := sent + [decision.move];
    var notes' := notes + [decision.notes];
    var n := |sent|;
    assert sent'[..n] == sent[..n] && notes'[..n + 1] == notes[..n + 1];
    DecidedFrame(decide, turns, moves, sent, notes, calls, moves, sent', notes', calls, n);
    assert moves[..n + 1] == moves;
    assert sent'[n] == decision.move && notes'[n] == notes[n] && notes'[n + 1] == decision.notes;
    MovesReadFrame(read, turns, moves, sent, moves, sent', |moves|);
  }
}
