/**
 * The game process as the controller sees it (`GameController`,
 * advent.py:145-198 and llm.py:114-160): commands written to its input, and
 * its output read in chunks until the first read that yields nothing. The
 * advent.py controller also drops the echoed "> " lines and trims the text.
 */
module Session {
  import opened Wrappers
  import opened Text

  /** One `self.proc.stdout.read()`: some text (possibly empty, at end of file),
      `None` (nothing available on the non-blocking pipe), or a `TypeError`. */
  datatype ReadResult = Data(text: string) | NoData | TypeErr

  /** `if not chunk: break` and `except TypeError: break`. */
  predicate EndsRead(r: ReadResult) {
    !r.Data? || r.text == ""
  }

  /** The text gathered from read `i` on: the chunks up to the first read that
      ends the loop. Running out of reads is the same as `None`. */
  function CollectedFrom(results: seq<ReadResult>, i: nat): string
    requires i <= |results|
    decreases |results| - i
  {
    if i == |results| || EndsRead(results[i]) then "" else results[i].text + CollectedFrom(results, i + 1)
  }

  function Collected(results: seq<ReadResult>): string {
    CollectedFrom(results, 0)
  }

  /** The index of the first read that ends the loop, or |results|. */
  function StopIndex(results: seq<ReadResult>, i: nat): (k: nat)
    requires i <= |results|
    ensures i <= k <= |results|
    ensures forall j | i <= j < k :: !EndsRead(results[j])
    ensures k < |results| ==> EndsRead(results[k])
    decreases |results| - i
  {
    if i == |results| || EndsRead(results[i]) then i else StopIndex(results, i + 1)
  }

  /** The texts of all of `results`, concatenated in order. */
  function Texts(results: seq<ReadResult>): string {
    if results == [] then "" else (if results[0].Data? then results[0].text else "") + Texts(results[1..])
  }

  /** The chunk loop of `read`: the buffer is the chunks up to the first read
      that yields nothing, in order, and the loop stops right there. */
  method ReadChunks(results: seq<ReadResult>) returns (buffer: string, used: nat)
    ensures buffer == Collected(results)
    ensures used == StopIndex(results, 0)
  {
    buffer := "";
    used := 0;
    while used < |results|
      invariant used <= |results|
      invariant forall j | 0 <= j < used :: !EndsRead(results[j])
      invariant buffer + CollectedFrom(results, used) == Collected(results)
      invariant StopIndex(results, used) == StopIndex(results, 0)
      decreases |results| - used
    {
      var r := results[used];
      if EndsRead(r) {
        break;
      }
      buffer := buffer + r.text;
      used := used + 1;
    }
  }

  /** The buffer is exactly the concatenation of the chunks before the first read
      that ends the loop; nothing read after it contributes. */
  lemma {:induction false} CollectedIsPrefixTexts(results: seq<ReadResult>, i: nat)
    requires i <= |results|
    ensures CollectedFrom(results, i) == Texts(results[i..StopIndex(results, i)])
    decreases |results| - i
  {
    var k := StopIndex(results, i);
    if i < k {
      CollectedIsPrefixTexts(results, i + 1);
      assert results[i..k][1..] == results[i + 1..k];
    } else {
      assert results[i..k] == [];
    }
  }

  /** Reads that come after the first empty one are never looked at. */
  lemma {:induction false} CollectedIgnoresLater(results: seq<ReadResult>, later: seq<ReadResult>, i: nat)
    requires i <= |results|
    requires StopIndex(results, i) < |results|
    ensures CollectedFrom(results + later, i) == CollectedFrom(results, i)
    decreases |results| - i
  {
    assert (results + later)[i] == results[i];
    if !EndsRead(results[i]) {
      CollectedIgnoresLater(results, later, i + 1);
    }
  }

  /** A line the game echoed as its prompt. */
  predicate IsEcho(line: string) {
    StartsWith(line, "> ")
  }

  /** The lines that are not echoes, in their original order. */
  function KeepNonEcho(lines: seq<string>): (r: seq<string>)
    ensures |r| <= |lines|
    ensures forall k | 0 <= k < |r| :: !IsEcho(r[k])
    decreases |lines|
  {
    if lines == [] then []
    else
      var last := lines[|lines| - 1];
      KeepNonEcho(lines[..|lines| - 1]) + (if IsEcho(last) then [] else [last])
  }

  /** Filtering works line by line: the filtered concatenation is the
      concatenation of the filtered parts. */
  lemma {:induction false} KeepNonEchoConcat(a: seq<string>, b: seq<string>)
    ensures KeepNonEcho(a + b) == KeepNonEcho(a) + KeepNonEcho(b)
    decreases |b|
  {
    if b == [] {
      assert a + b == a;
    } else {
      var b' := b[..|b| - 1];
      assert (a + b)[..|a + b| - 1] == a + b';
      KeepNonEchoConcat(a, b');
    }
  }

  /** Every line that is not an echo survives the filter. */
  lemma {:induction false} KeepNonEchoKeeps(lines: seq<string>, k: nat)
    requires k < |lines| && !IsEcho(lines[k])
    ensures lines[k] in KeepNonEcho(lines)
    decreases |lines|
  {
    if k < |lines| - 1 {
      KeepNonEchoKeeps(lines[..|lines| - 1], k);
    }
  }

  /** Every surviving line is one of the input lines. */
  lemma {:induction false} KeepNonEchoFrom(lines: seq<string>, x: string)
    requires x in KeepNonEcho(lines)
    ensures x in lines && !IsEcho(x)
    decreases |lines|
  {
    var init := lines[..|lines| - 1];
    if x in KeepNonEcho(init) {
      KeepNonEchoFrom(init, x);
    }
  }

  /** `'\n'.join(...).strip()` over the kept lines of `buffer.split('\n')`. */
  function EchoStripped(buffer: string): string {
    PyStrip(Join(KeepNonEcho(Split(buffer, '\n')), "\n"))
  }

  /** The echo-stripping loop of advent.py's `read`. */
  method StripEcho(buffer: string) returns (out: string)
    ensures out == EchoStripped(buffer)
  {
    var lines := Split(buffer, '\n');
    var kept: seq<string> := [];
    for i := 0 to |lines|
      invariant kept == KeepNonEcho(lines[..i])
    {
      assert lines[..i + 1][..i] == lines[..i];
      if !IsEcho(lines[i]) {
        kept := kept + [lines[i]];
      }
    }
    assert lines[..|lines|] == lines;
    out := PyStrip(Join(kept, "\n"));
  }

  /** Text with no line break and no echo prefix comes through apart from trimming. */
  lemma SingleLineKept(line: string)
    requires '\n' !in line && !IsEcho(line)
    ensures EchoStripped(line) == PyStrip(line)
  {
    assert IndexOf(line, '\n').None?;
    assert Split(line, '\n') == [line];
    assert KeepNonEcho([line]) == KeepNonEcho([]) + [line];
  }

  /** Output made only of echoed lines reads as nothing. */
  lemma {:induction false} AllEchoReadsEmpty(buffer: string)
    requires forall k | 0 <= k < |Split(buffer, '\n')| :: IsEcho(Split(buffer, '\n')[k])
    ensures EchoStripped(buffer) == ""
  {
    var lines := Split(buffer, '\n');
    var r := KeepNonEcho(lines);
    if r != [] {
      KeepNonEchoFrom(lines, r[0]);
      assert false;
    }
  }

  /** What `read` returns for a buffer: the buffer itself (llm.py) or its
      echo-stripped text (advent.py). */
  function ReadText(stripsEcho: bool, buffer: string): string {
    if stripsEcho then EchoStripped(buffer) else buffer
  }

  const QuitSequence: string := "quit\nyes"

  /** The game process: what has been written to its input, whether a write is
      under way, and whether it has been terminated. */
  class GameController {
    const stripsEcho: bool
    var writing: bool
    var stdin: string
    var running: bool

    constructor(stripsEcho: bool)
      ensures this.stripsEcho == stripsEcho
      ensures !writing && stdin == "" && running
    {
      this.stripsEcho := stripsEcho;
      writing := false;
      stdin := "";
      running := true;
    }

    /** `send`: writes the command and a newline and clears `writing` again.
        Writes happen one at a time, so `writing` is clear on entry. */
    method Send(cmd: string)
      requires !writing
      modifies this
      ensures stdin == old(stdin) + cmd + "\n"
      ensures !writing && running == old(running)
    {
      writing := true;
      stdin := stdin + cmd + "\n";
      writing := false;
    }

    /** `read`: gathers the available output and, in the advent.py variant,
        strips the echoes. */
    method Read(results: seq<ReadResult>) returns (out: string)
      ensures out == ReadText(stripsEcho, Collected(results))
    {
      var buffer, _ := ReadChunks(results);
      if stripsEcho {
        out := StripEcho(buffer);
      } else {
        out := buffer;
      }
    }

    /** `stop`: sends the quit sequence, returns the final score, terminates the game. */
    method Stop(results: seq<ReadResult>) returns (score: string)
      requires !writing
      modifies this
      ensures stdin == old(stdin) + QuitSequence + "\n"
      ensures score == ReadText(stripsEcho, Collected(results)) + "\n"
      ensures !writing && !running
    {
      Send(QuitSequence);
      var text := Read(results);
      running := false;
      score := text + "\n";
    }
  }
}
