/**
 * The game history: one `Move` per turn, how a move is rendered for the
 * prompt (`Move.__str__`, advent.py:95-98), how the history is joined
 * (advent.py:105), and which part of it the oracle sees (`moves[-10:]` in
 * advent.py:233, the whole list in llm.py:194).
 */
module History {
  import opened Wrappers
  import opened Text

  /** A turn: the command that was sent (empty for the opening turn) and the
      game's output after it. */
  datatype Move = Move(command: string, result: string)

  const EchoPrefix: string := "> "
  const MoveSeparator: string := "\n\n"

  /** `Move.__str__`: the result alone for the opening move, otherwise the
      command echoed after "> ", a blank line, and the result. */
  function Render(m: Move): string {
    if m.command == "" then m.result
    else EchoPrefix + m.command + MoveSeparator + m.result
  }

  /** `s` contains a blank line. */
  predicate HasBlankLine(s: string) {
    FindFrom(s, MoveSeparator, 0).Some?
  }

  /** A command whose end a rendering still shows: it has no blank line in it
      and does not end in a newline, so the first blank line after it is the
      separator. */
  predicate Delimited(cmd: string) {
    !HasBlankLine(cmd) && (cmd == "" || cmd[|cmd| - 1] != '\n')
  }

  /** The text before the first blank line has no blank line in it. */
  lemma BeforeFirstBlankLine(s: string, i: nat)
    requires FindFrom(s, MoveSeparator, 0) == Some(i)
    ensures !HasBlankLine(s[..i])
  {
    forall j: nat ensures !OccursAt(s[..i], MoveSeparator, j) {
      if j + 2 <= i {
        assert s[..i][j..j + 2] == s[j..j + 2];
        assert !OccursAt(s, MoveSeparator, j);
      }
    }
  }

  /** Reading a rendered move back: text that starts with "> " is cut at its
      first blank line into the command and the result; anything else is an
      opening move. Whatever it returns renders as the text it was given. */
  function Unrender(s: string): (m: Move)
    ensures Render(m) == s
    ensures Delimited(m.command)
  {
    if !StartsWith(s, EchoPrefix) then Move("", s)
    else
      var body := s[|EchoPrefix|..];
      match FindFrom(body, MoveSeparator, 0)
      case None => Move("", s)
      case Some(i) =>
        if i == 0 then Move("", s)
        else
          assert body[i..i + 2] == MoveSeparator;
          assert s == EchoPrefix + body[..i] + MoveSeparator + body[i + 2..];
          BeforeFirstBlankLine(body, i);
          assert !OccursAt(body, MoveSeparator, i - 1);
          Move(body[..i], body[i + 2..])
  }

  /** Rendering loses nothing for a command the rendering still delimits, and
      for an opening move whose output does not itself look like an echoed
      command. With Unrender's own ensures, Render and Unrender are inverse
      on these moves in both directions. */
  lemma RenderRoundTrip(m: Move)
    requires m.command != "" ==> Delimited(m.command)
    requires m.command == "" ==> !StartsWith(m.result, EchoPrefix)
    ensures Unrender(Render(m)) == m
  {
    var c := m.command;
    if c != "" {
      var s := Render(m);
      var body := s[|EchoPrefix|..];
      assert body == c + MoveSeparator + m.result;
      assert OccursAt(body, MoveSeparator, |c|);
      forall j | 0 <= j < |c| ensures !OccursAt(body, MoveSeparator, j) {
        if j + 2 <= |c| {
          assert body[j..j + 2] == c[j..j + 2];
          assert !OccursAt(c, MoveSeparator, j);
        } else {
          assert body[j..j + 2][0] == body[j] == c[|c| - 1] != '\n';
        }
      }
      assert FindFrom(body, MoveSeparator, 0) == Some(|c|);
      assert body[..|c|] == c;
      assert body[|c| + 2..] == m.result;
    }
  }

  /** A command with a blank line in it renders exactly like a shorter command
      whose result carries the rest, so no reading of the history can tell the
      two moves apart. */
  lemma BlankLineIsAmbiguous(a: string, b: string, c: string)
    requires a != ""
    ensures Move(a + MoveSeparator + b, c) != Move(a, b + MoveSeparator + c)
    ensures Render(Move(a + MoveSeparator + b, c)) == Render(Move(a, b + MoveSeparator + c))
  {
    assert |a + MoveSeparator + b| != |a|;
    assert EchoPrefix + (a + MoveSeparator + b) + MoveSeparator + c
        == EchoPrefix + a + MoveSeparator + (b + MoveSeparator + c);
  }

  /** The rendered moves, one string per move. */
  function Renders(moves: seq<Move>): (r: seq<string>)
    ensures |r| == |moves|
    ensures forall k | 0 <= k < |moves| :: r[k] == Render(moves[k])
  {
    if moves == [] then [] else [Render(moves[0])] + Renders(moves[1..])
  }

  /** `'\n\n'.join(map(str, moves))`. */
  function RenderAll(moves: seq<Move>): string {
    Join(Renders(moves), MoveSeparator)
  }

  /** Appending a move appends a blank line and its rendering. */
  lemma RenderAllSnoc(moves: seq<Move>, m: Move)
    requires moves != []
    ensures RenderAll(moves + [m]) == RenderAll(moves) + MoveSeparator + Render(m)
  {
    assert Renders(moves + [m]) == Renders(moves) + [Render(m)];
    JoinSnoc(Renders(moves), Render(m), MoveSeparator);
  }

  /** The joined history cannot be read back in general, even when every
      command is one line: a result that holds a blank line and a "> " line
      reads like one more move. */
  lemma ResultCanHideMove(first: Move, x: string, b: string, y: string, c: string)
    requires x != "" && y != ""
    ensures var hidden := Move(x, b + MoveSeparator + EchoPrefix + y + MoveSeparator + c);
      && [first, hidden] != [first, Move(x, b), Move(y, c)]
      && RenderAll([first, hidden]) == RenderAll([first, Move(x, b), Move(y, c)])
  {
    var hidden := Move(x, b + MoveSeparator + EchoPrefix + y + MoveSeparator + c);
    var two := [first, hidden];
    var three := [first, Move(x, b), Move(y, c)];
    var r2 := Renders(two);
    var r3 := Renders(three);
    assert r2 == [Render(first), Render(hidden)];
    assert r3 == [Render(first), Render(Move(x, b)), Render(Move(y, c))];
    assert Join(r2[1..], MoveSeparator) == Render(hidden);
    assert Join(r3[1..][1..], MoveSeparator) == Render(Move(y, c));
    assert Join(r3[1..], MoveSeparator) == Render(Move(x, b)) + MoveSeparator + Render(Move(y, c));
    assert RenderAll(two) == Render(first) + MoveSeparator + Render(hidden);
    assert RenderAll(three) == Render(first) + MoveSeparator + (Render(Move(x, b)) + MoveSeparator + Render(Move(y, c)));
    assert Render(hidden) == Render(Move(x, b)) + MoveSeparator + Render(Move(y, c));
  }

  /** Python's `h[start:]`, including negative starts counted from the end. */
  function SliceFrom<T>(h: seq<T>, start: int): (r: seq<T>)
    ensures |r| <= |h| && r == h[|h| - |r|..]
  {
    if start < 0 then (if |h| + start < 0 then h else h[|h| + start..])
    else if start > |h| then []
    else h[start..]
  }

  /** The moves handed to the oracle: `moves[-n:]` with a limit, all of them without. */
  function Window(h: seq<Move>, limit: Option<nat>): seq<Move> {
    match limit
    case None => h
    case Some(n) => SliceFrom(h, -(n as int))
  }

  /** With a positive limit the oracle sees the last min(limit, |h|) moves, in order. */
  lemma WindowIsLatest(h: seq<Move>, n: nat)
    requires n > 0
    ensures var w := Window(h, Some(n));
      && |w| == (if |h| < n then |h| else n)
      && w == h[|h| - |w|..]
  {
    if |h| >= n {
      assert Window(h, Some(n)) == h[|h| - n..];
    }
  }

  /** Once the window is full, a new move pushes out the oldest one. */
  lemma WindowEvicts(h: seq<Move>, m: Move, n: nat)
    requires 0 < n <= |h|
    ensures Window(h + [m], Some(n)) == Window(h, Some(n))[1..] + [m]
  {
    var w := Window(h, Some(n));
    assert w == h[|h| - n..];
    assert (h + [m])[|h| + 1 - n..] == h[|h| - n + 1..] + [m];
  }

  /** Until the window is full, a new move is added to it and nothing leaves. */
  lemma WindowGrows(h: seq<Move>, m: Move, n: nat)
    requires |h| < n
    ensures Window(h + [m], Some(n)) == Window(h, Some(n)) + [m]
  {
  }
}
