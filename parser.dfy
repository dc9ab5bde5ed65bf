/**
 * The oracle-response parser of `get_move` (advent.py:124-139, llm.py:92-108).
 *
 * The reply is first stripped of the characters `.,!?` backtick, space and tab
 * at both ends. The move is then found with the Python regular expression
 * `move:((\s*\w+\b)+)$` under `re.ASCII | re.MULTILINE`, searched leftmost
 * first, and its group is whitespace-stripped. The notes are everything after
 * the first `notes:`, whitespace-stripped. The two source files differ only in
 * what a missing `notes:` means, which is the `requireNotes` flag here.
 *
 * The regular expression is modelled the way the matcher runs it
 * (`NextTokenEnd`, `GreedyEnd`, `FindMove`) and proved equal to a declarative
 * reading (`ValidEnd`, `MoveMatchAt`).
 */
module Parser {
  import opened Wrappers
  import opened Text

  /** The accepted decision: the command to send and the notes to carry. */
  datatype Parsed = Parsed(move: string, notes: string)

  const MoveMarker: string := "move:"
  const NotesMarker: string := "notes:"

  /** `$` under `re.MULTILINE`: at the end of the text or just before a newline. */
  predicate AtLineEnd(s: string, e: nat)
    requires e <= |s|
  {
    e == |s| || s[e] == '\n'
  }

  function TrimReply(content: string): string {
    Strip(content, ReplyPunct)
  }

  // ----- the matcher, step by step -----

  /** One iteration of `\s*\w+\b` starting at `p`: where it ends, if it matches.
      `\s*` cannot give back characters (a space is not `\w`) and `\b` forces
      `\w+` to take the whole run of word characters, so the end is unique. */
  function NextTokenEnd(s: string, p: nat): (r: Option<nat>)
    requires p <= |s|
    ensures r.Some? ==> p < r.value <= |s|
  {
    var q := SkipForward(s, p, |s|, RegexSpace);
    if q < |s| && IsWordChar(s[q]) then Some(SkipForward(s, q, |s|, WordChar))
    else None
  }

  /** `(\s*\w+\b)+$` from `p`: the greedy `+` first takes as many iterations as
      it can and then backs off one iteration at a time until `$` holds. */
  function GreedyEnd(s: string, p: nat): Option<nat>
    requires p <= |s|
    decreases |s| - p
  {
    match NextTokenEnd(s, p)
    case None => None
    case Some(r) =>
      var longer := GreedyEnd(s, r);
      if longer.Some? then longer
      else if AtLineEnd(s, r) then Some(r)
      else None
  }

  /** `re.search`: the leftmost `move:` from `i` on at which the whole pattern matches,
      with the end of its group. */
  function FindMove(s: string, i: nat): Option<(nat, nat)>
    requires i <= |s|
    decreases |s| - i
  {
    if OccursAt(s, MoveMarker, i) && GreedyEnd(s, i + |MoveMarker|).Some? then
      Some((i, GreedyEnd(s, i + |MoveMarker|).value))
    else if i == |s| then None
    else FindMove(s, i + 1)
  }

  // ----- the declarative reading -----

  /** A character `(\s*\w+\b)+` can consume. */
  predicate IsTokenChar(c: char) {
    IsWordChar(c) || IsRegexSpace(c)
  }

  /** Every character of `s[p..e]` is a word character or whitespace. */
  ghost predicate TokenChars(s: string, p: nat, e: nat)
    requires p <= e <= |s|
  {
    forall k | p <= k < e :: IsTokenChar(s[k])
  }

  /** `s[p..e]` is a run of one or more word tokens separated by whitespace,
      ending in a word character at a line end: exactly what `(\s*\w+\b)+$` matches. */
  ghost predicate ValidEnd(s: string, p: nat, e: nat) {
    && p < e <= |s|
    && IsWordChar(s[e - 1])
    && AtLineEnd(s, e)
    && TokenChars(s, p, e)
  }

  /** The pattern matches with `move:` at `i` and its group ending at `e`. */
  ghost predicate MoveMatchAt(s: string, i: nat, e: nat) {
    OccursAt(s, MoveMarker, i) && ValidEnd(s, i + |MoveMarker|, e)
  }

  /** The matcher's token step agrees with the declarative reading: no valid end
      lies before the first token ends, and past it the valid ends are those from it. */
  lemma NextTokenEndSpec(s: string, p: nat)
    requires p <= |s|
    ensures NextTokenEnd(s, p).None? ==> forall e: nat :: !ValidEnd(s, p, e)
    ensures NextTokenEnd(s, p).Some? ==>
      var r := NextTokenEnd(s, p).value;
      && (forall e: nat | e < r :: !ValidEnd(s, p, e))
      && (ValidEnd(s, p, r) <==> AtLineEnd(s, r))
      && (forall e: nat | e > r :: ValidEnd(s, p, e) <==> ValidEnd(s, r, e))
  {
    var q := SkipForward(s, p, |s|, RegexSpace);
    if q < |s| && IsWordChar(s[q]) {
      var r := SkipForward(s, q, |s|, WordChar);
      forall e: nat | e < r ensures !ValidEnd(s, p, e) {
        if e <= q {
          assert p < e ==> IsRegexSpace(s[e - 1]);
        } else {
          assert IsWordChar(s[e]);
        }
      }
    } else {
      forall e: nat ensures !ValidEnd(s, p, e) {
        if e <= q {
          assert p < e ==> IsRegexSpace(s[e - 1]);
        } else {
          assert q < |s| ==> !IsWordChar(s[q]) && !IsRegexSpace(s[q]);
        }
      }
    }
  }

  /** The greedy matcher finds a match exactly when some valid end exists, and
      then it returns the last one. */
  lemma {:induction false} GreedyEndSpec(s: string, p: nat)
    requires p <= |s|
    ensures GreedyEnd(s, p).None? ==> forall e: nat :: !ValidEnd(s, p, e)
    ensures GreedyEnd(s, p).Some? ==>
      && ValidEnd(s, p, GreedyEnd(s, p).value)
      && forall e: nat | ValidEnd(s, p, e) :: e <= GreedyEnd(s, p).value
    decreases |s| - p
  {
    NextTokenEndSpec(s, p);
    match NextTokenEnd(s, p)
    case None =>
    case Some(r) =>
      GreedyEndSpec(s, r);
  }

  /** `FindMove` is the leftmost match, and for that marker the longest group. */
  lemma {:induction false} FindMoveSpec(s: string, i: nat)
    requires i <= |s|
    ensures FindMove(s, i).None? ==> forall j: nat, e: nat | i <= j :: !MoveMatchAt(s, j, e)
    ensures FindMove(s, i).Some? ==>
      var (j, e) := FindMove(s, i).value;
      && i <= j && MoveMatchAt(s, j, e)
      && (forall j': nat, e': nat | i <= j' < j :: !MoveMatchAt(s, j', e'))
      && (forall e': nat | MoveMatchAt(s, j, e') :: e' <= e)
    decreases |s| - i
  {
    if OccursAt(s, MoveMarker, i) {
      GreedyEndSpec(s, i + |MoveMarker|);
    }
    if OccursAt(s, MoveMarker, i) && GreedyEnd(s, i + |MoveMarker|).Some? {
    } else if i == |s| {
      forall j: nat, e: nat | i <= j ensures !MoveMatchAt(s, j, e) {
        if j > i { assert !OccursAt(s, MoveMarker, j); }
      }
    } else {
      assert forall e: nat :: !MoveMatchAt(s, i, e);
      var r := FindMove(s, i + 1);
      assert FindMove(s, i) == r;
      FindMoveSpec(s, i + 1);
      if r.Some? {
        var (j, e) := r.value;
        forall j': nat, e': nat | i <= j' < j ensures !MoveMatchAt(s, j', e') {
          if i < j' { assert i + 1 <= j' < j; }
        }
      } else {
        forall j: nat, e: nat | i <= j ensures !MoveMatchAt(s, j, e) {
          if i < j { assert i + 1 <= j; }
        }
      }
    }
  }

  // ----- the parser -----

  /** What an accepted move looks like: non-empty, only word characters and
      whitespace, and starting and ending with a word character. */
  predicate IsMoveText(m: string) {
    && m != [] && IsWordChar(m[0]) && IsWordChar(m[|m| - 1])
    && forall k | 0 <= k < |m| :: IsTokenChar(m[k])
  }

  /**
   * One reply through `get_move`'s parsing. None is the "bad formatting" path
   * that makes the caller ask again. `requireNotes` is false for advent.py,
   * where a missing `notes:` gives "" (advent.py:133-136), and true for llm.py,
   * where it is a rejection (llm.py:101-104). In advent.py an empty group also
   * gives "", which is what stripping an empty remainder gives.
   */
  function Parse(content: string, requireNotes: bool): (r: Option<Parsed>)
    ensures r.Some? ==> IsMoveText(r.value.move)
  {
    ParseTrimmed(TrimReply(content), requireNotes)
  }

  /** The matching and extraction `Parse` does on the trimmed reply `c`. */
  function ParseTrimmed(c: string, requireNotes: bool): (r: Option<Parsed>)
    ensures r.Some? ==> IsMoveText(r.value.move)
  {
    match FindMove(c, 0)
    case None => None
    case Some((i, e)) =>
      FoundMatch(c);
      var mv := GroupMove(c, i + |MoveMarker|, e);
      match FindFrom(c, NotesMarker, 0)
      case None => if requireNotes then None else Some(Parsed(mv, ""))
      case Some(j) => Some(Parsed(mv, PyStrip(c[j + |NotesMarker|..])))
  }

  /** The move a matched group gives: the group, whitespace-stripped. */
  function GroupMove(s: string, p: nat, e: nat): (m: string)
    requires ValidEnd(s, p, e)
    ensures IsMoveText(m)
  {
    GroupStrip(s, p, e);
    PyStrip(s[p..e])
  }

  /** What `Parse` needs of a found match: that it is one. */
  lemma FoundMatch(s: string)
    requires FindMove(s, 0).Some?
    ensures MoveMatchAt(s, FindMove(s, 0).value.0, FindMove(s, 0).value.1)
  {
    FindMoveSpec(s, 0);
  }

  lemma RegexSpaceIsPyWhitespace(c: char)
    requires IsRegexSpace(c)
    ensures IsPyWhitespace(c)
  {
  }

  lemma WordCharIsNotPyWhitespace(c: char)
    requires IsWordChar(c)
    ensures !IsPyWhitespace(c)
  {
  }

  /** Where the move starts inside a group `s[p..e]`: after its leading whitespace. */
  function MoveStart(s: string, p: nat, e: nat): nat
    requires p <= e <= |s|
  {
    SkipForward(s, p, e, RegexSpace)
  }

  /** In a matched group the leading whitespace is followed by a word character. */
  lemma GroupStart(s: string, p: nat, e: nat)
    requires ValidEnd(s, p, e)
    ensures p <= MoveStart(s, p, e) < e && IsWordChar(s[MoveStart(s, p, e)])
    ensures forall k | p <= k < MoveStart(s, p, e) :: IsRegexSpace(s[k])
  {
    var q := MoveStart(s, p, e);
    assert !IsRegexSpace(s[e - 1]);
    assert IsTokenChar(s[q]);
  }

  /** Stripping a text that is whitespace up to a word character and ends in
      one removes exactly that whitespace. */
  lemma StripToWord(g: string, a: nat)
    requires a < |g| && IsWordChar(g[a]) && IsWordChar(g[|g| - 1])
    requires forall k | 0 <= k < a :: IsRegexSpace(g[k])
    ensures PyStrip(g) == g[a..]
  {
    forall k | 0 <= k < a ensures InClass(g[k], PyWhitespace) {
      RegexSpaceIsPyWhitespace(g[k]);
    }
    WordCharIsNotPyWhitespace(g[a]);
    WordCharIsNotPyWhitespace(g[|g| - 1]);
    StripUnique(g, PyWhitespace, a, |g|);
    assert g[a..|g|] == g[a..];
  }

  /** Stripping a matched group removes exactly its leading whitespace. */
  lemma GroupStripped(s: string, p: nat, e: nat, q: nat)
    requires p <= q < e <= |s| && IsWordChar(s[q]) && IsWordChar(s[e - 1])
    requires forall k | p <= k < q :: IsRegexSpace(s[k])
    ensures PyStrip(s[p..e]) == s[q..e]
  {
    var g := s[p..e];
    forall k | 0 <= k < q - p ensures IsRegexSpace(g[k]) {
      assert g[k] == s[p + k];
    }
    assert g[q - p] == s[q] && g[|g| - 1] == s[e - 1];
    StripToWord(g, q - p);
    assert g[q - p..] == s[q..e];
  }

  /** A run of tokens from a word character to a word character is a move text. */
  lemma TokenRunText(s: string, p: nat, q: nat, e: nat)
    requires p <= q < e <= |s| && IsWordChar(s[q]) && IsWordChar(s[e - 1])
    requires TokenChars(s, p, e)
    ensures IsMoveText(s[q..e])
  {
    var m := s[q..e];
    forall k | 0 <= k < |m| ensures IsTokenChar(m[k]) {
      assert m[k] == s[q + k];
    }
    assert m[0] == s[q] && m[|m| - 1] == s[e - 1];
  }

  /** Stripping a matched group only drops its leading `\s*`: the move starts at
      the first word character of the group and runs to the group's end. */
  lemma GroupStrip(s: string, p: nat, e: nat)
    requires ValidEnd(s, p, e)
    ensures MoveStart(s, p, e) < e && PyStrip(s[p..e]) == s[MoveStart(s, p, e)..e]
    ensures IsMoveText(PyStrip(s[p..e]))
  {
    GroupStart(s, p, e);
    var q := MoveStart(s, p, e);
    GroupStripped(s, p, e, q);
    TokenRunText(s, p, q, e);
  }

  // ----- what the parser accepts, stated without the matcher -----

  /** A reply is accepted exactly when, after trimming, some `move:` is followed
      by a valid token run and, for llm.py, `notes:` occurs somewhere. */
  lemma ParseAccepts(content: string, requireNotes: bool)
    ensures var c := TrimReply(content);
      Parse(content, requireNotes).Some? <==>
        (exists i: nat, e: nat :: MoveMatchAt(c, i, e))
        && (requireNotes ==> exists j: nat :: OccursAt(c, NotesMarker, j))
  {
    var c := TrimReply(content);
    FindMoveSpec(c, 0);
    var n := FindFrom(c, NotesMarker, 0);
    if n.Some? { assert OccursAt(c, NotesMarker, n.value); }
  }

  /** An accepted move is the run of tokens after the leftmost matching `move:`,
      for that marker the run reaching the last possible line end, with the
      whitespace after the marker removed. */
  lemma ParseMove(content: string, requireNotes: bool, i: nat, e: nat)
    requires Parse(content, requireNotes).Some?
    requires MoveMatchAt(TrimReply(content), i, e)
    requires forall i': nat, e': nat | i' < i :: !MoveMatchAt(TrimReply(content), i', e')
    requires forall e': nat | MoveMatchAt(TrimReply(content), i, e') :: e' <= e
    ensures MoveStart(TrimReply(content), i + |MoveMarker|, e) < e
    ensures Parse(content, requireNotes).value.move
      == TrimReply(content)[MoveStart(TrimReply(content), i + |MoveMarker|, e)..e]
  {
    var c := TrimReply(content);
    FindMoveSpec(c, 0);
    var (j, f) := FindMove(c, 0).value;
    assert j == i && f == e;
    var p := i + |MoveMarker|;
    GroupStrip(c, p, e);
    var q := MoveStart(c, p, e);
    calc {
      Parse(content, requireNotes).value.move;
      ParseTrimmed(c, requireNotes).value.move;
      GroupMove(c, p, e);
      PyStrip(c[p..e]);
      c[q..e];
    }
  }

  /** The notes: with no `notes:` in the trimmed reply they are "" (advent.py)
      or the reply is rejected (llm.py); otherwise they are the rest of the text
      after the first `notes:`, whitespace-stripped. */
  lemma ParseNotes(content: string, requireNotes: bool)
    requires Parse(content, requireNotes).Some?
    ensures var c := TrimReply(content);
      match FindFrom(c, NotesMarker, 0)
      case None => !requireNotes && Parse(content, requireNotes).value.notes == ""
      case Some(j) => Parse(content, requireNotes).value.notes == PyStrip(c[j + |NotesMarker|..])
  {
  }

  /** The two notes policies accept the same moves; they differ only when `notes:` is missing. */
  lemma PoliciesAgreeOnMove(content: string)
    requires Parse(content, true).Some?
    ensures Parse(content, false) == Parse(content, true)
  {
  }
}
