/**
 * What the parser does with the reply shapes the prompts ask for, and with
 * two shapes they do not: a reply on one line, and a move that runs over
 * several lines.
 */
module ParserExamples {
  import opened Wrappers
  import opened Text
  import opened Parser

  predicate AllWordChars(m: string) {
    forall k | 0 <= k < |m| :: IsWordChar(m[k])
  }

  /** Trimming removes exactly the punctuation wrapped around the reply. */
  lemma TrimsTo(pre: string, c: string, post: string)
    requires forall k | 0 <= k < |pre| :: IsReplyPunct(pre[k])
    requires forall k | 0 <= k < |post| :: IsReplyPunct(post[k])
    requires c != [] && !IsReplyPunct(c[0]) && !IsReplyPunct(c[|c| - 1])
    ensures TrimReply(pre + c + post) == c
  {
    var raw := pre + c + post;
    assert raw[|pre|..|pre| + |c|] == c;
    forall k | |pre| + |c| <= k < |raw| ensures IsReplyPunct(raw[k]) {
      assert raw[k] == post[k - |pre| - |c|];
    }
    StripUnique(raw, ReplyPunct, |pre|, |pre| + |c|);
  }

  /** Stripping one leading space off a word gives the word. */
  lemma StripLeadingSpace(w: string)
    requires w != [] && !IsPyWhitespace(w[0]) && !IsPyWhitespace(w[|w| - 1])
    ensures PyStrip(" " + w) == w
  {
    StripUnique(" " + w, PyWhitespace, 1, |w| + 1);
    assert (" " + w)[1..] == w;
  }

  /** In "move: M\nnotes:..." the group of the leftmost match is " M". */
  lemma TwoLineGroup(m: string, rest: string)
    requires m != [] && AllWordChars(m)
    ensures FindMove(MoveMarker + " " + m + "\n" + NotesMarker + rest, 0) == Some((0, |m| + 6))
  {
    var c := MoveMarker + " " + m + "\n" + NotesMarker + rest;
    var L := |m| + 6;
    assert c[..5] == MoveMarker;
    assert c[5] == ' ' && c[L] == '\n' && c[L + 6] == ':';
    forall k | 6 <= k < L ensures c[k] == m[k - 6] {
    }
    assert forall k | 5 <= k < L :: IsTokenChar(c[k]);
    assert ValidEnd(c, 5, L);
    forall e: nat | L < e ensures !ValidEnd(c, 5, e) {
      if e <= L + 6 {
        assert e < |c| && c[e] != '\n' by {
          assert c[L + 1..L + 7] == "notes:";
        }
      } else {
        assert !IsTokenChar(c[L + 6]);
      }
    }
    GreedyEndSpec(c, 5);
    assert OccursAt(c, MoveMarker, 0);
  }

  /** In "move: M\nnotes:..." the first `notes:` is the one on the second line. */
  lemma TwoLineNotes(m: string, rest: string)
    requires AllWordChars(m)
    ensures FindFrom(MoveMarker + " " + m + "\n" + NotesMarker + rest, NotesMarker, 0) == Some(|m| + 7)
  {
    var c := MoveMarker + " " + m + "\n" + NotesMarker + rest;
    var L := |m| + 6;
    assert c[L + 1..L + 7] == NotesMarker;
    assert OccursAt(c, NotesMarker, L + 1);
    forall j: nat | j < L + 1 ensures !OccursAt(c, NotesMarker, j) {
      if 6 <= j + 5 < L {
        assert c[j + 5] == m[j - 1];
      }
      assert c[j + 5] != ':';
      if j + 6 <= |c| { assert c[j..j + 6][5] == c[j + 5]; }
    }
    var r := FindFrom(c, NotesMarker, 0);
    assert r.Some?;
    assert r.value == L + 1;
  }

  /** A reply that neither starts nor ends with trimmed punctuation is its own trimmed form. */
  lemma Untrimmed(c: string)
    requires c != [] && !IsReplyPunct(c[0]) && !IsReplyPunct(c[|c| - 1])
    ensures TrimReply(c) == c
  {
    StripUnique(c, ReplyPunct, 0, |c|);
  }

  /** A reply that is its own trimmed form is matched as it is. */
  lemma ParseOfTrimmed(c: string, requireNotes: bool)
    requires TrimReply(c) == c
    ensures Parse(c, requireNotes) == ParseTrimmed(c, requireNotes)
  {
  }

  /** `ParseTrimmed` unfolded when the match and `notes:` are known. */
  lemma ParseWithNotes(c: string, requireNotes: bool, i: nat, e: nat, j: nat, mv: string, notes: string)
    requires i + |MoveMarker| <= e <= |c| && FindMove(c, 0) == Some((i, e))
    requires PyStrip(c[i + |MoveMarker|..e]) == mv
    requires j + |NotesMarker| <= |c| && FindFrom(c, NotesMarker, 0) == Some(j)
    requires PyStrip(c[j + |NotesMarker|..]) == notes
    ensures ParseTrimmed(c, requireNotes) == Some(Parsed(mv, notes))
  {
    FoundMatch(c);
    assert GroupMove(c, i + |MoveMarker|, e) == mv;
  }

  /** The facts about a reply `c` that fix what `Parse` makes of it: nothing to
      trim, the match, the move its group strips to, the first `notes:` and
      the notes after it. */
  predicate KnownReply(c: string, i: nat, e: nat, j: nat, mv: string, notes: string) {
    && c != [] && !IsReplyPunct(c[0]) && !IsReplyPunct(c[|c| - 1])
    && i + |MoveMarker| <= e <= |c| && FindMove(c, 0) == Some((i, e))
    && PyStrip(c[i + |MoveMarker|..e]) == mv
    && j + |NotesMarker| <= |c| && FindFrom(c, NotesMarker, 0) == Some(j)
    && PyStrip(c[j + |NotesMarker|..]) == notes
  }

  /** Parse of a known reply wrapped in trimmed punctuation. */
  lemma ParseWrappedWithNotes(pre: string, c: string, post: string, requireNotes: bool,
                              i: nat, e: nat, j: nat, mv: string, notes: string)
    requires forall k | 0 <= k < |pre| :: IsReplyPunct(pre[k])
    requires forall k | 0 <= k < |post| :: IsReplyPunct(post[k])
    requires KnownReply(c, i, e, j, mv, notes)
    ensures Parse(pre + c + post, requireNotes) == Some(Parsed(mv, notes))
  {
    ParseWithNotes(c, requireNotes, i, e, j, mv, notes);
    Untrimmed(c);
    ParseOfTrimmed(c, requireNotes);
    TrimsTo(pre, c, post);
    SameTrim(pre + c + post, c, requireNotes);
  }

  /** `ParseTrimmed` unfolded when the match is known and there is no `notes:`. */
  lemma ParseWithoutNotes(c: string, i: nat, e: nat, mv: string)
    requires i + |MoveMarker| <= e <= |c| && FindMove(c, 0) == Some((i, e))
    requires PyStrip(c[i + |MoveMarker|..e]) == mv
    requires FindFrom(c, NotesMarker, 0).None?
    ensures ParseTrimmed(c, false) == Some(Parsed(mv, ""))
  {
    FoundMatch(c);
    assert GroupMove(c, i + |MoveMarker|, e) == mv;
  }

  /** A reply whose trimmed form has no match is rejected. */
  lemma ParseNoMatch(content: string, requireNotes: bool, c: string)
    requires TrimReply(content) == c && FindMove(c, 0).None?
    ensures Parse(content, requireNotes).None?
  {
  }

  /** Parsing depends on the reply only through its trimmed form. */
  lemma SameTrim(x: string, y: string, requireNotes: bool)
    requires TrimReply(x) == TrimReply(y)
    ensures Parse(x, requireNotes) == Parse(y, requireNotes)
  {
  }

  /** The group " M" strips to M. */
  lemma TwoLineMoveText(m: string, rest: string)
    requires m != [] && AllWordChars(m)
    ensures PyStrip((MoveMarker + " " + m + "\n" + NotesMarker + rest)[|MoveMarker|..|m| + 6]) == m
  {
    var c := MoveMarker + " " + m + "\n" + NotesMarker + rest;
    assert c[5..|m| + 6] == " " + m;
    assert IsWordChar(m[0]) && IsWordChar(m[|m| - 1]);
    WordCharIsNotPyWhitespace(m[0]);
    WordCharIsNotPyWhitespace(m[|m| - 1]);
    StripLeadingSpace(m);
  }

  /** What follows `notes:` is the rest of the reply. */
  lemma TwoLineRest(m: string, rest: string)
    ensures (MoveMarker + " " + m + "\n" + NotesMarker + rest)[|m| + 7 + |NotesMarker|..] == rest
  {
  }

  /** The two-line reply has nothing to trim at either end. */
  lemma TwoLineEnds(m: string, rest: string)
    requires rest == [] || !IsReplyPunct(rest[|rest| - 1])
    ensures var c := MoveMarker + " " + m + "\n" + NotesMarker + rest;
      c != [] && !IsReplyPunct(c[0]) && !IsReplyPunct(c[|c| - 1])
  {
    var c := MoveMarker + " " + m + "\n" + NotesMarker + rest;
    assert c[0] == 'm';
    if rest == [] {
      assert c[|c| - 1] == ':';
    } else {
      assert c[|c| - 1] == rest[|rest| - 1];
    }
  }

  /** Everything `Parse` needs to know about the two-line reply. */
  lemma TwoLineKnown(m: string, rest: string)
    requires m != [] && AllWordChars(m)
    requires rest == [] || !IsReplyPunct(rest[|rest| - 1])
    ensures KnownReply(MoveMarker + " " + m + "\n" + NotesMarker + rest,
                       0, |m| + 6, |m| + 7, m, PyStrip(rest))
  {
    TwoLineGroup(m, rest);
    TwoLineMoveText(m, rest);
    TwoLineNotes(m, rest);
    TwoLineRest(m, rest);
    TwoLineEnds(m, rest);
  }

  /** "move: M" and "notes:..." on two lines, wrapped in any trimmed punctuation,
      parse under both notes policies to M and the stripped text after `notes:`,
      for any one-word move and any notes text that does not end in trimmed
      punctuation. This is the output format in advent.py's prompt
      (advent.py:62-66), with a one-word move. */
  lemma TwoLineReply(pre: string, m: string, rest: string, post: string, requireNotes: bool)
    requires forall k | 0 <= k < |pre| :: IsReplyPunct(pre[k])
    requires forall k | 0 <= k < |post| :: IsReplyPunct(post[k])
    requires m != [] && AllWordChars(m)
    requires rest == [] || !IsReplyPunct(rest[|rest| - 1])
    ensures Parse(pre + (MoveMarker + " " + m + "\n" + NotesMarker + rest) + post, requireNotes)
      == Some(Parsed(m, PyStrip(rest)))
  {
    var c := MoveMarker + " " + m + "\n" + NotesMarker + rest;
    TwoLineKnown(m, rest);
    ParseWrappedWithNotes(pre, c, post, requireNotes, 0, |m| + 6, |m| + 7, m, PyStrip(rest));
  }

  /** In "move: M notes: N" with no newline and no other colon, nothing matches. */
  lemma OneLineNoMatch(m: string, n: string)
    requires m != [] && forall k | 0 <= k < |m| :: IsTokenChar(m[k]) && m[k] != '\n'
    requires ':' !in n && '\n' !in n
    ensures forall i: nat, e: nat ::
      !MoveMatchAt(MoveMarker + " " + m + " " + NotesMarker + " " + n, i, e)
  {
    var c := MoveMarker + " " + m + " " + NotesMarker + " " + n;
    var C := |m| + 12;
    assert c[C - 5..C + 1] == NotesMarker;
    forall k | 0 <= k < |c| ensures c[k] != '\n' && (c[k] == ':' ==> k == 4 || k == C) {
      if 6 <= k < |m| + 6 { assert c[k] == m[k - 6]; }
      if C < k { assert c[k] == (" " + n)[k - C - 1]; }
    }
    forall i: nat, e: nat ensures !MoveMatchAt(c, i, e) {
      if i == 0 {
        if e < |c| {
          assert c[e] != '\n';
        } else {
          assert !IsTokenChar(c[C]);
        }
      } else if i + 5 <= |c| {
        assert c[i..i + 5][4] == c[i + 4];
        assert c[i..i + 5][0] == c[i];
        assert c[C - 4] == 'o';
      }
    }
  }

  /** A reply with the move and the notes on one line is rejected under both
      policies: the move must end at a line end, and here the word `notes` and
      its colon follow it. */
  lemma OneLineReplyRejected(m: string, n: string, requireNotes: bool)
    requires m != [] && forall k | 0 <= k < |m| :: IsTokenChar(m[k]) && m[k] != '\n'
    requires n != [] && !IsReplyPunct(n[|n| - 1]) && ':' !in n && '\n' !in n
    ensures Parse(MoveMarker + " " + m + " " + NotesMarker + " " + n, requireNotes).None?
  {
    var c := MoveMarker + " " + m + " " + NotesMarker + " " + n;
    OneLineNoMatch(m, n);
    FindMoveSpec(c, 0);
    assert c[0] == 'm' && c[|c| - 1] == n[|n| - 1];
    Untrimmed(c);
    ParseNoMatch(c, requireNotes, c);
  }

  /** A one-line reply whose notes carry a later `move:` followed only by words. */
  const LaterMarkerReply: string := "move: go notes: x move: y"

  /** The later marker matches, to the end of the reply. */
  lemma LaterMarkerMatchAt()
    ensures MoveMatchAt(LaterMarkerReply, 18, 25)
  {
    var c := LaterMarkerReply;
    assert c[18..23] == MoveMarker;
    assert IsTokenChar(c[23]) && IsTokenChar(c[24]);
  }

  /** The first marker does not match: the `:` of `notes:` ends the token run
      before any line end. */
  lemma LaterMarkerFirstFails(e: nat)
    ensures !MoveMatchAt(LaterMarkerReply, 0, e)
  {
    var c := LaterMarkerReply;
    if e < 25 {
      assert c[e] != '\n';
    } else if e == 25 {
      assert !IsTokenChar(c[14]);
    }
  }

  /** No other `move:` lies between the two. */
  lemma LaterMarkerNoneBetween(j: nat)
    requires 0 < j < 18
    ensures !OccursAt(LaterMarkerReply, MoveMarker, j)
  {
    var c := LaterMarkerReply;
    if j == 10 {
      assert c[10..15][0] == c[10] == 'o';
    } else {
      assert c[j..j + 5][4] == c[j + 4] != ':';
    }
  }

  /** `re.search` skips the first marker and matches at the second. */
  lemma LaterMarkerFound()
    ensures FindMove(LaterMarkerReply, 0) == Some((18, 25))
  {
    LaterMarkerMatchAt();
    forall j: nat, e: nat | j < 18 ensures !MoveMatchAt(LaterMarkerReply, j, e) {
      if j == 0 { LaterMarkerFirstFails(e); } else { LaterMarkerNoneBetween(j); }
    }
    FindMoveSpec(LaterMarkerReply, 0);
    var r := FindMove(LaterMarkerReply, 0);
    assert r.Some?;
    var (j, e) := r.value;
    assert MoveMatchAt(LaterMarkerReply, j, e);
    assert j == 18;
    assert e <= 25 && e >= 25;
  }

  /** The first `notes:` is the one after "go". */
  lemma LaterMarkerNotes()
    ensures FindFrom(LaterMarkerReply, NotesMarker, 0) == Some(9)
  {
    var c := LaterMarkerReply;
    assert c[9] == 'n' && c[10] == 'o' && c[11] == 't' && c[12] == 'e' && c[13] == 's' && c[14] == ':';
    assert c[9..15] == NotesMarker;
    forall j: nat | j < 9 ensures !OccursAt(c, NotesMarker, j) {
      assert c[j..j + 6][5] == c[j + 5] != ':';
    }
  }

  /** Everything `Parse` needs to know about that reply. */
  lemma LaterMarkerKnown()
    ensures KnownReply(LaterMarkerReply, 18, 25, 9, "y", "x move: y")
  {
    var c := LaterMarkerReply;
    LaterMarkerFound();
    LaterMarkerNotes();
    LaterMarkerTexts();
    assert !IsReplyPunct(c[0]) && !IsReplyPunct(c[24]);
  }

  /** The group strips to "y" and the text after `notes:` to "x move: y". */
  lemma LaterMarkerTexts()
    ensures PyStrip(LaterMarkerReply[23..25]) == "y"
    ensures PyStrip(LaterMarkerReply[15..]) == "x move: y"
  {
    var c := LaterMarkerReply;
    assert c[23..25] == " " + "y";
    StripLeadingSpace("y");
    assert c[15..] == " " + "x move: y";
    StripLeadingSpace("x move: y");
  }

  /** A one-line reply is accepted when a later `move:` on the line is followed
      only by words: the move is taken from that marker, and the notes run from
      the first `notes:` to the end, later marker included. */
  lemma LaterMarkerAccepted(requireNotes: bool)
    ensures Parse(LaterMarkerReply, requireNotes) == Some(Parsed("y", "x move: y"))
  {
    LaterMarkerKnown();
    ParseWrappedWithNotes("", LaterMarkerReply, "", requireNotes, 18, 25, 9, "y", "x move: y");
    assert "" + LaterMarkerReply + "" == LaterMarkerReply;
  }

  /** ASCII `\s` includes the newline, so words on the lines after the move join
      it: "move: A\nB" gives the move "A\nB", which the controller then sends
      as two lines. */
  lemma MoveSpansLines(a: string, b: string)
    requires a != [] && AllWordChars(a) && b != [] && AllWordChars(b)
    ensures Parse(MoveMarker + " " + a + "\n" + b, false) == Some(Parsed(a + "\n" + b, ""))
  {
    var c := MoveMarker + " " + a + "\n" + b;
    SpanGroup(a, b);
    SpanNoNotes(a, b);
    SpanMoveText(a, b);
    assert c[0] == 'm' && c[|c| - 1] == b[|b| - 1];
    ParseWithoutNotes(c, 0, |c|, a + "\n" + b);
    Untrimmed(c);
    ParseOfTrimmed(c, false);
  }

  /** The group " A\nB" strips to "A\nB". */
  lemma SpanMoveText(a: string, b: string)
    requires a != [] && AllWordChars(a) && b != [] && AllWordChars(b)
    ensures var c := MoveMarker + " " + a + "\n" + b;
      PyStrip(c[|MoveMarker|..|c|]) == a + "\n" + b
  {
    var c := MoveMarker + " " + a + "\n" + b;
    var g := a + "\n" + b;
    assert c[5..|c|] == " " + g;
    assert g[0] == a[0] && g[|g| - 1] == b[|b| - 1];
    WordCharIsNotPyWhitespace(g[0]);
    WordCharIsNotPyWhitespace(g[|g| - 1]);
    StripLeadingSpace(g);
  }

  /** In "move: A\nB" the group runs to the end of the text. */
  lemma SpanGroup(a: string, b: string)
    requires a != [] && AllWordChars(a) && b != [] && AllWordChars(b)
    ensures var c := MoveMarker + " " + a + "\n" + b;
      FindMove(c, 0) == Some((0, |c|))
  {
    var c := MoveMarker + " " + a + "\n" + b;
    assert c[..5] == MoveMarker;
    forall k | 5 <= k < |c| ensures IsTokenChar(c[k]) {
      if 6 <= k < |a| + 6 { assert c[k] == a[k - 6]; }
      if |a| + 6 < k { assert c[k] == b[k - |a| - 7]; }
    }
    assert ValidEnd(c, 5, |c|);
    GreedyEndSpec(c, 5);
    assert OccursAt(c, MoveMarker, 0);
  }

  /** "move: A\nB" has no colon after the marker's. */
  lemma SpanColons(a: string, b: string)
    requires AllWordChars(a) && AllWordChars(b)
    ensures var c := MoveMarker + " " + a + "\n" + b;
      forall k | 5 <= k < |c| :: c[k] != ':'
  {
    var c := MoveMarker + " " + a + "\n" + b;
    forall k | 5 <= k < |c| ensures c[k] != ':' {
      if 6 <= k < |a| + 6 { assert c[k] == a[k - 6]; }
      if |a| + 6 < k { assert c[k] == b[k - |a| - 7]; }
    }
  }

  /** "move: A\nB" contains no `notes:`. */
  lemma SpanNoNotes(a: string, b: string)
    requires AllWordChars(a) && AllWordChars(b)
    ensures FindFrom(MoveMarker + " " + a + "\n" + b, NotesMarker, 0).None?
  {
    var c := MoveMarker + " " + a + "\n" + b;
    SpanColons(a, b);
    forall j: nat ensures !OccursAt(c, NotesMarker, j) {
      if j + 6 <= |c| {
        assert c[j..j + 6][5] == c[j + 5];
      }
    }
  }
}
