/**
 * Asking the language model for the next move (`get_move`, advent.py:100-143
 * and llm.py:68-112): the prompt is the template filled with the rendered
 * history and the notes, plus an optional extra instruction; a reply without
 * content or in the wrong format is retried at once, and an exception is
 * retried after a five-second pause. The service itself is a parameter: the
 * replies it would give to successive attempts.
 */
module Oracle {
  import opened Wrappers
  import opened Text
  import opened Parser
  import opened History

  /** A piece of the prompt template: literal text or a `$name` placeholder. */
  datatype Segment = Literal(text: string) | Placeholder(name: string)

  type Template = seq<Segment>

  /** The placeholders `get_move` fills in. */
  predicate KnownName(name: string) {
    name == "moves" || name == "notes"
  }

  /** The text one segment stands for; None for an unknown placeholder. */
  function SegmentText(seg: Segment, moves: string, notes: string): (r: Option<string>)
    ensures r.None? <==> seg.Placeholder? && !KnownName(seg.name)
  {
    match seg
    case Literal(text) => Some(text)
    case Placeholder(name) =>
      if name == "moves" then Some(moves)
      else if name == "notes" then Some(notes)
      else None
  }

  /** `string.Template.substitute(moves=..., notes=...)`: None when the template
      names a placeholder that is not supplied (Python raises `KeyError`). */
  function Substitute(t: Template, moves: string, notes: string): (r: Option<string>)
    decreases |t|
  {
    if t == [] then Some("")
    else
      match SegmentText(t[0], moves, notes)
      case None => None
      case Some(h) =>
        match Substitute(t[1..], moves, notes)
        case None => None
        case Some(rest) => Some(h + rest)
  }

  /** Substitution succeeds exactly when every placeholder is one of the two supplied. */
  lemma {:induction false} SubstituteDefined(t: Template, moves: string, notes: string)
    ensures Substitute(t, moves, notes).Some? <==>
      forall k | 0 <= k < |t| :: t[k].Placeholder? ==> KnownName(t[k].name)
    decreases |t|
  {
    if t != [] {
      SubstituteDefined(t[1..], moves, notes);
      assert forall k | 1 <= k < |t| :: t[k] == t[1..][k - 1];
    }
  }

  /** Substitution works segment by segment: filling a concatenation of two
      templates is filling each and concatenating the texts. */
  lemma {:induction false} SubstituteConcat(t1: Template, t2: Template, moves: string, notes: string)
    requires Substitute(t1, moves, notes).Some? && Substitute(t2, moves, notes).Some?
    ensures Substitute(t1 + t2, moves, notes)
      == Some(Substitute(t1, moves, notes).value + Substitute(t2, moves, notes).value)
    decreases |t1|
  {
    if t1 != [] {
      assert (t1 + t2)[0] == t1[0];
      assert (t1 + t2)[1..] == t1[1..] + t2;
      SubstituteDefined(t1, moves, notes);
      SubstituteDefined(t1[1..], moves, notes);
      SubstituteConcat(t1[1..], t2, moves, notes);
      var a := Substitute(t1[1..], moves, notes).value;
      var b := Substitute(t2, moves, notes).value;
      var h := SegmentText(t1[0], moves, notes).value;
      assert Substitute(t1, moves, notes).value == h + a;
      assert Substitute(t1 + t2, moves, notes).value == h + (a + b);
      assert h + (a + b) == (h + a) + b;
    } else {
      assert t1 + t2 == t2;
      assert Substitute(t1, moves, notes).value == [];
      assert [] + Substitute(t2, moves, notes).value == Substitute(t2, moves, notes).value;
    }
  }

  /** A template with no placeholders is sent as it is. */
  function LiteralText(t: Template): string
    decreases |t|
  {
    if t == [] then "" else (if t[0].Literal? then t[0].text else "") + LiteralText(t[1..])
  }

  lemma {:induction false} SubstituteLiteral(t: Template, moves: string, notes: string)
    requires forall k | 0 <= k < |t| :: t[k].Literal?
    ensures Substitute(t, moves, notes) == Some(LiteralText(t))
    decreases |t|
  {
    if t != [] {
      assert forall k | 0 <= k < |t[1..]| :: t[1..][k] == t[k + 1];
      SubstituteLiteral(t[1..], moves, notes);
    }
  }

  /** `$moves` becomes the rendered history and `$notes` the notes. */
  lemma SubstitutePlaceholder(name: string, moves: string, notes: string)
    requires KnownName(name)
    ensures Substitute([Placeholder(name)], moves, notes) == Some(if name == "moves" then moves else notes)
  {
    var t := [Placeholder(name)];
    assert t[1..] == [];
    var h := SegmentText(t[0], moves, notes).value;
    assert SegmentText(t[0], moves, notes) == Some(h);
    assert h + "" == h;
  }

  /** Both programs' templates are literal text, `$moves`, literal text, `$notes`
      and literal text (advent.py:28-32, advent.py:43-47, llm.py:20-24). Filling
      one gives the five parts in order. */
  lemma SubstituteFills(pre: Template, mid: Template, post: Template, moves: string, notes: string)
    requires forall k | 0 <= k < |pre| :: pre[k].Literal?
    requires forall k | 0 <= k < |mid| :: mid[k].Literal?
    requires forall k | 0 <= k < |post| :: post[k].Literal?
    ensures Substitute(pre + [Placeholder("moves")] + mid + [Placeholder("notes")] + post, moves, notes)
      == Some(LiteralText(pre) + moves + LiteralText(mid) + notes + LiteralText(post))
  {
    var pm: Template := [Placeholder("moves")];
    var pn: Template := [Placeholder("notes")];
    SubstituteLiteral(pre, moves, notes);
    SubstituteLiteral(mid, moves, notes);
    SubstituteLiteral(post, moves, notes);
    SubstitutePlaceholder("moves", moves, notes);
    SubstitutePlaceholder("notes", moves, notes);
    SubstituteConcat(pre, pm, moves, notes);
    SubstituteConcat(pre + pm, mid, moves, notes);
    SubstituteConcat(pre + pm + mid, pn, moves, notes);
    SubstituteConcat(pre + pm + mid + pn, post, moves, notes);
  }

  /** The extra instruction is appended after a blank line, and only when it is non-empty. */
  function WithExtra(base: string, extra: string): (r: string)
    ensures StartsWith(r, base)
    ensures extra == [] <==> r == base
    ensures extra != [] ==> r[|base|..] == "\n\n" + extra
  {
    if extra == "" then base else base + "\n\n" + extra
  }

  /** The prompt of one attempt; None when the template cannot be filled. */
  function BuildPrompt(t: Template, moves: seq<Move>, notes: string, extra: string): (r: Option<string>)
    ensures r.Some? <==> Substitute(t, RenderAll(moves), notes).Some?
    ensures r.Some? ==> r.value == WithExtra(Substitute(t, RenderAll(moves), notes).value, extra)
  {
    match Substitute(t, RenderAll(moves), notes)
    case None => None
    case Some(p) => Some(WithExtra(p, extra))
  }

  /** The prompt of one attempt for a template of the programs' shape: the
      literal text, the moves joined with blank lines, the literal text, the
      notes and the literal text, then a blank line and the extra instruction
      when there is one. */
  lemma PromptContent(pre: Template, mid: Template, post: Template,
                      moves: seq<Move>, notes: string, extra: string)
    requires forall k | 0 <= k < |pre| :: pre[k].Literal?
    requires forall k | 0 <= k < |mid| :: mid[k].Literal?
    requires forall k | 0 <= k < |post| :: post[k].Literal?
    ensures BuildPrompt(pre + [Placeholder("moves")] + mid + [Placeholder("notes")] + post, moves, notes, extra)
      == Some(WithExtra(LiteralText(pre) + RenderAll(moves) + LiteralText(mid) + notes + LiteralText(post), extra))
  {
    SubstituteFills(pre, mid, post, RenderAll(moves), notes);
  }

  /** What the service does with one attempt: a completion with its text, a
      completion whose content is missing, or an exception. */
  datatype Reply = Completion(content: string) | NoContent | Failed

  /** What `get_move` makes of one reply: take the parsed move and notes, retry
      at once (no content, or a reply in the wrong format), or retry after a pause
      (an exception). */
  datatype Verdict = Accept(parsed: Parsed) | Retry | Backoff

  function Classify(reply: Reply, requireNotes: bool): (v: Verdict)
    ensures v.Accept? <==> reply.Completion? && Parse(reply.content, requireNotes).Some?
    ensures v.Accept? ==> Parse(reply.content, requireNotes) == Some(v.parsed)
    ensures v.Backoff? <==> reply.Failed?
  {
    match reply
    case Completion(c) =>
      (match Parse(c, requireNotes)
       case Some(p) => Accept(p)
       case None => Retry)
    case NoContent => Retry
    case Failed => Backoff
  }

  /** The verdict on each reply, in order. */
  function Classified(replies: seq<Reply>, requireNotes: bool): (vs: seq<Verdict>)
    ensures |vs| == |replies|
    decreases |replies|
  {
    if replies == [] then []
    else Classified(replies[..|replies| - 1], requireNotes) + [Classify(replies[|replies| - 1], requireNotes)]
  }

  /** The verdict at each position is the verdict on the reply there. */
  lemma {:induction false} ClassifiedAt(replies: seq<Reply>, requireNotes: bool, k: nat)
    requires k < |replies|
    ensures Classified(replies, requireNotes)[k] == Classify(replies[k], requireNotes)
    decreases |replies|
  {
    if k < |replies| - 1 {
      ClassifiedAt(replies[..|replies| - 1], requireNotes, k);
    }
  }

  /** The first verdict at or after `i` that accepts a reply. */
  function FirstAcceptFrom(vs: seq<Verdict>, i: nat): (r: Option<nat>)
    requires i <= |vs|
    ensures r.Some? ==> i <= r.value < |vs| && vs[r.value].Accept?
    ensures r.Some? ==> forall k | i <= k < r.value :: !vs[k].Accept?
    ensures r.None? ==> forall k | i <= k < |vs| :: !vs[k].Accept?
    decreases |vs| - i
  {
    if i == |vs| then None
    else if vs[i].Accept? then Some(i)
    else FirstAcceptFrom(vs, i + 1)
  }

  /** The number of exceptions among the verdicts `i` up to `j`. */
  function CountBackoff(vs: seq<Verdict>, i: nat, j: nat): (r: nat)
    requires i <= j <= |vs|
    ensures r <= j - i
    decreases j - i
  {
    if i == j then 0 else (if vs[i].Backoff? then 1 else 0) + CountBackoff(vs, i + 1, j)
  }

  const BackoffSeconds: nat := 5

  /** The course of one call of `get_move`: the decision, the prompts that reached
      the service, how many attempts were made, and the seconds spent backing off. */
  datatype Outcome = Outcome(decision: Option<Parsed>, sent: seq<string>, attempts: nat, waited: nat)

  /** The number of attempts made from attempt `i` on: up to and including the
      first accepted reply, or all remaining ones. */
  function AttemptsFrom(vs: seq<Verdict>, i: nat): (n: nat)
    requires i <= |vs|
    ensures n <= |vs| - i
  {
    match FirstAcceptFrom(vs, i)
    case Some(k) => k + 1 - i
    case None => |vs| - i
  }

  /** The move and notes of the first accepted reply from attempt `i` on, if any. */
  function DecisionFrom(vs: seq<Verdict>, i: nat): Option<Parsed>
    requires i <= |vs|
  {
    match FirstAcceptFrom(vs, i)
    case Some(k) => Some(vs[k].parsed)
    case None => None
  }

  /**
   * `get_move` from attempt `i` on, one attempt per verdict: attempt `i` carries
   * `extra` and every retry is made without it. Its contract is `GetMoveSpec`.
   */
  function GetMoveFrom(t: Template, moves: seq<Move>, notes: string, extra: string,
                       vs: seq<Verdict>, i: nat): (o: Outcome)
    requires i <= |vs|
    ensures o.attempts <= |vs| - i && |o.sent| <= o.attempts
    decreases |vs| - i
  {
    if i == |vs| then Outcome(None, [], 0, 0)
    else
      var prompt := BuildPrompt(t, moves, notes, extra);
      if prompt.Some? && vs[i].Accept? then
        Outcome(Some(vs[i].parsed), [prompt.value], 1, 0)
      else
        var rest := GetMoveFrom(t, moves, notes, "", vs, i + 1);
        var pause := if prompt.None? || vs[i].Backoff? then BackoffSeconds else 0;
        Outcome(rest.decision,
                if prompt.Some? then [prompt.value] + rest.sent else [],
                rest.attempts + 1, pause + rest.waited)
  }

  /**
   * What `get_move` does from attempt `i` on. Every retry builds the prompt
   * again from the same history and notes, without the extra instruction; the
   * decision is the first accepted reply, and no attempt is made after it. When
   * the template cannot be filled, every attempt raises before the service is
   * called and backs off. When the replies run out without an accepted one the
   * decision is None (the program would keep retrying).
   */
  lemma {:induction false} GetMoveSpec(t: Template, moves: seq<Move>, notes: string, extra: string,
                                       vs: seq<Verdict>, i: nat)
    requires i <= |vs|
    ensures var o := GetMoveFrom(t, moves, notes, extra, vs, i);
      Substitute(t, RenderAll(moves), notes).None? ==>
        && o.decision.None? && o.sent == [] && o.attempts == |vs| - i
        && o.waited == BackoffSeconds * (|vs| - i)
    ensures var o := GetMoveFrom(t, moves, notes, extra, vs, i);
      Substitute(t, RenderAll(moves), notes).Some? ==>
        var base := Substitute(t, RenderAll(moves), notes).value;
        && o.attempts == AttemptsFrom(vs, i)
        && |o.sent| == o.attempts
        && (forall k | 0 <= k < |o.sent| :: o.sent[k] == if k == 0 then WithExtra(base, extra) else base)
        && o.decision == DecisionFrom(vs, i)
    decreases |vs| - i
  {
    if i < |vs| {
      GetMoveSpec(t, moves, notes, "", vs, i + 1);
    }
  }

  /** Each exception among the attempts made costs a five-second pause, and nothing else does. */
  lemma {:induction false} GetMoveWaits(t: Template, moves: seq<Move>, notes: string, extra: string,
                                        vs: seq<Verdict>, i: nat)
    requires i <= |vs|
    requires Substitute(t, RenderAll(moves), notes).Some?
    ensures var o := GetMoveFrom(t, moves, notes, extra, vs, i);
      o.waited == BackoffSeconds * CountBackoff(vs, i, i + o.attempts)
    decreases |vs| - i
  {
    GetMoveSpec(t, moves, notes, extra, vs, i);
    if i < |vs| && !vs[i].Accept? {
      GetMoveSpec(t, moves, notes, "", vs, i + 1);
      GetMoveWaits(t, moves, notes, "", vs, i + 1);
    }
  }

  /** `get_move(moves, notes, extra)` against the service's successive replies. */
  function GetMove(t: Template, moves: seq<Move>, notes: string, extra: string,
                   replies: seq<Reply>, requireNotes: bool): Outcome
  {
    GetMoveFrom(t, moves, notes, extra, Classified(replies, requireNotes), 0)
  }

  /** A decision is never invented: it is the parse of the first completion the
      service returned that parses. */
  lemma DecisionComesFromReply(t: Template, moves: seq<Move>, notes: string, extra: string,
                               replies: seq<Reply>, requireNotes: bool)
    requires GetMove(t, moves, notes, extra, replies, requireNotes).decision.Some?
    ensures var d := GetMove(t, moves, notes, extra, replies, requireNotes).decision;
      exists k | 0 <= k < |replies| ::
        && replies[k].Completion? && Parse(replies[k].content, requireNotes) == d
        && forall j | 0 <= j < k :: !(replies[j].Completion? && Parse(replies[j].content, requireNotes).Some?)
  {
    var vs := Classified(replies, requireNotes);
    GetMoveSpec(t, moves, notes, extra, vs, 0);
    var k := FirstAcceptFrom(vs, 0).value;
    ClassifiedAt(replies, requireNotes, k);
    forall j | 0 <= j < k
      ensures !(replies[j].Completion? && Parse(replies[j].content, requireNotes).Some?)
    {
      ClassifiedAt(replies, requireNotes, j);
    }
  }

  /** A reply that parses on the first attempt is taken at once, with no pause. */
  lemma AcceptedFirstTry(t: Template, moves: seq<Move>, notes: string, extra: string,
                         replies: seq<Reply>, requireNotes: bool)
    requires Substitute(t, RenderAll(moves), notes).Some?
    requires replies != [] && replies[0].Completion?
    requires Parse(replies[0].content, requireNotes).Some?
    ensures var o := GetMove(t, moves, notes, extra, replies, requireNotes);
      && o.decision == Parse(replies[0].content, requireNotes)
      && o.sent == [BuildPrompt(t, moves, notes, extra).value]
      && o.waited == 0
  {
    GetMoveSpec(t, moves, notes, extra, Classified(replies, requireNotes), 0);
    ClassifiedAt(replies, requireNotes, 0);
  }

  /** When the service never raises, `get_move` never pauses. */
  lemma NoFailuresNoPause(t: Template, moves: seq<Move>, notes: string, extra: string,
                          replies: seq<Reply>, requireNotes: bool)
    requires Substitute(t, RenderAll(moves), notes).Some?
    requires forall k | 0 <= k < |replies| :: !replies[k].Failed?
    ensures GetMove(t, moves, notes, extra, replies, requireNotes).waited == 0
  {
    var vs := Classified(replies, requireNotes);
    var o := GetMoveFrom(t, moves, notes, extra, vs, 0);
    GetMoveWaits(t, moves, notes, extra, vs, 0);
    forall k | 0 <= k < |vs|
      ensures !vs[k].Backoff?
    {
      ClassifiedAt(replies, requireNotes, k);
    }
    NoBackoffCountsZero(vs, 0, o.attempts);
  }

  lemma {:induction false} NoBackoffCountsZero(vs: seq<Verdict>, i: nat, j: nat)
    requires i <= j <= |vs|
    requires forall k | i <= k < j :: !vs[k].Backoff?
    ensures CountBackoff(vs, i, j) == 0
    decreases j - i
  {
    if i < j {
      NoBackoffCountsZero(vs, i + 1, j);
    }
  }
}
