/** The Option type used for every operation that can reject its input. */
module Wrappers {
  datatype Option<+T> = None | Some(value: T)
}

/**
 * The string operations of Python's `str` that the controller relies on:
 * `strip`, `split`, `join`, `startswith` and a leftmost substring search.
 */
module Text {
  import opened Wrappers

  /** The characters Python's `str.isspace()` accepts, i.e. what `str.strip()` removes. */
  predicate IsPyWhitespace(c: char) {
    var n := c as int;
    (0x09 <= n <= 0x0D) || (0x1C <= n <= 0x20) || n == 0x85 || n == 0xA0 || n == 0x1680
    || (0x2000 <= n <= 0x200A) || n == 0x2028 || n == 0x2029 || n == 0x202F
    || n == 0x205F || n == 0x3000
  }

  /** The character set given to `content.strip(...)` before a reply is matched. */
  predicate IsReplyPunct(c: char) {
    c == '.' || c == ',' || c == '!' || c == '?' || c == '`' || c == ' ' || c == '\t'
  }

  /** `\w` under `re.ASCII`. */
  predicate IsWordChar(c: char) {
    ('a' <= c <= 'z') || ('A' <= c <= 'Z') || ('0' <= c <= '9') || c == '_'
  }

  /** `\s` under `re.ASCII`: space, tab, newline, carriage return, form feed, vertical tab. */
  predicate IsRegexSpace(c: char) {
    c == ' ' || c == '\t' || c == '\n' || c == '\r' || c == '\U{C}' || c == '\U{B}'
  }

  /** The character classes that are stripped or scanned over. */
  datatype CharClass = PyWhitespace | ReplyPunct | RegexSpace | WordChar

  predicate InClass(c: char, cls: CharClass) {
    match cls
    case PyWhitespace => IsPyWhitespace(c)
    case ReplyPunct => IsReplyPunct(c)
    case RegexSpace => IsRegexSpace(c)
    case WordChar => IsWordChar(c)
  }

  /** The end of the run of characters in `cls` that starts at `i`, not going past `j`. */
  function SkipForward(s: string, i: nat, j: nat, cls: CharClass): (r: nat)
    requires i <= j <= |s|
    ensures i <= r <= j
    ensures forall k | i <= k < r :: InClass(s[k], cls)
    ensures r < j ==> !InClass(s[r], cls)
    decreases j - i
  {
    if i == j || !InClass(s[i], cls) then i else SkipForward(s, i + 1, j, cls)
  }

  /** The start of the run of characters in `cls` that ends at `j`, not going before `i`. */
  function SkipBackward(s: string, i: nat, j: nat, cls: CharClass): (r: nat)
    requires i <= j <= |s|
    ensures i <= r <= j
    ensures forall k | r <= k < j :: InClass(s[k], cls)
    ensures i < r ==> !InClass(s[r - 1], cls)
    decreases j - i
  {
    if i == j || !InClass(s[j - 1], cls) then j else SkipBackward(s, i, j - 1, cls)
  }

  /** Python's `s.strip(chars)`: removes characters in `cls` from both ends. */
  function Strip(s: string, cls: CharClass): string {
    var a := SkipForward(s, 0, |s|, cls);
    s[a..SkipBackward(s, a, |s|, cls)]
  }

  /** What stripping leaves: the slice of `s` that starts after the leading run
      of characters in `cls`; everything after that slice is in `cls`, and the
      slice neither starts nor ends with such a character. */
  lemma StripSpec(s: string, cls: CharClass)
    ensures var r := Strip(s, cls);
      var a := SkipForward(s, 0, |s|, cls);
      && a + |r| <= |s| && r == s[a..a + |r|]
      && (forall k | 0 <= k < a :: InClass(s[k], cls))
      && (forall k | a + |r| <= k < |s| :: InClass(s[k], cls))
      && (r != [] ==> !InClass(r[0], cls) && !InClass(r[|r| - 1], cls))
  {
  }

  /** Python's `s.strip()` with no argument. */
  function PyStrip(s: string): string {
    Strip(s, PyWhitespace)
  }

  /** Stripping is determined by its boundaries: any split of `s` into an outer
      part of `cls`-characters around a core that does not start or end with one
      gives that core. */
  lemma StripUnique(s: string, cls: CharClass, a: nat, b: nat)
    requires a <= b <= |s|
    requires forall k | 0 <= k < a :: InClass(s[k], cls)
    requires forall k | b <= k < |s| :: InClass(s[k], cls)
    requires a < b ==> !InClass(s[a], cls) && !InClass(s[b - 1], cls)
    ensures Strip(s, cls) == s[a..b]
    decreases |s| - a
  {
    if a == b < |s| {
      StripUnique(s, cls, |s|, |s|);
    }
  }

  /** Stripping twice is the same as stripping once. */
  lemma StripIdempotent(s: string, cls: CharClass)
    ensures Strip(Strip(s, cls), cls) == Strip(s, cls)
  {
    var r := Strip(s, cls);
    StripSpec(s, cls);
    StripUnique(r, cls, 0, |r|);
  }

  /** `pat` occurs in `s` at position `j`. */
  predicate OccursAt(s: string, pat: string, j: nat) {
    j + |pat| <= |s| && s[j..j + |pat|] == pat
  }

  /** Python's `s.find(pat, i)`: the leftmost occurrence of `pat` at or after `i`,
      or None when there is none. */
  function FindFrom(s: string, pat: string, i: nat): (r: Option<nat>)
    requires i <= |s|
    ensures r.Some? ==> i <= r.value && OccursAt(s, pat, r.value)
    ensures r.Some? ==> forall j | i <= j < r.value :: !OccursAt(s, pat, j)
    ensures r.None? ==> forall j | i <= j :: !OccursAt(s, pat, j)
    decreases |s| - i
  {
    if OccursAt(s, pat, i) then Some(i)
    else if i + |pat| >= |s| then None
    else FindFrom(s, pat, i + 1)
  }

  /** Python's `s.startswith(prefix)`. */
  predicate StartsWith(s: string, prefix: string) {
    |prefix| <= |s| && s[..|prefix|] == prefix
  }

  /** Position of the first `c` in `s`. */
  function IndexOf(s: string, c: char): (r: Option<nat>)
    ensures r.Some? ==> r.value < |s| && s[r.value] == c && c !in s[..r.value]
    ensures r.None? ==> c !in s
  {
    if s == [] then None
    else if s[0] == c then Some(0)
    else match IndexOf(s[1..], c)
      case None => None
      case Some(i) =>
        assert s[..i + 1] == [s[0]] + s[1..][..i];
        Some(i + 1)
  }

  /** Python's `sep.join(parts)`. */
  function Join(parts: seq<string>, sep: string): string {
    if |parts| == 0 then ""
    else if |parts| == 1 then parts[0]
    else parts[0] + sep + Join(parts[1..], sep)
  }

  /** Joining one more part appends the separator and that part. */
  lemma {:induction false} JoinSnoc(parts: seq<string>, x: string, sep: string)
    requires parts != []
    ensures Join(parts + [x], sep) == Join(parts, sep) + sep + x
  {
    if |parts| > 1 {
      assert (parts + [x])[1..] == parts[1..] + [x];
      JoinSnoc(parts[1..], x, sep);
    } else {
      assert parts + [x] == [parts[0], x];
    }
  }

  /** Python's `s.split(sep)` for a one-character separator: the pieces between
      separators, never empty as a list, none containing the separator, and
      joining them back with the separator gives `s`. */
  function Split(s: string, sep: char): (r: seq<string>)
    ensures |r| >= 1
    ensures forall k | 0 <= k < |r| :: sep !in r[k]
    ensures Join(r, [sep]) == s
    decreases |s|
  {
    match IndexOf(s, sep)
    case None => [s]
    case Some(i) =>
      var rest := Split(s[i + 1..], sep);
      var r := [s[..i]] + rest;
      assert r[1..] == rest;
      assert s == s[..i] + [sep] + s[i + 1..];
      r
  }

  /** Splitting a join of separator-free pieces gives the pieces back. */
  lemma {:induction false} SplitJoin(parts: seq<string>, sep: char)
    requires |parts| >= 1
    requires forall k | 0 <= k < |parts| :: sep !in parts[k]
    ensures Split(Join(parts, [sep]), sep) == parts
  {
    var s := Join(parts, [sep]);
    if |parts| == 1 {
      assert IndexOf(s, sep).None?;
    } else {
      var x := parts[0];
      var tail := Join(parts[1..], [sep]);
      assert s == x + [sep] + tail;
      assert s[|x|] == sep;
      assert s[..|x|] == x;
      var ix := IndexOf(s, sep);
      assert ix.Some?;
      assert s[|x| + 1..] == tail;
      SplitJoin(parts[1..], sep);
    }
  }
}
