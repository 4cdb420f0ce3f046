/**
 * Escaping a snippet before it becomes one alternative of the highlight
 * pattern (`components/TranscriptionView.tsx`, lines 225 and 252).
 *
 * As written, the escaping expression's character class ends at the first
 * `]`, so the expression only fires on a metacharacter followed by a
 * backslash and a `]`; a lone `.` or `(` passes through unescaped.
 * `EscapeAsWritten` models that; `Escape` is the evident intent, under
 * which every alternative is read as its literal text. The highlight passes
 * (module Highlight) match needles literally, that is, they assume `Escape`.
 */
module Escape {

  /** The characters the intended class `[.*+?^${}()|[\]\\]` lists. */
  predicate IsMeta(c: char) {
    InWrittenClass(c) || c == ']'
  }

  /** The characters of the class as written, `[.*+?^${}()|[\\]`, which lacks `]`. */
  predicate InWrittenClass(c: char) {
    || c == '.' || c == '*' || c == '+' || c == '?' || c == '^' || c == '$'
    || c == '{' || c == '}' || c == '(' || c == ')' || c == '|' || c == '[' || c == '\\'
  }

  /**
   * `s.replace(/[.*+?^${}()|[\\]\\]/g, '\\$&')`: each match is a class
   * character followed by `\]`, and is replaced by a backslash and itself.
   */
  function EscapeAsWritten(s: string): (t: string)
    ensures |t| >= |s|
    decreases |s|
  {
    if s == [] then []
    else if |s| >= 3 && InWrittenClass(s[0]) && s[1] == '\\' && s[2] == ']' then
      "\\" + s[..3] + EscapeAsWritten(s[3..])
    else [s[0]] + EscapeAsWritten(s[1..])
  }

  /** The intended escaping: a backslash before every metacharacter. */
  function Escape(s: string): (t: string)
    ensures |s| <= |t| <= 2 * |s|
    decreases |s|
  {
    if s == [] then []
    else (if IsMeta(s[0]) then ['\\', s[0]] else [s[0]]) + Escape(s[1..])
  }

  /**
   * A pattern in which every metacharacter is escaped and every backslash
   * escapes a metacharacter: a regular expression engine reads it as the
   * literal text `Unescape(t)`.
   */
  predicate Literal(t: string)
    decreases |t|
  {
    if t == [] then true
    else if t[0] == '\\' then |t| >= 2 && IsMeta(t[1]) && Literal(t[2..])
    else !IsMeta(t[0]) && Literal(t[1..])
  }

  /** The text a literal pattern stands for. */
  function Unescape(t: string): string
    decreases |t|
  {
    if t == [] then []
    else if t[0] == '\\' && |t| >= 2 then [t[1]] + Unescape(t[2..])
    else [t[0]] + Unescape(t[1..])
  }

  /** The intended escaping always yields a literal pattern. */
  lemma {:induction false} EscapeIsLiteral(s: string)
    ensures Literal(Escape(s))
    decreases |s|
  {
    if s != [] {
      EscapeIsLiteral(s[1..]);
      var head := if IsMeta(s[0]) then ['\\', s[0]] else [s[0]];
      var t := head + Escape(s[1..]);
      assert t[|head|..] == Escape(s[1..]);
    }
  }

  /** The literal pattern stands for exactly the snippet. */
  lemma {:induction false} EscapeRoundTrip(s: string)
    ensures Unescape(Escape(s)) == s
    decreases |s|
  {
    if s != [] {
      EscapeRoundTrip(s[1..]);
      var head := if IsMeta(s[0]) then ['\\', s[0]] else [s[0]];
      var t := head + Escape(s[1..]);
      assert t[|head|..] == Escape(s[1..]);
      assert s == [s[0]] + s[1..];
    }
  }

  /** A snippet without metacharacters is left alone by both escapings. */
  lemma {:induction false} PlainSnippetsAgree(s: string)
    requires forall i :: 0 <= i < |s| ==> !IsMeta(s[i])
    ensures Escape(s) == s && EscapeAsWritten(s) == s
    decreases |s|
  {
    if s != [] {
      PlainSnippetsAgree(s[1..]);
      assert s == [s[0]] + s[1..];
    }
  }

  /** As written, a snippet without the two characters `\]` side by side is never changed. */
  lemma {:induction false} AsWrittenNeedsClosingBracket(s: string)
    requires forall i :: 0 <= i < |s| - 1 ==> !(s[i] == '\\' && s[i + 1] == ']')
    ensures EscapeAsWritten(s) == s
    decreases |s|
  {
    if s != [] {
      AsWrittenNeedsClosingBracket(s[1..]);
      assert s == [s[0]] + s[1..];
    }
  }

  /**
   * As written, "e.g." reaches the pattern unescaped, where each `.` matches
   * any character; the intended escaping quotes both dots.
   */
  lemma EscapeAsWrittenMissesLoneDot()
    ensures EscapeAsWritten("e.g.") == "e.g."
    ensures !Literal("e.g.")
    ensures Escape("e.g.") == "e\\.g\\." && Literal(Escape("e.g."))
  {
    assert EscapeAsWritten("g.") == "g.";
    assert EscapeAsWritten(".g.") == ".g.";
    assert !Literal(".g.");
    assert Escape(".") == "\\.";
    assert Escape("g.") == "g\\.";
    assert Escape(".g.") == "\\.g\\.";
    EscapeIsLiteral("e.g.");
  }
}
