/**
 * The small part of the JavaScript runtime that the rest of the model leans on:
 * missing values, calls that may throw, truthiness and `||` on strings,
 * `toLowerCase` (ASCII only), `trim`, and a global `replace(/lit/g, '')`.
 */
module JsText {

  /** A value that may be `undefined`/`null` (None) or present (Some). */
  datatype Option<+T> = None | Some(value: T)

  /** The outcome of a call that may throw: the value it returned or the thrown error's message. */
  datatype Outcome<+T> = Returned(value: T) | Threw(message: string)

  /** JavaScript truthiness of a string-or-missing value: present and non-empty. */
  predicate Truthy(v: Option<string>) {
    v.Some? && v.value != ""
  }

  /** `a || b` where both sides are strings or missing. */
  function Or(a: Option<string>, b: Option<string>): Option<string> {
    if Truthy(a) then a else b
  }

  /** `a || "literal"`: always a string. */
  function OrElse(a: Option<string>, fallback: string): string {
    if Truthy(a) then a.value else fallback
  }

  /** `a || null`: the value when it is truthy, otherwise null. */
  function OrNull(a: Option<string>): Option<string> {
    if Truthy(a) then a else None
  }

  // ---------------------------------------------------------------------------
  // Case folding. Only ASCII letters are folded; the model assumes ASCII text.

  function Lower(c: char): char {
    if 'A' <= c <= 'Z' then (c as int + 32) as char else c
  }

  /** `s.toLowerCase()` on ASCII text. */
  function LowerStr(s: string): (r: string)
    ensures |r| == |s|
    ensures forall i :: 0 <= i < |s| ==> r[i] == Lower(s[i])
  {
    seq(|s|, i requires 0 <= i < |s| => Lower(s[i]))
  }

  /**
   * What `toLowerCase` does to ASCII text: no upper-case letter survives,
   * folding twice is folding once, and a string is left alone exactly when
   * it has no upper-case letter.
   */
  lemma LowerStrFacts(s: string)
    ensures forall i :: 0 <= i < |s| ==> !('A' <= LowerStr(s)[i] <= 'Z')
    ensures LowerStr(LowerStr(s)) == LowerStr(s)
    ensures LowerStr(s) == s <==> forall i :: 0 <= i < |s| ==> !('A' <= s[i] <= 'Z')
  {
    var t := LowerStr(s);
    assert forall i :: 0 <= i < |s| ==> LowerStr(t)[i] == t[i];
    if LowerStr(s) == s {
      forall i | 0 <= i < |s|
        ensures !('A' <= s[i] <= 'Z')
      {
        assert t[i] == s[i];
      }
    }
  }

  /** `a.toLowerCase() === b.toLowerCase()`. */
  predicate EqualsIgnoreCase(a: string, b: string) {
    LowerStr(a) == LowerStr(b)
  }

  // ---------------------------------------------------------------------------
  // `String.prototype.trim`: strips WhiteSpace and LineTerminator code points
  // (ECMA-262, sections 12.2 and 12.3) from both ends.

  predicate IsSpace(c: char) {
    var n := c as int;
    n == 0x09 || n == 0x0A || n == 0x0B || n == 0x0C || n == 0x0D || n == 0x20 ||
    n == 0xA0 || n == 0x1680 || (0x2000 <= n <= 0x200A) || n == 0x2028 || n == 0x2029 ||
    n == 0x202F || n == 0x205F || n == 0x3000 || n == 0xFEFF
  }

  function TrimStart(s: string): (r: string)
    ensures |r| <= |s| && r == s[|s| - |r|..]
    ensures r == [] || !IsSpace(r[0])
    ensures forall i :: 0 <= i < |s| - |r| ==> IsSpace(s[i])
    decreases |s|
  {
    if |s| > 0 && IsSpace(s[0]) then TrimStart(s[1..]) else s
  }

  function TrimEnd(s: string): (r: string)
    ensures |r| <= |s| && r == s[..|r|]
    ensures r == [] || !IsSpace(r[|r| - 1])
    ensures forall i :: |r| <= i < |s| ==> IsSpace(s[i])
    decreases |s|
  {
    if |s| > 0 && IsSpace(s[|s| - 1]) then TrimEnd(s[..|s| - 1]) else s
  }

  /** `s.trim()`. */
  function Trim(s: string): string {
    TrimEnd(TrimStart(s))
  }

  /** `!s.trim()`: the string is empty once trimmed. */
  predicate IsBlank(s: string) {
    Trim(s) == ""
  }

  /** A string is blank exactly when every character is white space. */
  lemma BlankIffAllSpace(s: string)
    ensures IsBlank(s) <==> forall i :: 0 <= i < |s| ==> IsSpace(s[i])
  {
    var t := TrimStart(s);
    if t != [] {
      assert t[0] == s[|s| - |t|];
    }
  }

  /** Trimming a string that neither starts nor ends with white space leaves it alone. */
  lemma TrimKeepsTrimmed(s: string)
    requires s == [] || (!IsSpace(s[0]) && !IsSpace(s[|s| - 1]))
    ensures Trim(s) == s
  {
  }

  /** `trim` is idempotent. */
  lemma TrimIdempotent(s: string)
    ensures Trim(Trim(s)) == Trim(s)
  {
    var t := TrimStart(s);
    var u := TrimEnd(t);
    if u != [] {
      assert u[0] == t[0];
    }
    TrimKeepsTrimmed(u);
  }

  // ---------------------------------------------------------------------------
  // Literal occurrences and `s.replace(/lit/g, '')`.

  /** `p` occurs in `s` starting at index `i`. */
  predicate OccursAt(p: string, s: string, i: nat) {
    i + |p| <= |s| && s[i..i + |p|] == p
  }

  /** `p` occurs somewhere in `s`. */
  predicate Occurs(p: string, s: string) {
    exists i: nat :: i <= |s| && OccursAt(p, s, i)
  }

  /**
   * Remove every occurrence of the non-empty literal `p`, scanning left to
   * right and resuming after each removed occurrence, as a global regular
   * expression replacement by the empty string does.
   */
  function RemoveAll(s: string, p: string): (r: string)
    requires |p| > 0
    ensures |r| <= |s|
    decreases |s|
  {
    if |s| < |p| then s
    else if s[..|p|] == p then RemoveAll(s[|p|..], p)
    else [s[0]] + RemoveAll(s[1..], p)
  }

  /** Removing a literal that does not occur changes nothing. */
  lemma {:induction false} RemoveAllAbsent(s: string, p: string)
    requires |p| > 0 && !Occurs(p, s)
    ensures RemoveAll(s, p) == s
    decreases |s|
  {
    if |s| >= |p| {
      assert !OccursAt(p, s, 0);
      assert s[0..|p|] == s[..|p|];
      forall i: nat | i <= |s[1..]|
        ensures !OccursAt(p, s[1..], i)
      {
        if i + |p| <= |s[1..]| {
          assert s[1..][i..i + |p|] == s[i + 1..i + 1 + |p|];
          assert !OccursAt(p, s, i + 1);
        }
      }
      RemoveAllAbsent(s[1..], p);
      assert s == [s[0]] + s[1..];
    }
  }

  /**
   * The leftmost occurrence is removed and the text before it is kept
   * verbatim; the scan then resumes right after the occurrence.
   */
  lemma {:induction false} RemoveAllLeftmost(x: string, p: string, y: string)
    requires |p| > 0 && forall i: nat :: i < |x| ==> !OccursAt(p, x + p + y, i)
    ensures RemoveAll(x + p + y, p) == x + RemoveAll(y, p)
    decreases |x|
  {
    var s := x + p + y;
    if x == [] {
      assert s == p + y;
      assert s[..|p|] == p && s[|p|..] == y;
    } else {
      var t := x[1..] + p + y;
      assert s[1..] == t;
      assert s[..|p|] != p by {
        assert !OccursAt(p, s, 0);
        assert s[0..|p|] == s[..|p|];
      }
      forall i: nat | i < |x[1..]|
        ensures !OccursAt(p, t, i)
      {
        assert !OccursAt(p, s, i + 1);
        assert t[i..i + |p|] == s[i + 1..i + 1 + |p|];
      }
      calc {
        RemoveAll(s, p);
        [s[0]] + RemoveAll(t, p);
        { RemoveAllLeftmost(x[1..], p, y); }
        [x[0]] + (x[1..] + RemoveAll(y, p));
        { assert x == [x[0]] + x[1..]; }
        x + RemoveAll(y, p);
      }
    }
  }

  /** An occurrence inside a slice of `s` is an occurrence in `s`. */
  lemma OccursInSlice(p: string, s: string, a: nat, b: nat)
    requires a <= b <= |s| && Occurs(p, s[a..b])
    ensures Occurs(p, s)
  {
    var i: nat :| i <= |s[a..b]| && OccursAt(p, s[a..b], i);
    forall k | 0 <= k < |p|
      ensures s[a + i..a + i + |p|][k] == p[k]
    {
      assert s[a..b][i..i + |p|][k] == p[k];
    }
    assert OccursAt(p, s, a + i);
  }
}
