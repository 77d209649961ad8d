/** The handful of JavaScript string operations the front end relies on:
    `split` on one character, `join`, the `\s` / `trim` whitespace class,
    ASCII `toLowerCase`, and the digit strings that `Number()` accepts. */
module Strings {

  /** `s.split(c)`: the pieces between occurrences of `c`; never empty. */
  function Split(s: string, c: char): (parts: seq<string>)
    ensures |parts| >= 1
    ensures forall i :: 0 <= i < |parts| ==> c !in parts[i]
    decreases |s|
  {
    if s == [] then [""]
    else
      var rest := Split(s[1..], c);
      if s[0] == c then [""] + rest
      else [[s[0]] + rest[0]] + rest[1..]
  }

  /** `parts.join(c)`. */
  function Join(parts: seq<string>, c: char): string
    decreases |parts|
  {
    if |parts| == 0 then ""
    else if |parts| == 1 then parts[0]
    else parts[0] + [c] + Join(parts[1..], c)
  }

  /** Splitting a string that starts with a separator-free piece. */
  lemma {:induction false} SplitPrefix(a: string, b: string, c: char)
    requires c !in a
    ensures Split(a + b, c) == [a + Split(b, c)[0]] + Split(b, c)[1..]
    decreases |a|
  {
    if a != [] {
      assert (a + b)[1..] == a[1..] + b;
      SplitPrefix(a[1..], b, c);
      assert [a[0]] + (a[1..] + Split(b, c)[0]) == a + Split(b, c)[0];
    } else {
      assert a + b == b;
      assert a + Split(b, c)[0] == Split(b, c)[0];
      assert Split(b, c) == [Split(b, c)[0]] + Split(b, c)[1..];
    }
  }

  /** `join` then `split` on the same separator gives the pieces back. */
  lemma {:induction false} SplitJoin(parts: seq<string>, c: char)
    requires |parts| >= 1
    requires forall i :: 0 <= i < |parts| ==> c !in parts[i]
    ensures Split(Join(parts, c), c) == parts
    decreases |parts|
  {
    if |parts| == 1 {
      SplitPrefix(parts[0], "", c);
      assert parts[0] + "" == parts[0];
      assert Split("", c) == [""];
    } else {
      var rest := Join(parts[1..], c);
      SplitJoin(parts[1..], c);
      assert parts[0] + [c] + rest == parts[0] + ([c] + rest);
      SplitPrefix(parts[0], [c] + rest, c);
      assert ([c] + rest)[1..] == rest;
      assert Split([c] + rest, c) == [""] + Split(rest, c);
      assert parts[0] + "" == parts[0];
      assert Join(parts, c) == parts[0] + ([c] + rest);
      assert parts == [parts[0]] + parts[1..];
    }
  }

  /** The text before the first `c` (`s.split(c)[0]`). */
  lemma {:induction false} SplitHeadBeforeSeparator(a: string, b: string, c: char)
    requires c !in a
    ensures Split(a + [c] + b, c)[0] == a
  {
    assert a + [c] + b == a + ([c] + b);
    SplitPrefix(a, [c] + b, c);
    assert ([c] + b)[1..] == b;
  }

  predicate IsDigit(ch: char) {
    '0' <= ch <= '9'
  }

  /** A string of ASCII digits; the empty string is one too. */
  predicate AllDigits(s: string) {
    forall i :: 0 <= i < |s| ==> IsDigit(s[i])
  }

  /** Decimal value of a digit string. */
  function DigitsValue(s: string): (n: nat)
    requires AllDigits(s)
    decreases |s|
  {
    if s == [] then 0
    else DigitsValue(s[..|s| - 1]) * 10 + (s[|s| - 1] as int - '0' as int)
  }

  /** The decimal form of a non-negative integer (template-literal
      interpolation of a whole number); reading it back gives the number. */
  function DecimalString(n: nat): (s: string)
    ensures s != [] && AllDigits(s)
    ensures DigitsValue(s) == n
    decreases n
  {
    var last := ('0' as int + n % 10) as char;
    if n < 10 then
      assert [last][..0] == [];
      [last]
    else
      var front := DecimalString(n / 10);
      assert (front + [last])[..|front|] == front;
      front + [last]
  }

  /** `!isNaN(Number(s))` restricted to the strings a dotted section number
      is made of: a digit string, including `""` (which `Number` maps to 0). */
  predicate IsNumeric(s: string) {
    AllDigits(s)
  }

  /** `Number(s) || 0`: the value of a digit string, 0 for anything else. */
  function SegmentValue(s: string): (n: int)
    ensures n >= 0
    ensures IsNumeric(s) ==> n == DigitsValue(s)
    ensures !IsNumeric(s) ==> n == 0
  {
    if AllDigits(s) then DigitsValue(s) else 0
  }

  /** Joining pieces that lack a character other than the separator gives
      a string that lacks it too. */
  lemma {:induction false} JoinLacks(parts: seq<string>, c: char, x: char)
    requires x != c
    requires forall i :: 0 <= i < |parts| ==> x !in parts[i]
    ensures x !in Join(parts, c)
    decreases |parts|
  {
    if |parts| > 1 {
      JoinLacks(parts[1..], c, x);
      assert x !in parts[0];
    }
  }

  /** The characters JavaScript's `\s` and `String.prototype.trim` treat as
      white space: WhiteSpace, the Zs category and LineTerminator. */
  predicate IsWhitespace(ch: char) {
    ch == ' ' || ch == '\t' || ch == '\n' || ch == '\r' ||
    ch == '\U{000B}' || ch == '\U{000C}' || ch == '\U{00A0}' || ch == '\U{1680}' ||
    ('\U{2000}' <= ch <= '\U{200A}') || ch == '\U{2028}' || ch == '\U{2029}' ||
    ch == '\U{202F}' || ch == '\U{205F}' || ch == '\U{3000}' || ch == '\U{FEFF}'
  }

  predicate AllWhitespace(s: string) {
    forall i :: 0 <= i < |s| ==> IsWhitespace(s[i])
  }

  predicate NoWhitespace(s: string) {
    forall i :: 0 <= i < |s| ==> !IsWhitespace(s[i])
  }

  function TrimStart(s: string): (r: string)
    ensures |r| <= |s| && r == s[|s| - |r|..]
    ensures r == [] || !IsWhitespace(r[0])
    decreases |s|
  {
    if s != [] && IsWhitespace(s[0]) then TrimStart(s[1..]) else s
  }

  function TrimEnd(s: string): (r: string)
    ensures |r| <= |s| && r == s[..|r|]
    ensures r == [] || !IsWhitespace(r[|r| - 1])
    decreases |s|
  {
    if s != [] && IsWhitespace(s[|s| - 1]) then TrimEnd(s[..|s| - 1]) else s
  }

  /** `s.trim()`. */
  function Trim(s: string): string {
    TrimEnd(TrimStart(s))
  }

  /** `s.trim() === ''` holds exactly for the all-whitespace strings. */
  lemma {:induction false} TrimEmptyIffBlank(s: string)
    ensures Trim(s) == "" <==> AllWhitespace(s)
    decreases |s|
  {
    if s == [] {
    } else if IsWhitespace(s[0]) {
      TrimEmptyIffBlank(s[1..]);
      assert AllWhitespace(s) <==> AllWhitespace(s[1..]) by {
        if AllWhitespace(s[1..]) {
          forall i | 0 <= i < |s| ensures IsWhitespace(s[i]) {
            if i > 0 { assert s[i] == s[1..][i - 1]; }
          }
        }
      }
    } else {
      assert TrimStart(s) == s;
      assert TrimEnd(s) != [] by {
        var r := TrimEnd(s);
        if r == [] {
          TrimEndBlankTail(s);
        }
      }
    }
  }

  /** Only white space is removed from the end. */
  lemma {:induction false} TrimEndBlankTail(s: string)
    ensures AllWhitespace(s[|TrimEnd(s)|..])
    decreases |s|
  {
    if s != [] && IsWhitespace(s[|s| - 1]) {
      var t := s[..|s| - 1];
      TrimEndBlankTail(t);
      var n := |TrimEnd(t)|;
      forall i | 0 <= i < |s[n..]| ensures IsWhitespace(s[n..][i]) {
        if n + i < |t| { assert s[n..][i] == t[n..][i]; }
      }
    }
  }

  /** `ch.toLowerCase()` for ASCII; every other character is left as is. */
  function LowerChar(ch: char): char {
    if 'A' <= ch <= 'Z' then (ch as int + 32) as char else ch
  }

  /** `s.toLowerCase()`, ASCII letters only. */
  function ToLower(s: string): (r: string)
    ensures |r| == |s|
    ensures forall i :: 0 <= i < |s| ==> r[i] == LowerChar(s[i])
    ensures forall i :: 0 <= i < |r| ==> !('A' <= r[i] <= 'Z')
    decreases |s|
  {
    if s == [] then "" else [LowerChar(s[0])] + ToLower(s[1..])
  }

  /** Lower-casing twice is lower-casing once; a string without upper-case
      ASCII letters is its own lower-case form. */
  lemma {:induction false} ToLowerFixed(s: string)
    requires forall i :: 0 <= i < |s| ==> !('A' <= s[i] <= 'Z')
    ensures ToLower(s) == s
  {
    assert forall i :: 0 <= i < |s| ==> ToLower(s)[i] == s[i];
  }

  /** Every character of a suffix occurs in the whole string. */
  lemma SuffixMembers(s: string, k: int)
    requires 0 <= k <= |s|
    ensures forall ch :: ch in s[k..] ==> ch in s
  {
    forall ch | ch in s[k..] ensures ch in s {
      var j :| 0 <= j < |s[k..]| && s[k..][j] == ch;
      assert s[k + j] == ch;
    }
  }

  lemma AllWhitespaceTail(s: string)
    requires s != [] && AllWhitespace(s)
    ensures AllWhitespace(s[1..])
  {
    forall i | 0 <= i < |s[1..]| ensures IsWhitespace(s[1..][i]) {
      assert s[1..][i] == s[i + 1];
    }
  }

  lemma NoWhitespaceTail(s: string)
    requires s != [] && NoWhitespace(s)
    ensures NoWhitespace(s[1..])
  {
    forall i | 0 <= i < |s[1..]| ensures !IsWhitespace(s[1..][i]) {
      assert s[1..][i] == s[i + 1];
    }
  }

  /** `s.replace(/\s+/g, rep)`: each maximal run of white space becomes one
      `rep`. */
  function ReplaceWhitespaceRuns(s: string, rep: char): (r: string)
    ensures |r| <= |s|
    ensures !IsWhitespace(rep) ==> NoWhitespace(r)
    ensures forall i :: 0 <= i < |r| ==> r[i] == rep || r[i] in s
    decreases |s|
  {
    if s == [] then []
    else if IsWhitespace(s[0]) then
      var rest := TrimStart(s[1..]);
      SuffixMembers(s, |s| - |rest|);
      [rep] + ReplaceWhitespaceRuns(rest, rep)
    else
      SuffixMembers(s, 1);
      [s[0]] + ReplaceWhitespaceRuns(s[1..], rep)
  }

  /** Text without white space passes through unchanged. */
  lemma {:induction false} ReplaceWhitespaceRunsKeepsWords(s: string, rep: char)
    requires NoWhitespace(s)
    ensures ReplaceWhitespaceRuns(s, rep) == s
    decreases |s|
  {
    if s != [] {
      NoWhitespaceTail(s);
      ReplaceWhitespaceRunsKeepsWords(s[1..], rep);
    }
  }

  /** A word, then a run of white space, then text that does not start with
      white space: the run turns into a single `rep`. */
  lemma {:induction false} ReplaceWhitespaceRunsCollapses(w: string, run: string, rest: string, rep: char)
    requires NoWhitespace(w)
    requires run != [] && AllWhitespace(run)
    requires rest == [] || !IsWhitespace(rest[0])
    ensures ReplaceWhitespaceRuns(w + run + rest, rep) == w + [rep] + ReplaceWhitespaceRuns(rest, rep)
    decreases |w|
  {
    if w == [] {
      assert w + run + rest == run + rest;
      ReplaceWhitespaceRunsRunFirst(run, rest, rep);
    } else {
      var tail := w[1..] + run + rest;
      HeadThenTail(w, run, rest);
      ReplaceWhitespaceRunsWordFirst(w[0], tail, rep);
      NoWhitespaceTail(w);
      ReplaceWhitespaceRunsCollapses(w[1..], run, rest, rep);
      HeadThenTail(w, [rep], ReplaceWhitespaceRuns(rest, rep));
    }
  }

  lemma HeadThenTail<T>(w: seq<T>, m: seq<T>, d: seq<T>)
    requires w != []
    ensures [w[0]] + (w[1..] + m + d) == w + m + d
  {
    assert w == [w[0]] + w[1..];
  }

  /** A leading run of white space becomes one `rep`. */
  lemma ReplaceWhitespaceRunsRunFirst(run: string, rest: string, rep: char)
    requires run != [] && AllWhitespace(run)
    requires rest == [] || !IsWhitespace(rest[0])
    ensures ReplaceWhitespaceRuns(run + rest, rep) == [rep] + ReplaceWhitespaceRuns(rest, rep)
  {
    var s := run + rest;
    assert s[0] == run[0];
    assert s[1..] == run[1..] + rest;
    AllWhitespaceTail(run);
    TrimStartBlankPrefix(run[1..], rest);
  }

  /** A leading character that is not white space is kept. */
  lemma ReplaceWhitespaceRunsWordFirst(c: char, t: string, rep: char)
    requires !IsWhitespace(c)
    ensures ReplaceWhitespaceRuns([c] + t, rep) == [c] + ReplaceWhitespaceRuns(t, rep)
  {
    assert ([c] + t)[0] == c && ([c] + t)[1..] == t;
  }

  lemma {:induction false} TrimStartBlankPrefix(run: string, rest: string)
    requires AllWhitespace(run)
    requires rest == [] || !IsWhitespace(rest[0])
    ensures TrimStart(run + rest) == rest
    decreases |run|
  {
    if run == [] {
      assert run + rest == rest;
    } else {
      assert (run + rest)[1..] == run[1..] + rest;
      AllWhitespaceTail(run);
      TrimStartBlankPrefix(run[1..], rest);
    }
  }
}
