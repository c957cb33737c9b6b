/** The JavaScript string built-ins the application relies on, with their
    JavaScript meaning: `split` on a one-character separator, `join`, `trim`,
    `includes`, the first-occurrence `replace` with a string pattern,
    `toLowerCase`, `String(n)` for integers and `padStart`. */
module Text {
  import opened Wrappers

  // ---------------------------------------------------------------------
  // trim

  /** The characters `String.prototype.trim` removes: white space and line
      terminators. */
  predicate IsWhitespace(c: char) {
    c == ' ' || c == '\t' || c == '\n' || c == '\r' || c == '\U{000B}' || c == '\U{000C}'
    || c == '\U{00A0}' || c == '\U{1680}' || ('\U{2000}' <= c <= '\U{200A}')
    || c == '\U{2028}' || c == '\U{2029}' || c == '\U{202F}' || c == '\U{205F}'
    || c == '\U{3000}' || c == '\U{FEFF}'
  }

  /** Length of the run of white space at the start of `s`. */
  function LeadingSpace(s: string): (n: nat)
    ensures n <= |s|
    ensures forall i :: 0 <= i < n ==> IsWhitespace(s[i])
    ensures n < |s| ==> !IsWhitespace(s[n])
  {
    if |s| > 0 && IsWhitespace(s[0]) then 1 + LeadingSpace(s[1..]) else 0
  }

  /** Length of the run of white space at the end of `s`. */
  function TrailingSpace(s: string): (n: nat)
    ensures n <= |s|
    ensures forall i :: |s| - n <= i < |s| ==> IsWhitespace(s[i])
    ensures n < |s| ==> !IsWhitespace(s[|s| - n - 1])
  {
    if |s| > 0 && IsWhitespace(s[|s| - 1]) then 1 + TrailingSpace(s[..|s| - 1]) else 0
  }

  /** `r` is the slice of `s` at `i`, and everything around it is white space. */
  predicate SliceAmidSpace(s: string, r: string, i: int) {
    0 <= i <= |s| - |r| && r == s[i..i + |r|]
    && (forall k :: 0 <= k < i ==> IsWhitespace(s[k]))
    && (forall k :: i + |r| <= k < |s| ==> IsWhitespace(s[k]))
  }

  /** `s.trim()`: the slice of `s` left after dropping white space at both
      ends; it neither starts nor ends with white space. */
  function Trim(s: string): (r: string)
    ensures r == "" || (!IsWhitespace(r[0]) && !IsWhitespace(r[|r| - 1]))
    ensures exists i :: SliceAmidSpace(s, r, i)
  {
    var a := LeadingSpace(s);
    var t := s[a..];
    var b := TrailingSpace(t);
    assert t[..|t| - b] == s[a..a + (|t| - b)];
    assert SliceAmidSpace(s, t[..|t| - b], a);
    t[..|t| - b]
  }

  lemma TrimUnchanged(s: string)
    requires |s| > 0 && !IsWhitespace(s[0]) && !IsWhitespace(s[|s| - 1])
    ensures Trim(s) == s
  {
    assert LeadingSpace(s) == 0;
    assert s[0..] == s;
    assert TrailingSpace(s) == 0;
  }

  // ---------------------------------------------------------------------
  // split and join

  /** `s.split(sep)` for a one-character `sep`: the maximal pieces between
      separators, empty pieces included; never an empty list. */
  function Split(s: string, sep: char): (parts: seq<string>)
    ensures |parts| >= 1
    ensures forall i :: 0 <= i < |parts| ==> sep !in parts[i]
  {
    if |s| == 0 then [""]
    else
      var rest := Split(s[1..], sep);
      if s[0] == sep then [""] + rest
      else [[s[0]] + rest[0]] + rest[1..]
  }

  /** `s.endsWith(t)`. */
  predicate EndsWith(s: string, t: string) {
    |t| <= |s| && s[|s| - |t|..] == t
  }

  /** `parts.join(sep)`: the pieces in order, the separator between each two. */
  function Join(parts: seq<string>, sep: string): (r: string)
    ensures |parts| == 0 ==> r == ""
    ensures |parts| > 0 ==> EndsWith(r, parts[|parts| - 1])
  {
    if |parts| == 0 then ""
    else if |parts| == 1 then parts[0]
    else parts[0] + sep + Join(parts[1..], sep)
  }

  /** Joining the pieces of a split with the separator gives the string back. */
  lemma {:induction false} JoinSplit(s: string, sep: char)
    ensures Join(Split(s, sep), [sep]) == s
  {
    if |s| > 0 {
      var rest := Split(s[1..], sep);
      JoinSplit(s[1..], sep);
      assert s == [s[0]] + s[1..];
      if s[0] == sep {
        assert Split(s, sep) == [""] + rest;
        JoinAfterEmpty(rest, [sep]);
      } else {
        assert Split(s, sep) == [[s[0]] + rest[0]] + rest[1..];
        JoinConsChar(s[0], rest, [sep]);
      }
    }
  }

  /** An empty first piece leaves just the separator in front. */
  lemma JoinAfterEmpty(parts: seq<string>, sep: string)
    requires |parts| >= 1
    ensures Join([""] + parts, sep) == sep + Join(parts, sep)
  {
    assert ([""] + parts)[1..] == parts;
  }

  /** A character put in front of the first piece stands in front of the
      join. */
  lemma JoinConsChar(c: char, parts: seq<string>, sep: string)
    requires |parts| >= 1
    ensures Join([[c] + parts[0]] + parts[1..], sep) == [c] + Join(parts, sep)
  {
    var q := [[c] + parts[0]] + parts[1..];
    assert q[1..] == parts[1..];
    if |parts| > 1 {
      assert ([c] + parts[0]) + sep + Join(parts[1..], sep) == [c] + (parts[0] + sep + Join(parts[1..], sep));
    }
  }

  lemma {:induction false} SplitWithoutSeparator(a: string, sep: char)
    requires sep !in a
    ensures Split(a, sep) == [a]
  {
    if |a| > 0 {
      SplitWithoutSeparator(a[1..], sep);
      assert a == [a[0]] + a[1..];
    }
  }

  /** A piece free of the separator splits off as one whole part. */
  lemma {:induction false} SplitConcat(a: string, sep: char, b: string)
    requires sep !in a
    ensures Split(a + [sep] + b, sep) == [a] + Split(b, sep)
  {
    var s := a + [sep] + b;
    if |a| == 0 {
      assert s[1..] == b;
    } else {
      assert s[1..] == a[1..] + [sep] + b;
      SplitConcat(a[1..], sep, b);
      assert [s[0]] + a[1..] == a;
    }
  }

  /** Splitting a join of separator-free pieces gives the pieces back. */
  lemma {:induction false} SplitJoin(parts: seq<string>, sep: char)
    requires |parts| >= 1
    requires forall i :: 0 <= i < |parts| ==> sep !in parts[i]
    ensures Split(Join(parts, [sep]), sep) == parts
  {
    if |parts| == 1 {
      SplitWithoutSeparator(parts[0], sep);
    } else {
      SplitJoin(parts[1..], sep);
      SplitConcat(parts[0], sep, Join(parts[1..], [sep]));
      assert [parts[0]] + parts[1..] == parts;
    }
  }

  // ---------------------------------------------------------------------
  // includes and replace

  predicate OccursAt(s: string, pat: string, i: int) {
    0 <= i && i + |pat| <= |s| && s[i..i + |pat|] == pat
  }

  /** The first occurrence of `pat` in `s` at or after `k`. */
  function IndexOfFrom(s: string, pat: string, k: nat): (r: Option<nat>)
    ensures r.Some? ==> k <= r.value && OccursAt(s, pat, r.value)
                        && forall j :: k <= j < r.value ==> !OccursAt(s, pat, j)
    ensures r.None? ==> forall j :: k <= j ==> !OccursAt(s, pat, j)
    decreases |s| - k
  {
    if k + |pat| > |s| then None
    else if s[k..k + |pat|] == pat then Some(k)
    else IndexOfFrom(s, pat, k + 1)
  }

  /** `s.indexOf(pat)`, with None for -1. */
  function IndexOf(s: string, pat: string): Option<nat> {
    IndexOfFrom(s, pat, 0)
  }

  /** `s.includes(pat)`. */
  predicate Contains(s: string, pat: string) {
    IndexOf(s, pat).Some?
  }

  lemma ContainsIffOccurs(s: string, pat: string)
    ensures Contains(s, pat) <==> exists i :: OccursAt(s, pat, i)
  {
    if r :| OccursAt(s, pat, r) {
      assert IndexOf(s, pat).Some?;
    }
  }

  /** Every string includes the empty string. */
  lemma ContainsEmpty(s: string)
    ensures Contains(s, "")
  {
    assert OccursAt(s, "", 0);
  }

  /** The replacement text `replace` inserts for one match: `$$`, `$&`, `` $` ``
      and `$'` are expanded; any other `$` stays literal, since a string
      pattern has no capture groups. */
  function ExpandReplacement(repl: string, matched: string, before: string, after: string): (r: string)
    ensures repl == "$&" ==> r == matched
    ensures repl == "$$" ==> r == "$"
    ensures repl == "$`" ==> r == before
    ensures repl == "$'" ==> r == after
  {
    if |repl| == 0 then ""
    else if repl[0] == '$' && |repl| >= 2 && repl[1] in {'$', '&', '`', '\''} then
      var piece := if repl[1] == '$' then "$" else if repl[1] == '&' then matched
                   else if repl[1] == '`' then before else after;
      piece + ExpandReplacement(repl[2..], matched, before, after)
    else [repl[0]] + ExpandReplacement(repl[1..], matched, before, after)
  }

  lemma {:induction false} ExpandPlain(repl: string, matched: string, before: string, after: string)
    requires '$' !in repl
    ensures ExpandReplacement(repl, matched, before, after) == repl
  {
    if |repl| > 0 {
      ExpandPlain(repl[1..], matched, before, after);
      assert repl == [repl[0]] + repl[1..];
    }
  }

  /** `s.replace(pat, repl)` with a string pattern: only the first occurrence
      is replaced. */
  function ReplaceFirst(s: string, pat: string, repl: string): (r: string)
    ensures IndexOf(s, pat).None? ==> r == s
    ensures IndexOf(s, pat).Some? ==>
              var i := IndexOf(s, pat).value;
              i + |pat| <= |s| && s[..i] <= r && EndsWith(r, s[i + |pat|..])
  {
    match IndexOf(s, pat)
    case None => s
    case Some(i) =>
      s[..i] + ExpandReplacement(repl, pat, s[..i], s[i + |pat|..]) + s[i + |pat|..]
  }

  // ---------------------------------------------------------------------
  // toLowerCase

  function LowerChar(c: char): char {
    if 'A' <= c <= 'Z' then (c as int + 32) as char else c
  }

  /** `s.toLowerCase()` on the ASCII letters. */
  function ToLower(s: string): (r: string)
    ensures |r| == |s| && forall i :: 0 <= i < |s| ==> r[i] == LowerChar(s[i])
  {
    seq(|s|, i requires 0 <= i < |s| => LowerChar(s[i]))
  }

  // ---------------------------------------------------------------------
  // String(n) and padStart

  predicate IsDigit(c: char) { '0' <= c <= '9' }

  function DigitChar(d: int): char
    requires 0 <= d < 10
  {
    "0123456789"[d]
  }

  /** The number a string of decimal digits denotes. */
  function DigitsValue(s: string): int
  {
    if |s| == 0 then 0
    else 10 * DigitsValue(s[..|s| - 1]) + (s[|s| - 1] as int - '0' as int)
  }

  /** `String(n)` for a natural number: its shortest decimal digits. */
  function NatString(n: nat): (r: string)
    ensures |r| >= 1 && forall i :: 0 <= i < |r| ==> IsDigit(r[i])
    ensures DigitsValue(r) == n
    ensures r[0] == '0' <==> n == 0
  {
    if n < 10 then
      var r := [DigitChar(n)];
      assert r[..0] == [];
      r
    else
      var r := NatString(n / 10) + [DigitChar(n % 10)];
      assert r[..|r| - 1] == NatString(n / 10);
      r
  }

  /** `String(n)` for an integer. */
  function IntString(n: int): (r: string)
    ensures |r| >= 1 && '$' !in r && '.' !in r
  {
    if n < 0 then "-" + NatString(-n) else NatString(n)
  }

  /** `s.padStart(len, c)`. */
  function PadStart(s: string, len: nat, c: char): (r: string)
    ensures |r| == if |s| >= len then |s| else len
    ensures r[|r| - |s|..] == s
    ensures forall i :: 0 <= i < |r| - |s| ==> r[i] == c
  {
    if |s| >= len then s else seq(len - |s|, _ => c) + s
  }
}
