/** The Python string operations the application applies: `p in s`, `lower()`, `strip()`,
    `split(sep)`, `sep.join(parts)` and `replace(old, new)`. Strings are sequences of
    characters; `split` and `replace` scan left to right for non-overlapping occurrences,
    as CPython does. */
module Text {
  import opened Lists

  /** `p` occurs in `s` starting at index `i`. */
  ghost predicate OccursAt(s: string, p: string, i: int) {
    0 <= i && i + |p| <= |s| && s[i..i + |p|] == p
  }

  /** `s.startswith(p)`. */
  predicate StartsWith(s: string, p: string) {
    |p| <= |s| && s[..|p|] == p
  }

  /** Python's `p in s` for strings. */
  predicate Contains(s: string, p: string)
    decreases |s|
  {
    StartsWith(s, p) || (|s| > 0 && Contains(s[1..], p))
  }

  /** Occurrences in `s[1..]` are the occurrences in `s` one position further on. */
  lemma OccursShift(s: string, p: string, i: int)
    requires |s| > 0 && 0 <= i
    ensures OccursAt(s, p, i + 1) <==> OccursAt(s[1..], p, i)
  {
    if i + 1 + |p| <= |s| {
      assert s[1..][i..i + |p|] == s[i + 1..i + 1 + |p|];
    }
  }

  /** `Contains` is the substring relation: some window of `s` equals `p`. */
  lemma {:induction false} ContainsIff(s: string, p: string)
    ensures Contains(s, p) <==> exists i :: OccursAt(s, p, i)
    decreases |s|
  {
    if StartsWith(s, p) {
      assert OccursAt(s, p, 0);
    } else if |s| > 0 {
      ContainsIff(s[1..], p);
      if Contains(s[1..], p) {
        var i :| OccursAt(s[1..], p, i);
        OccursShift(s, p, i);
      }
      if exists j :: OccursAt(s, p, j) {
        var j :| OccursAt(s, p, j);
        OccursShift(s, p, j - 1);
      }
    }
  }

  /** The pattern starting at index `k` makes the string hold it. */
  lemma {:induction false} ContainsAfter(s: string, p: string, k: nat)
    requires k <= |s| && StartsWith(s[k..], p)
    ensures Contains(s, p)
    decreases k
  {
    if k > 0 {
      assert s[1..][k - 1..] == s[k..];
      ContainsAfter(s[1..], p, k - 1);
    }
  }

  /** A string holding `q` holds everything `q` holds. */
  lemma ContainsWithin(s: string, q: string, p: string)
    requires Contains(s, q) && Contains(q, p)
    ensures Contains(s, p)
  {
    ContainsIff(s, q);
    ContainsIff(q, p);
    var i :| OccursAt(s, q, i);
    var j :| OccursAt(q, p, j);
    forall k | 0 <= k < |p|
      ensures s[i + j..i + j + |p|][k] == p[k]
    {
      assert s[i + j + k] == s[i..i + |q|][j + k];
      assert q[j + k] == q[j..j + |p|][k];
    }
    assert OccursAt(s, p, i + j);
    ContainsIff(s, p);
  }

  /** A string that holds the pattern holds its first character. */
  lemma {:induction false} HeadNeeded(s: string, p: string)
    requires |p| > 0
    ensures Contains(s, p) ==> p[0] in s
    decreases |s|
  {
    if StartsWith(s, p) {
      assert s[0] == p[0];
    } else if |s| > 0 {
      HeadNeeded(s[1..], p);
    }
  }

  /** `s.split(sep)` for a non-empty separator: a piece ends where a separator begins. */
  function Split(s: string, sep: string): (parts: seq<string>)
    requires |sep| > 0
    ensures |parts| >= 1
    decreases |s|
  {
    if |s| < |sep| then [s]
    else if s[..|sep|] == sep then [""] + Split(s[|sep|..], sep)
    else
      var rest := Split(s[1..], sep);
      [[s[0]] + rest[0]] + rest[1..]
  }

  /** `sep.join(parts)`. */
  function Join(parts: seq<string>, sep: string): string
    decreases |parts|
  {
    if |parts| == 0 then ""
    else if |parts| == 1 then parts[0]
    else parts[0] + sep + Join(parts[1..], sep)
  }

  /** `s.replace(p, rep)` for a non-empty pattern: every occurrence found scanning left to right,
      without rescanning the replacement text. */
  function ReplaceAll(s: string, p: string, rep: string): string
    requires |p| > 0
    decreases |s|
  {
    if |s| < |p| then s
    else if s[..|p|] == p then rep + ReplaceAll(s[|p|..], p, rep)
    else [s[0]] + ReplaceAll(s[1..], p, rep)
  }

  /** Putting a character in front of the first piece puts it in front of the joined text. */
  lemma JoinConsFirst(c: char, parts: seq<string>, sep: string)
    requires |parts| >= 1
    ensures Join([[c] + parts[0]] + parts[1..], sep) == [c] + Join(parts, sep)
  {
    var moved := [[c] + parts[0]] + parts[1..];
    if |parts| > 1 {
      assert moved[1..] == parts[1..];
    }
  }

  /** Splitting and joining with the same separator gives the string back. */
  lemma {:induction false} JoinSplit(s: string, sep: string)
    requires |sep| > 0
    ensures Join(Split(s, sep), sep) == s
    decreases |s|
  {
    if |s| < |sep| {
    } else if s[..|sep|] == sep {
      var rest := s[|sep|..];
      JoinSplit(rest, sep);
      assert ([""] + Split(rest, sep))[1..] == Split(rest, sep);
      assert s == sep + rest;
    } else {
      JoinSplit(s[1..], sep);
      JoinConsFirst(s[0], Split(s[1..], sep), sep);
    }
  }

  /** A string cut in two or more pieces is its first piece, the separator, its second piece, and
      then the rest of the pieces, each after a separator. */
  lemma SplitFirstTwo(s: string, sep: string)
    requires |sep| > 0 && |Split(s, sep)| >= 2
    ensures var parts := Split(s, sep);
      s == parts[0] + sep + parts[1] + (if |parts| == 2 then "" else sep + Join(parts[2..], sep))
  {
    var parts := Split(s, sep);
    JoinSplit(s, sep);
    var tail := parts[1..];
    assert Join(parts, sep) == parts[0] + sep + Join(tail, sep);
    if |parts| == 2 {
      assert Join(tail, sep) == parts[1];
      assert parts[0] + sep + parts[1] + "" == parts[0] + sep + parts[1];
    } else {
      var rest := Join(parts[2..], sep);
      assert tail[1..] == parts[2..];
      assert Join(tail, sep) == parts[1] + sep + rest;
      AppendAssoc(parts[1], sep, rest);
      AppendAssoc(parts[0] + sep, parts[1], sep + rest);
    }
  }

  /** `s.replace(p, rep)` is `rep.join(s.split(p))`. */
  lemma {:induction false} ReplaceAllIsJoinSplit(s: string, p: string, rep: string)
    requires |p| > 0
    ensures ReplaceAll(s, p, rep) == Join(Split(s, p), rep)
    decreases |s|
  {
    if |s| < |p| {
    } else if s[..|p|] == p {
      var rest := s[|p|..];
      ReplaceAllIsJoinSplit(rest, p, rep);
      assert ([""] + Split(rest, p))[1..] == Split(rest, p);
    } else {
      ReplaceAllIsJoinSplit(s[1..], p, rep);
      JoinConsFirst(s[0], Split(s[1..], p), rep);
    }
  }

  /** The first piece of a split is where the string starts. */
  lemma {:induction false} SplitFirstIsPrefix(s: string, sep: string)
    requires |sep| > 0
    ensures Split(s, sep)[0] <= s
    decreases |s|
  {
    if |s| >= |sep| && s[..|sep|] != sep {
      SplitFirstIsPrefix(s[1..], sep);
      var first := Split(s[1..], sep)[0];
      assert [s[0]] + first <= [s[0]] + s[1..];
      assert [s[0]] + s[1..] == s;
    }
  }

  /** A string starts with whatever its prefixes start with. */
  lemma StartsWithPrefix(t: string, s: string, p: string)
    requires t <= s && StartsWith(t, p)
    ensures StartsWith(s, p)
  {
    assert s[..|p|] == t[..|p|];
  }

  /** No piece of a split holds the separator. */
  lemma {:induction false} SplitPiecesFree(s: string, sep: string)
    requires |sep| > 0
    ensures forall k :: 0 <= k < |Split(s, sep)| ==> !Contains(Split(s, sep)[k], sep)
    decreases |s|
  {
    if |s| < |sep| {
      NotContainedWhenShort(s, sep);
    } else if s[..|sep|] == sep {
      SplitPiecesFree(s[|sep|..], sep);
      var rest := Split(s[|sep|..], sep);
      NotContainedWhenShort("", sep);
      assert forall k :: 1 <= k < |[""] + rest| ==> ([""] + rest)[k] == rest[k - 1];
    } else {
      SplitPiecesFree(s[1..], sep);
      var rest := Split(s[1..], sep);
      var first := [s[0]] + rest[0];
      SplitFirstIsPrefix(s[1..], sep);
      assert first <= s by {
        assert [s[0]] + rest[0] <= [s[0]] + s[1..];
        assert [s[0]] + s[1..] == s;
      }
      if StartsWith(first, sep) {
        StartsWithPrefix(first, s, sep);
      }
      assert first[1..] == rest[0];
      var parts := [first] + rest[1..];
      assert forall k :: 1 <= k < |parts| ==> parts[k] == rest[k];
    }
  }

  /** A string shorter than the pattern does not hold it. */
  lemma {:induction false} NotContainedWhenShort(s: string, p: string)
    requires |s| < |p|
    ensures !Contains(s, p)
    decreases |s|
  {
    if |s| > 0 {
      NotContainedWhenShort(s[1..], p);
    }
  }

  /** A string without the separator is one piece. */
  lemma {:induction false} SplitAbsent(s: string, sep: string)
    requires |sep| > 0 && !Contains(s, sep)
    ensures Split(s, sep) == [s]
    decreases |s|
  {
    if |s| >= |sep| {
      SplitAbsent(s[1..], sep);
      assert [s[0]] + s[1..] == s;
    }
  }

  /** The separator occurs exactly when the split has more than one piece. */
  lemma {:induction false} SplitSeveralIff(s: string, sep: string)
    requires |sep| > 0
    ensures |Split(s, sep)| >= 2 <==> Contains(s, sep)
    decreases |s|
  {
    if |s| < |sep| {
      NotContainedWhenShort(s, sep);
    } else if s[..|sep|] != sep {
      SplitSeveralIff(s[1..], sep);
    }
  }

  /** No occurrence of `sep` begins inside `a`, not even one running into a `sep` written right
      after `a`. */
  predicate SepFreeBefore(a: string, sep: string)
    decreases |a|
  {
    |a| == 0 || (!StartsWith(a + sep, sep) && SepFreeBefore(a[1..], sep))
  }

  /** Then `a + sep + b` splits into `a` followed by the pieces of `b`. */
  lemma {:induction false} SplitAfter(a: string, sep: string, b: string)
    requires |sep| > 0 && SepFreeBefore(a, sep)
    ensures Split(a + sep + b, sep) == [a] + Split(b, sep)
    decreases |a|
  {
    var s := a + sep + b;
    if |a| == 0 {
      assert s == sep + b;
      assert s[..|sep|] == sep && s[|sep|..] == b;
    } else {
      assert s[..|sep|] == (a + sep)[..|sep|];
      assert s[1..] == a[1..] + sep + b;
      SplitAfter(a[1..], sep, b);
      assert [s[0]] + a[1..] == a;
    }
  }

  /** A text without a line break is never cut by a line break written after it. */
  lemma {:induction false} SepFreeBeforeLineBreak(a: string)
    requires '\n' !in a
    ensures SepFreeBefore(a, "\n")
    decreases |a|
  {
    if |a| > 0 {
      assert (a + "\n")[..1] == [a[0]];
      assert forall c :: c in a[1..] ==> c in a;
      SepFreeBeforeLineBreak(a[1..]);
    }
  }

  /** A text without `": "` is never cut by a `": "` written after it. */
  lemma {:induction false} SepFreeBeforeColonSpace(a: string)
    requires !Contains(a, ": ")
    ensures SepFreeBefore(a, ": ")
    decreases |a|
  {
    if |a| > 0 {
      if |a| >= 2 {
        assert (a + ": ")[..2] == a[..2];
      } else {
        assert (a + ": ")[..2][1] == ':';
      }
      SepFreeBeforeColonSpace(a[1..]);
    }
  }

  /** A string the pattern does not occur in is left as it is. */
  lemma {:induction false} ReplaceAllAbsent(s: string, p: string, rep: string)
    requires |p| > 0 && !Contains(s, p)
    ensures ReplaceAll(s, p, rep) == s
    decreases |s|
  {
    if |s| >= |p| {
      ReplaceAllAbsent(s[1..], p, rep);
      assert [s[0]] + s[1..] == s;
    }
  }

  /** No occurrence can straddle the boundary of `a + b`: one of the two characters around it is
      not in the pattern. */
  predicate Seam(a: string, b: string, p: string) {
    |a| == 0 || |b| == 0 || a[|a| - 1] !in p || b[0] !in p
  }

  /** Replacing in a concatenation replaces in each part, when no occurrence can straddle the
      boundary. */
  lemma {:induction false} ReplaceAllAppend(a: string, b: string, p: string, rep: string)
    requires |p| > 0 && Seam(a, b, p)
    ensures ReplaceAll(a + b, p, rep) == ReplaceAll(a, p, rep) + ReplaceAll(b, p, rep)
    decreases |a|, 1
  {
    if |a| == 0 {
      assert a + b == b;
    } else if |a| >= |p| && a[..|p|] == p {
      ReplaceAllAppendMatch(a, b, p, rep);
    } else {
      ReplaceAllAppendSkip(a, b, p, rep);
    }
  }

  /** The case of `ReplaceAllAppend` where `a` starts with the pattern. */
  lemma {:induction false} ReplaceAllAppendMatch(a: string, b: string, p: string, rep: string)
    requires |p| > 0 && Seam(a, b, p) && |a| >= |p| && a[..|p|] == p
    ensures ReplaceAll(a + b, p, rep) == ReplaceAll(a, p, rep) + ReplaceAll(b, p, rep)
    decreases |a|, 0
  {
    assert (a + b)[..|p|] == p;
    assert (a + b)[|p|..] == a[|p|..] + b;
    ReplaceAllAppend(a[|p|..], b, p, rep);
  }

  /** When `a` does not start with the pattern, `a + b` does not either. */
  lemma NoMatchAcross(a: string, b: string, p: string)
    requires |p| > 0 && Seam(a, b, p) && |a| > 0 && !(|a| >= |p| && a[..|p|] == p)
    ensures !(|a + b| >= |p| && (a + b)[..|p|] == p)
  {
    if |a| >= |p| {
      assert (a + b)[..|p|] == a[..|p|];
    } else if |a + b| >= |p| {
      assert (a + b)[..|p|][|a| - 1] == a[|a| - 1];
      assert |b| > 0 && (a + b)[..|p|][|a|] == b[0];
    }
  }

  /** The case of `ReplaceAllAppend` where `a` does not start with the pattern. */
  lemma {:induction false} ReplaceAllAppendSkip(a: string, b: string, p: string, rep: string)
    requires |p| > 0 && Seam(a, b, p) && |a| > 0 && !(|a| >= |p| && a[..|p|] == p)
    ensures ReplaceAll(a + b, p, rep) == ReplaceAll(a, p, rep) + ReplaceAll(b, p, rep)
    decreases |a|, 0
  {
    NoMatchAcross(a, b, p);
    assert (a + b)[1..] == a[1..] + b;
    assert (a + b)[0] == a[0];
    SeamTail(a, b, p);
    ReplaceAllAppend(a[1..], b, p, rep);
    var x := ReplaceAll(a[1..], p, rep);
    var y := ReplaceAll(b, p, rep);
    assert ReplaceAll(a, p, rep) == [a[0]] + x by {
      if |a| < |p| {
        assert a == [a[0]] + a[1..];
      }
    }
    AppendAssoc([a[0]], x, y);
  }

  /** No straddling occurrence after `a + b` stays so after `a[1..] + b`. */
  lemma SeamTail(a: string, b: string, p: string)
    requires |a| > 0 && Seam(a, b, p)
    ensures Seam(a[1..], b, p)
  {
    if |a| > 1 {
      assert a[1..][|a| - 2] == a[|a| - 1];
    }
  }

  /** The decimal digit `d`. */
  function DigitChar(d: nat): char
    requires d < 10
  {
    ('0' as int + d) as char
  }

  predicate IsDigit(c: char) {
    '0' <= c <= '9'
  }

  /** `str(n)`, or `f"{n}"`, for a natural number. */
  function NatToString(n: nat): (s: string)
    ensures |s| > 0 && forall i :: 0 <= i < |s| ==> IsDigit(s[i])
    decreases n
  {
    if n < 10 then [DigitChar(n)] else NatToString(n / 10) + [DigitChar(n % 10)]
  }

  /** The number a string of decimal digits stands for. */
  function DigitsValue(s: string): nat
    requires forall i :: 0 <= i < |s| ==> IsDigit(s[i])
    decreases |s|
  {
    if |s| == 0 then 0
    else
      var last := s[|s| - 1];
      assert IsDigit(last);
      DigitsValue(s[..|s| - 1]) * 10 + (last as int - '0' as int)
  }

  /** Reading the digits back gives the number. */
  lemma {:induction false} NatToStringValue(n: nat)
    ensures DigitsValue(NatToString(n)) == n
    decreases n
  {
    var s := NatToString(n);
    if n >= 10 {
      NatToStringValue(n / 10);
      assert s[..|s| - 1] == NatToString(n / 10);
    } else {
      assert s[..0] == [];
    }
  }

  /** Different numbers print differently. */
  lemma NatToStringInjective(a: nat, b: nat)
    requires NatToString(a) == NatToString(b)
    ensures a == b
  {
    NatToStringValue(a);
    NatToStringValue(b);
  }

  /** `c.lower()` for ASCII letters; every other character is unchanged. */
  function LowerChar(c: char): char {
    if 'A' <= c <= 'Z' then (c as int + 32) as char else c
  }

  /** `s.lower()`, character by character. */
  function Lower(s: string): string {
    seq(|s|, i requires 0 <= i < |s| => LowerChar(s[i]))
  }

  /** Python's `c.isspace()`: the code points CPython treats as whitespace. */
  predicate IsSpace(c: char) {
    var n := c as int;
    (9 <= n <= 13) || (28 <= n <= 32) || n == 0x85 || n == 0xA0 || n == 0x1680 ||
    (0x2000 <= n <= 0x200A) || n == 0x2028 || n == 0x2029 || n == 0x202F || n == 0x205F ||
    n == 0x3000
  }

  /** Every character is whitespace. */
  predicate AllSpace(s: string) {
    forall i :: 0 <= i < |s| ==> IsSpace(s[i])
  }

  /** `s.lstrip()`. */
  function StripStart(s: string): string
    decreases |s|
  {
    if |s| > 0 && IsSpace(s[0]) then StripStart(s[1..]) else s
  }

  /** `s.rstrip()`. */
  function StripEnd(s: string): string
    decreases |s|
  {
    if |s| > 0 && IsSpace(s[|s| - 1]) then StripEnd(s[..|s| - 1]) else s
  }

  /** `s.strip()`. */
  function Strip(s: string): string {
    StripEnd(StripStart(s))
  }

  lemma {:induction false} StripStartEmptyIff(s: string)
    ensures StripStart(s) == "" <==> AllSpace(s)
    ensures StripStart(s) != "" ==> !IsSpace(StripStart(s)[0])
    decreases |s|
  {
    if |s| > 0 && IsSpace(s[0]) {
      StripStartEmptyIff(s[1..]);
      assert AllSpace(s) <==> AllSpace(s[1..]) by {
        if AllSpace(s[1..]) {
          forall i | 0 <= i < |s| ensures IsSpace(s[i]) {
            if i > 0 { assert s[i] == s[1..][i - 1]; }
          }
        }
      }
    }
  }

  lemma {:induction false} StripEndEmptyIff(s: string)
    ensures StripEnd(s) == "" <==> AllSpace(s)
    decreases |s|
  {
    if |s| > 0 && IsSpace(s[|s| - 1]) {
      StripEndEmptyIff(s[..|s| - 1]);
      assert AllSpace(s) <==> AllSpace(s[..|s| - 1]) by {
        if AllSpace(s[..|s| - 1]) {
          forall i | 0 <= i < |s| ensures IsSpace(s[i]) {
            if i < |s| - 1 { assert s[i] == s[..|s| - 1][i]; }
          }
        }
      }
    }
  }

  /** `not s.strip()` holds exactly for the strings made only of whitespace, the empty one included. */
  lemma StripEmptyIff(s: string)
    ensures Strip(s) == "" <==> AllSpace(s)
  {
    StripStartEmptyIff(s);
    var t := StripStart(s);
    StripEndEmptyIff(t);
    if t != "" {
      assert !AllSpace(t) by { assert !IsSpace(t[0]); }
    }
  }
}
