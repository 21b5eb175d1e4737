/** Python string operations the adapters rely on, over `string == seq<char>`. */
module Text {

  import opened Results

  /** Python 2's `\w` on byte strings: ASCII letters, digits and '_'. */
  predicate IsWordChar(c: char) {
    ('a' <= c <= 'z') || ('A' <= c <= 'Z') || ('0' <= c <= '9') || c == '_'
  }

  predicate IsDigit(c: char) {
    '0' <= c <= '9'
  }

  predicate StartsWith(s: string, prefix: string) {
    |prefix| <= |s| && s[..|prefix|] == prefix
  }

  predicate EndsWith(s: string, suffix: string) {
    |suffix| <= |s| && s[|s| - |suffix|..] == suffix
  }

  /** Python's `sub in s`. */
  predicate Contains(s: string, sub: string)
    decreases |s|
  {
    StartsWith(s, sub) || (|s| > 0 && Contains(s[1..], sub))
  }

  lemma {:induction false} ContainsMiddle(a: string, b: string, c: string)
    ensures Contains(a + b + c, b)
    decreases |a|
  {
    if |a| == 0 {
      assert (a + b + c)[..|b|] == b;
    } else {
      ContainsMiddle(a[1..], b, c);
      assert (a + b + c)[1..] == a[1..] + b + c;
    }
  }

  /** An occurrence survives appending text. */
  lemma {:induction false} ContainsAppend(a: string, b: string, sub: string)
    requires Contains(a, sub)
    ensures Contains(a + b, sub)
    decreases |a|
  {
    if StartsWith(a, sub) {
      assert (a + b)[..|sub|] == a[..|sub|];
    } else {
      ContainsAppend(a[1..], b, sub);
      assert (a + b)[1..] == a[1..] + b;
    }
  }

  /** An occurrence survives prepending text. */
  lemma {:induction false} ContainsPrepend(a: string, b: string, sub: string)
    requires Contains(b, sub)
    ensures Contains(a + b, sub)
    decreases |a|
  {
    if |a| == 0 {
      assert a + b == b;
    } else {
      ContainsPrepend(a[1..], b, sub);
      assert (a + b)[1..] == a[1..] + b;
    }
  }

  /** The pieces written one after the other: `"".join(parts)`. */
  function Concat(parts: seq<string>): string
    decreases |parts|
  {
    if |parts| == 0 then "" else parts[0] + Concat(parts[1..])
  }

  lemma ConcatStartsWith(parts: seq<string>)
    requires |parts| > 0
    ensures StartsWith(Concat(parts), parts[0])
  {
    assert Concat(parts)[..|parts[0]|] == parts[0];
  }

  /** Prepending text keeps a suffix. */
  lemma EndsWithPrepend(a: string, b: string, w: string)
    requires EndsWith(b, w)
    ensures EndsWith(a + b, w)
  {
    assert (a + b)[|a + b| - |w|..] == b[|b| - |w|..];
  }

  lemma {:induction false} ConcatEndsWith(parts: seq<string>)
    requires |parts| > 0
    ensures EndsWith(Concat(parts), parts[|parts| - 1])
    decreases |parts|
  {
    var s := Concat(parts);
    var last := parts[|parts| - 1];
    if |parts| == 1 {
      assert parts[1..] == [];
      assert Concat(parts[1..]) == "";
      assert s == last + "";
      assert s[|s| - |last|..] == last;
    } else {
      var rest := Concat(parts[1..]);
      ConcatEndsWith(parts[1..]);
      assert s == parts[0] + rest;
      assert s[|s| - |last|..] == rest[|rest| - |last|..];
    }
  }

  /** Every text contains itself. */
  lemma ContainsSelf(s: string)
    ensures Contains(s, s)
  {
    assert s[..|s|] == s;
  }

  /** Whatever occurs in one piece occurs in the concatenation. */
  lemma {:induction false} ContainsInPiece(parts: seq<string>, k: nat, sub: string)
    requires k < |parts| && Contains(parts[k], sub)
    ensures Contains(Concat(parts), sub)
    decreases k
  {
    if k == 0 {
      ContainsAppend(parts[0], Concat(parts[1..]), sub);
    } else {
      ContainsInPiece(parts[1..], k - 1, sub);
      ContainsPrepend(parts[0], Concat(parts[1..]), sub);
    }
  }

  /** An occurrence at a known position is an occurrence. */
  lemma {:induction false} ContainsAt(s: string, i: nat, sub: string)
    requires i + |sub| <= |s| && s[i..i + |sub|] == sub
    ensures Contains(s, sub)
    decreases i
  {
    if i > 0 {
      assert s[1..][i - 1..i - 1 + |sub|] == s[i..i + |sub|];
      ContainsAt(s[1..], i - 1, sub);
    }
  }

  /** Every character of `w` is a word character. */
  predicate IsWord(w: string) {
    forall i :: 0 <= i < |w| ==> IsWordChar(w[i])
  }

  /** An occurrence in a suffix is an occurrence. */
  lemma ContainsSuffix(s: string, k: nat, sub: string)
    requires k <= |s| && Contains(s[k..], sub)
    ensures Contains(s, sub)
  {
    ContainsPrepend(s[..k], s[k..], sub);
    assert s[..k] + s[k..] == s;
  }

  /** The first character of an occurrence occurs in the text. */
  lemma {:induction false} ContainsFirstChar(s: string, sub: string)
    requires |sub| > 0 && Contains(s, sub)
    ensures sub[0] in s
    decreases |s|
  {
    if !StartsWith(s, sub) {
      ContainsFirstChar(s[1..], sub);
    }
  }

  /** A non-empty word cannot run across a non-word character: an
      occurrence in `x + [c] + y` lies in `x` or in `y`. */
  lemma {:induction false} WordAcross(x: string, c: char, y: string, w: string)
    requires |w| > 0 && IsWord(w) && !IsWordChar(c)
    requires Contains(x + [c] + y, w)
    ensures Contains(x, w) || Contains(y, w)
    decreases |x|
  {
    var z := x + [c] + y;
    if |x| == 0 {
      assert z[0] == c;
      assert !StartsWith(z, w);
      assert z[1..] == y;
    } else if StartsWith(z, w) {
      assert forall i :: 0 <= i < |w| ==> z[i] == w[i] && IsWordChar(w[i]);
      assert !IsWordChar(z[|x|]);
      assert x[..|w|] == z[..|w|];
    } else {
      assert z[1..] == x[1..] + [c] + y;
      WordAcross(x[1..], c, y, w);
    }
  }

  /** Number of occurrences of the character `c` in `s`. */
  function Count(s: string, c: char): nat
    decreases |s|
  {
    if |s| == 0 then 0 else (if s[0] == c then 1 else 0) + Count(s[1..], c)
  }

  lemma {:induction false} CountAppend(a: string, b: string, c: char)
    ensures Count(a + b, c) == Count(a, c) + Count(b, c)
    decreases |a|
  {
    if |a| > 0 {
      assert (a + b)[1..] == a[1..] + b;
      CountAppend(a[1..], b, c);
    } else {
      assert a + b == b;
    }
  }

  lemma {:induction false} CountAbsent(s: string, c: char)
    requires c !in s
    ensures Count(s, c) == 0
    decreases |s|
  {
    if |s| > 0 {
      CountAbsent(s[1..], c);
    }
  }

  /** Python's `sep.join(parts)`: empty for no parts, otherwise opening
      with the first part (`JoinEndsWith` gives the last). */
  function Join(parts: seq<string>, sep: string): (r: string)
    ensures |parts| == 0 ==> r == ""
    ensures |parts| > 0 ==> StartsWith(r, parts[0])
    decreases |parts|
  {
    if |parts| == 0 then ""
    else if |parts| == 1 then parts[0]
    else
      var rest := Join(parts[1..], sep);
      assert (parts[0] + sep + rest)[..|parts[0]|] == parts[0];
      parts[0] + sep + rest
  }

  /** A join closes with its last part. */
  lemma {:induction false} JoinEndsWith(parts: seq<string>, sep: string)
    requires |parts| > 0
    ensures EndsWith(Join(parts, sep), parts[|parts| - 1])
    decreases |parts|
  {
    if |parts| > 1 {
      JoinEndsWith(parts[1..], sep);
      EndsWithPrepend(parts[0] + sep, Join(parts[1..], sep), parts[|parts| - 1]);
    }
  }

  /** One unfolding of `Join` for two or more parts. */
  lemma JoinCons(parts: seq<string>, sep: string)
    requires |parts| >= 2
    ensures Join(parts, sep) == parts[0] + sep + Join(parts[1..], sep)
  {
  }

  /** A character found in neither the separator nor any part is not in
      the joined text. */
  lemma {:induction false} JoinAvoids(parts: seq<string>, sep: string, c: char)
    requires c !in sep
    requires forall k :: 0 <= k < |parts| ==> c !in parts[k]
    ensures c !in Join(parts, sep)
    decreases |parts|
  {
    if |parts| > 1 {
      JoinAvoids(parts[1..], sep, c);
    }
  }

  /** Python's `s.split(sep)` for a one-character separator: always at
      least one piece, one more piece than there are separators. */
  function Split(s: string, sep: char): (r: seq<string>)
    ensures |r| == Count(s, sep) + 1
    decreases |s|
  {
    if |s| == 0 then [""]
    else if s[0] == sep then [""] + Split(s[1..], sep)
    else
      var rest := Split(s[1..], sep);
      [[s[0]] + rest[0]] + rest[1..]
  }

  /** No piece of a split holds the separator. */
  lemma {:induction false} SplitPiecesFree(s: string, sep: char)
    ensures forall k :: 0 <= k < |Split(s, sep)| ==> sep !in Split(s, sep)[k]
    decreases |s|
  {
    if |s| > 0 {
      SplitPiecesFree(s[1..], sep);
      var rest := Split(s[1..], sep);
      if s[0] != sep {
        assert sep !in [s[0]] + rest[0];
        var r := [[s[0]] + rest[0]] + rest[1..];
        assert forall k :: 1 <= k < |r| ==> r[k] == rest[k];
      } else {
        var r := [""] + rest;
        assert forall k :: 1 <= k < |r| ==> r[k] == rest[k - 1];
      }
    }
  }

  lemma {:induction false} SplitWithoutSeparator(a: string, sep: char)
    requires sep !in a
    ensures Split(a, sep) == [a]
    decreases |a|
  {
    if |a| > 0 {
      SplitWithoutSeparator(a[1..], sep);
      assert [a[0]] + a[1..] == a;
    }
  }

  lemma {:induction false} SplitFirstPiece(a: string, sep: char, t: string)
    requires sep !in a
    ensures Split(a + [sep] + t, sep) == [a] + Split(t, sep)
    decreases |a|
  {
    var s := a + [sep] + t;
    if |a| == 0 {
      assert s == [sep] + t;
      assert s[1..] == t;
    } else {
      assert s[1..] == a[1..] + [sep] + t;
      SplitFirstPiece(a[1..], sep, t);
      assert [a[0]] + a[1..] == a;
    }
  }

  /** Splitting a newline-joined text gives back its lines, provided no
      line holds the separator itself. */
  lemma {:induction false} SplitJoin(parts: seq<string>, sep: char)
    requires |parts| >= 1
    requires forall k :: 0 <= k < |parts| ==> sep !in parts[k]
    ensures Split(Join(parts, [sep]), sep) == parts
    decreases |parts|
  {
    if |parts| == 1 {
      SplitWithoutSeparator(parts[0], sep);
    } else {
      SplitJoin(parts[1..], sep);
      SplitFirstPiece(parts[0], sep, Join(parts[1..], [sep]));
      assert [parts[0]] + parts[1..] == parts;
    }
  }

  /** Joining the pieces of a split with the separator restores the text. */
  lemma {:induction false} JoinSplit(s: string, sep: char)
    ensures Join(Split(s, sep), [sep]) == s
    decreases |s|
  {
    if |s| > 0 {
      JoinSplit(s[1..], sep);
      var rest := Split(s[1..], sep);
      if s[0] == sep {
        assert ([""] + rest)[1..] == rest;
      } else {
        var r := [[s[0]] + rest[0]] + rest[1..];
        if |rest| > 1 {
          assert r[1..] == rest[1..];
        }
      }
    }
  }

  /** Python's `s.replace(target, repl)`: every occurrence of `target`, leftmost
      first and without overlap, becomes `repl`; an empty `target` inserts
      `repl` before every character and at the end. */
  function ReplaceAll(s: string, target: string, repl: string): (r: string)
    ensures |target| > 0 && !Contains(s, target) ==> r == s
    decreases |s|
  {
    if |target| == 0 then
      (if |s| == 0 then repl else repl + [s[0]] + ReplaceAll(s[1..], target, repl))
    else if |s| == 0 then ""
    else if StartsWith(s, target) then repl + ReplaceAll(s[|target|..], target, repl)
    else
      assert [s[0]] + s[1..] == s;
      [s[0]] + ReplaceAll(s[1..], target, repl)
  }

  /** `target` occurs in `s` starting at position `q`. */
  predicate OccursAt(s: string, q: nat, target: string) {
    q + |target| <= |s| && s[q..q + |target|] == target
  }

  /** Where `target` does not start the text, its first character is copied. */
  lemma ReplaceAllSkip(s: string, target: string, repl: string)
    requires |target| > 0 && |s| > 0 && !OccursAt(s, 0, target)
    ensures ReplaceAll(s, target, repl) == [s[0]] + ReplaceAll(s[1..], target, repl)
  {
  }

  lemma OccursAtShift(s: string, q: nat, target: string)
    requires |s| > 0
    ensures OccursAt(s[1..], q, target) <==> OccursAt(s, q + 1, target)
  {
    if q + 1 + |target| <= |s| {
      assert s[1..][q..q + |target|] == s[q + 1..q + 1 + |target|];
    }
  }

  /** Before the first occurrence of `target`, `str.replace` copies the
      text as it is. */
  lemma {:induction false} ReplaceAllCopiesPrefix(s: string, target: string, repl: string, p: nat)
    requires |target| > 0 && p <= |s|
    requires forall q: nat :: q < p ==> !OccursAt(s, q, target)
    ensures ReplaceAll(s, target, repl) == s[..p] + ReplaceAll(s[p..], target, repl)
    decreases p
  {
    if p > 0 {
      var t := s[1..];
      assert !OccursAt(s, 0, target);
      ReplaceAllSkip(s, target, repl);
      NoOccurrenceShift(s, target, p);
      ReplaceAllCopiesPrefix(t, target, repl, p - 1);
      assert t[p - 1..] == s[p..];
      ConsPrefix(s, p, ReplaceAll(s[p..], target, repl));
    }
  }

  lemma ConsPrefix(s: string, p: nat, tail: string)
    requires 0 < p <= |s|
    ensures [s[0]] + (s[1..][..p - 1] + tail) == s[..p] + tail
  {
    assert [s[0]] + s[1..][..p - 1] == s[..p];
  }

  /** No occurrence before `p` means none before `p - 1` once the first
      character is dropped. */
  lemma NoOccurrenceShift(s: string, target: string, p: nat)
    requires 0 < p <= |s|
    requires forall q: nat :: q < p ==> !OccursAt(s, q, target)
    ensures forall q: nat :: q < p - 1 ==> !OccursAt(s[1..], q, target)
  {
    forall q: nat | q < p - 1
      ensures !OccursAt(s[1..], q, target)
    {
      OccursAtShift(s, q, target);
    }
  }

  /** At the leftmost occurrence of `target` (at `p`), `str.replace` copies
      the text before it, writes `repl` in its place and carries on after
      it. With the unchanged text when there is no occurrence, this fixes
      the result for every input. */
  lemma {:induction false} ReplaceAllFirstMatch(s: string, target: string, repl: string, p: nat)
    requires |target| > 0 && OccursAt(s, p, target)
    requires forall q: nat :: q < p ==> !OccursAt(s, q, target)
    ensures ReplaceAll(s, target, repl)
      == s[..p] + repl + ReplaceAll(s[p + |target|..], target, repl)
  {
    ReplaceAllCopiesPrefix(s, target, repl, p);
    var u := s[p..];
    assert OccursAt(u, 0, target) by {
      assert u[0..|target|] == s[p..p + |target|];
    }
    ReplaceAllAtMatch(u, target, repl);
    assert u[|target|..] == s[p + |target|..];
  }

  /** An occurrence at the start is replaced and the scan resumes after it. */
  lemma ReplaceAllAtMatch(s: string, target: string, repl: string)
    requires |target| > 0 && OccursAt(s, 0, target)
    ensures ReplaceAll(s, target, repl) == repl + ReplaceAll(s[|target|..], target, repl)
  {
    assert StartsWith(s, target) by {
      assert s[..|target|] == s[0..|target|];
    }
  }

  /** Replacing a single character, position by position. */
  function ReplaceChar(s: string, a: char, repl: string): string
    decreases |s|
  {
    if |s| == 0 then "" else (if s[0] == a then repl else [s[0]]) + ReplaceChar(s[1..], a, repl)
  }

  /** For a one-character target, `str.replace` is the per-character
      substitution. */
  lemma {:induction false} ReplaceAllOneChar(s: string, a: char, repl: string)
    ensures ReplaceAll(s, [a], repl) == ReplaceChar(s, a, repl)
    decreases |s|
  {
    if |s| > 0 {
      assert s[..1] == [s[0]];
      ReplaceAllOneChar(s[1..], a, repl);
    }
  }

  /** Replacing `target` by `repl` and then `repl` by `target` restores the text,
      as long as the first character of `repl` never occurs in it. */
  lemma {:induction false} ReplaceAllRoundTrip(s: string, target: string, repl: string)
    requires |target| > 0 && |repl| > 0
    requires repl[0] !in s
    ensures ReplaceAll(ReplaceAll(s, target, repl), repl, target) == s
    decreases |s|
  {
    if |s| > 0 {
      if StartsWith(s, target) {
        var t := ReplaceAll(s[|target|..], target, repl);
        ReplaceAllRoundTrip(s[|target|..], target, repl);
        assert (repl + t)[..|repl|] == repl;
        assert (repl + t)[|repl|..] == t;
        assert s[..|target|] + s[|target|..] == s;
      } else {
        var t := ReplaceAll(s[1..], target, repl);
        ReplaceAllRoundTrip(s[1..], target, repl);
        assert ([s[0]] + t)[0] == s[0];
        assert ([s[0]] + t)[1..] == t;
        assert [s[0]] + s[1..] == s;
      }
    }
  }

  /** Replacing one character by another maps the text character by
      character. */
  lemma {:induction false} ReplaceAllChar(s: string, a: char, b: char)
    ensures |ReplaceAll(s, [a], [b])| == |s|
    ensures forall i :: 0 <= i < |s| ==>
      ReplaceAll(s, [a], [b])[i] == (if s[i] == a then b else s[i])
    decreases |s|
  {
    if |s| > 0 {
      ReplaceAllChar(s[1..], a, b);
      var t := ReplaceAll(s[1..], [a], [b]);
      if StartsWith(s, [a]) {
        assert s[1..] == s[|[a]|..];
        assert ReplaceAll(s, [a], [b]) == [b] + t;
      } else {
        assert ReplaceAll(s, [a], [b]) == [s[0]] + t;
      }
    }
  }

  function DigitChar(d: nat): (c: char)
    requires d < 10
    ensures IsDigit(c)
  {
    ('0' as int + d) as char
  }

  function DigitValue(c: char): (d: nat)
    requires IsDigit(c)
    ensures d < 10
  {
    c as int - '0' as int
  }

  /** Python's `str(n)` for a non-negative integer: decimal digits, no
      leading zero. */
  function NatToString(n: nat): (r: string)
    ensures |r| >= 1
    ensures forall i :: 0 <= i < |r| ==> IsDigit(r[i])
    ensures |r| > 1 ==> r[0] != '0'
    decreases n
  {
    if n < 10 then [DigitChar(n)] else NatToString(n / 10) + [DigitChar(n % 10)]
  }

  /** The value of a string of decimal digits. */
  function DigitsValue(s: string): nat
    requires forall i :: 0 <= i < |s| ==> IsDigit(s[i])
    decreases |s|
  {
    if |s| == 0 then 0 else 10 * DigitsValue(s[..|s| - 1]) + DigitValue(s[|s| - 1])
  }

  /** Reading back the decimal text of `n` gives `n`. */
  lemma {:induction false} NatToStringRoundTrip(n: nat)
    ensures DigitsValue(NatToString(n)) == n
    decreases n
  {
    if n >= 10 {
      NatToStringRoundTrip(n / 10);
      var s := NatToString(n);
      assert s[..|s| - 1] == NatToString(n / 10);
    }
  }
}
