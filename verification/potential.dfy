/** The `Potential` object (bubbler/potential.py): field-name rewriting into
    array syntax for the C and Mathematica renderings, the C gradient
    lines, vacuum selection and the one-dimensional test potential.

    Everything the computer-algebra layer computes (free symbols, C code of
    an expression, the extrema and the potential's value there, numerical
    polishing of a guess) is an input: an `Algebra` record. */
module Potentials {

  import opened Results
  import opened Text
  import opened Tables

  /** A stationary point of the potential together with the potential's
      value there (the sort key `_sympy_potential.subs`). */
  datatype Extremum = Extremum(point: seq<Num>, value: Num)

  /** What the symbolic layer reports about one potential expression. */
  datatype Algebra = Algebra(
    fieldNames: seq<string>,           // the free symbols, in the library's order
    cxxPotential: string,              // `cxxcode` of the potential
    cxxDerivative: string -> string,   // `cxxcode` of the derivative by a field
    extrema: seq<Extremum>,            // all solutions of grad V = 0
    nsolve: seq<Num> -> seq<Num>)      // polishing of a guess into a stationary point

  /** A vacuum as the object stores it: a point, or the array `[None]`
      that `np.atleast_1d(None)` builds. */
  datatype Vacuum = Point(coords: seq<Num>) | NoneArray
  {
    /** The components' texts as iterating the array and formatting each
        element with `fmt` gives them; `None` prints as "None". */
    function Components(fmt: Num -> string): (r: seq<string>)
      ensures Point? ==> |r| == |coords| && forall i :: 0 <= i < |coords| ==> r[i] == fmt(coords[i])
      ensures NoneArray? ==> r == ["None"]
    {
      match this
      case Point(cs) => seq(|cs|, i requires 0 <= i < |cs| => fmt(cs[i]))
      case NoneArray => ["None"]
    }
  }

  datatype Potential = Potential(
    ginac: string,
    algebra: Algebra,
    trueVacuum: Vacuum,
    falseVacuum: Vacuum)
  {
    function FieldNames(): seq<string> {
      algebra.fieldNames
    }

    function FieldCount(): nat {
      |algebra.fieldNames|
    }
  }

  // ---------------------------------------------------------------------
  // names_to_array: each field name, flanked by non-word characters on
  // both sides, becomes an indexed reference into the array
  // ---------------------------------------------------------------------

  /** The pattern `(\W)(name)(\W)` matches at position `p` of `s`. */
  predicate FlankedAt(s: string, p: nat, name: string) {
    && p + |name| + 2 <= |s|
    && !IsWordChar(s[p])
    && s[p + 1..p + 1 + |name|] == name
    && !IsWordChar(s[p + 1 + |name|])
  }

  /** One `re.sub` call: scanning left to right, each match keeps both
      flanking characters and replaces the name by `rep`; the scan resumes
      after the right flank, so a flank is never shared by two matches. */
  function SubFlanked(s: string, name: string, rep: string): (r: string)
    ensures |r| == 0 <==> |s| == 0
    ensures |s| > 0 ==> r[0] == s[0] && r[|r| - 1] == s[|s| - 1]
    decreases |s|
  {
    if |s| == 0 then ""
    else if FlankedAt(s, 0, name) then
      [s[0]] + rep + [s[|name| + 1]] + SubFlanked(s[|name| + 2..], name, rep)
    else [s[0]] + SubFlanked(s[1..], name, rep)
  }

  lemma FlankedAtShift(s: string, q: nat, name: string)
    requires |s| > 0
    ensures FlankedAt(s[1..], q, name) <==> FlankedAt(s, q + 1, name)
  {
    if q + 1 + |name| + 2 <= |s| {
      assert s[1..][q + 1..q + 1 + |name|] == s[q + 2..q + 2 + |name|];
    }
  }

  /** A word (a run of word characters) at the start of the text survives
      the substitution: no match can begin inside it. */
  lemma {:induction false} SubFlankedKeepsLeadingWord(s: string, name: string, rep: string, w: string)
    requires IsWord(w) && StartsWith(s, w)
    ensures StartsWith(SubFlanked(s, name, rep), w)
    decreases |s|
  {
    if |w| > 0 {
      assert s[0] == w[0] && IsWordChar(w[0]);
      SubFlankedSkip(s, name, rep);
      assert s[1..][..|w| - 1] == w[1..];
      SubFlankedKeepsLeadingWord(s[1..], name, rep, w[1..]);
    }
  }

  /** Conversely, a word the result starts with was already at the start
      of the text. */
  lemma {:induction false} SubFlankedLeadingWordBack(s: string, name: string, rep: string, w: string)
    requires |w| > 0 && IsWord(w) && StartsWith(SubFlanked(s, name, rep), w)
    ensures StartsWith(s, w)
    decreases |s|
  {
    var t := SubFlanked(s, name, rep);
    assert |s| > 0;
    assert t[0] == w[0] && IsWordChar(w[0]);
    assert !FlankedAt(s, 0, name);
    SubFlankedSkip(s, name, rep);
    if |w| > 1 {
      var rest := SubFlanked(s[1..], name, rep);
      assert rest[..|w| - 1] == w[1..];
      SubFlankedLeadingWordBack(s[1..], name, rep, w[1..]);
      assert s[..|w|] == [s[0]] + s[1..][..|w| - 1];
    }
  }

  /** A text of word characters only offers no left flank, so the
      pattern matches nowhere in it. */
  lemma WordHasNoMatch(s: string, name: string)
    requires IsWord(s)
    ensures forall p: nat :: !FlankedAt(s, p, name)
  {
    forall p: nat
      ensures !FlankedAt(s, p, name)
    {
      if p < |s| {
        assert IsWordChar(s[p]);
      }
    }
  }

  /** A word at the end of the text survives the substitution: a match
      needs a non-word right flank after the name. */
  lemma {:induction false} SubFlankedKeepsTrailingWord(s: string, name: string, rep: string, w: string)
    requires IsWord(w) && EndsWith(s, w)
    ensures EndsWith(SubFlanked(s, name, rep), w)
    decreases |s|
  {
    var m := |s| - |w|;
    if |w| == 0 {
    } else if m == 0 {
      assert s == w;
      WordHasNoMatch(s, name);
      SubFlankedNoMatch(s, name, rep);
    } else if FlankedAt(s, 0, name) {
      var n := |name|;
      var rest := s[n + 2..];
      assert m > n + 1 by {
        forall i | m <= i < |s|
          ensures IsWordChar(s[i])
        {
          assert s[i] == w[i - m];
        }
        assert !IsWordChar(s[n + 1]);
      }
      assert rest[|rest| - |w|..] == s[m..];
      SubFlankedKeepsTrailingWord(rest, name, rep, w);
      SubFlankedAtMatch(s, name, rep);
      var tail := SubFlanked(rest, name, rep);
      EndsWithPrepend(rep + [s[n + 1]], tail, w);
      EndsWithPrepend([s[0]], rep + [s[n + 1]] + tail, w);
    } else {
      SubFlankedSkip(s, name, rep);
      assert s[1..][|s| - 1 - |w|..] == s[m..];
      SubFlankedKeepsTrailingWord(s[1..], name, rep, w);
      EndsWithPrepend([s[0]], SubFlanked(s[1..], name, rep), w);
    }
  }

  /** The substitution creates no new occurrence of a word: a word found
      in the result was in the text already or is part of `rep`. */
  lemma {:induction false} SubFlankedNewWords(s: string, name: string, rep: string, w: string)
    requires |w| > 0 && IsWord(w)
    requires Contains(SubFlanked(s, name, rep), w)
    ensures Contains(s, w) || Contains(rep, w)
    decreases |s|
  {
    var t := SubFlanked(s, name, rep);
    assert |s| > 0;
    if FlankedAt(s, 0, name) {
      var n := |name|;
      var rest := s[n + 2..];
      var tail := SubFlanked(rest, name, rep);
      assert t == ([s[0]] + rep) + [s[n + 1]] + tail;
      WordAcross([s[0]] + rep, s[n + 1], tail, w);
      if Contains([s[0]] + rep, w) {
        assert [s[0]] + rep == "" + [s[0]] + rep;
        WordAcross("", s[0], rep, w);
      } else {
        SubFlankedNewWords(rest, name, rep, w);
        if Contains(rest, w) {
          ContainsSuffix(s, n + 2, w);
        }
      }
    } else {
      SubFlankedSkip(s, name, rep);
      var tail := SubFlanked(s[1..], name, rep);
      if StartsWith(t, w) {
        SubFlankedLeadingWordBack(s, name, rep, w);
      } else {
        assert t[1..] == tail;
        SubFlankedNewWords(s[1..], name, rep, w);
      }
    }
  }

  /** Before the first match the text is copied unchanged. */
  lemma {:induction false} SubFlankedCopiesPrefix(s: string, name: string, rep: string, p: nat)
    requires p <= |s|
    requires forall q: nat :: q < p ==> !FlankedAt(s, q, name)
    ensures SubFlanked(s, name, rep) == s[..p] + SubFlanked(s[p..], name, rep)
    decreases p
  {
    if p > 0 {
      var t := s[1..];
      assert !FlankedAt(s, 0, name);
      forall q: nat | q < p - 1
        ensures !FlankedAt(t, q, name)
      {
        FlankedAtShift(s, q, name);
      }
      SubFlankedCopiesPrefix(t, name, rep, p - 1);
      assert t[p - 1..] == s[p..];
      assert [s[0]] + t[..p - 1] == s[..p];
    }
  }

  /** At a match the name is replaced and the scan resumes after the
      right flank. */
  lemma SubFlankedAtMatch(u: string, name: string, rep: string)
    requires FlankedAt(u, 0, name)
    ensures SubFlanked(u, name, rep) == [u[0]] + (rep + [u[|name| + 1]] + SubFlanked(u[|name| + 2..], name, rep))
  {
    var tail := SubFlanked(u[|name| + 2..], name, rep);
    assert SubFlanked(u, name, rep) == [u[0]] + rep + [u[|name| + 1]] + tail;
    assert [u[0]] + rep + [u[|name| + 1]] + tail == [u[0]] + (rep + [u[|name| + 1]] + tail);
  }

  /** Where the pattern does not match, the character is copied. */
  lemma SubFlankedSkip(u: string, name: string, rep: string)
    requires |u| > 0 && !FlankedAt(u, 0, name)
    ensures SubFlanked(u, name, rep) == [u[0]] + SubFlanked(u[1..], name, rep)
  {
  }

  lemma FlankedAtSuffix(s: string, p: nat, name: string)
    requires FlankedAt(s, p, name)
    ensures FlankedAt(s[p..], 0, name)
  {
    assert s[p..][1..1 + |name|] == s[p + 1..p + 1 + |name|];
  }

  /** Leftmost matching: up to the first position where the pattern
      matches, the text is copied; there the name is replaced, and the
      scan continues after the right flank. */
  lemma SubFlankedFirstMatch(s: string, name: string, rep: string, p: nat)
    requires FlankedAt(s, p, name)
    requires forall q: nat :: q < p ==> !FlankedAt(s, q, name)
    ensures SubFlanked(s, name, rep)
      == s[..p + 1] + rep + [s[p + |name| + 1]] + SubFlanked(s[p + |name| + 2..], name, rep)
  {
    var n := |name|;
    SubFlankedCopiesPrefix(s, name, rep, p);
    var u := s[p..];
    FlankedAtSuffix(s, p, name);
    SubFlankedAtMatch(u, name, rep);
    assert u[n + 2..] == s[p + n + 2..];
    var tail := SubFlanked(s[p + n + 2..], name, rep);
    PrefixExtend(s, p, rep, s[p + n + 1], tail);
  }

  lemma PrefixExtend(s: string, p: nat, rep: string, x: char, tail: string)
    requires p < |s|
    ensures s[..p] + ([s[p]] + (rep + [x] + tail)) == s[..p + 1] + rep + [x] + tail
  {
    assert s[..p] + [s[p]] == s[..p + 1];
  }

  /** A text in which the pattern matches nowhere is returned unchanged. */
  lemma {:induction false} SubFlankedNoMatch(s: string, name: string, rep: string)
    requires forall p: nat :: !FlankedAt(s, p, name)
    ensures SubFlanked(s, name, rep) == s
    decreases |s|
  {
    if |s| > 0 {
      forall q: nat
        ensures !FlankedAt(s[1..], q, name)
      {
        FlankedAtShift(s, q, name);
      }
      SubFlankedNoMatch(s[1..], name, rep);
      assert [s[0]] + s[1..] == s;
    }
  }

  /** A text that does not mention the name at all is returned unchanged. */
  lemma SubFlankedUnmentioned(s: string, name: string, rep: string)
    requires !Contains(s, name)
    ensures SubFlanked(s, name, rep) == s
  {
    forall p: nat
      ensures !FlankedAt(s, p, name)
    {
      if FlankedAt(s, p, name) {
        ContainsAt(s, p + 1, name);
      }
    }
    SubFlankedNoMatch(s, name, rep);
  }

  /** "(x*x)": both x's stand between non-word characters, but the '*'
      consumed as the right flank of the first match cannot open the
      second, so only the first x is rewritten. */
  lemma ConsumedFlankExample()
    ensures FlankedAt("(x*x)", 0, "x") && FlankedAt("(x*x)", 2, "x")
    ensures SubFlanked("(x*x)", "x", "q[0]") == "(q[0]*x)"
  {
    var s := "(x*x)";
    assert FlankedAt(s, 0, "x");
    assert s[3..] == "x)";
    assert !FlankedAt("x)", 0, "x");
    assert SubFlanked(")", "x", "q[0]") == ")";
  }

  /** The parts of a text framed as `a`, `mid`, `b`, `tail`. */
  lemma Framed(a: char, mid: string, b: char, tail: string)
    ensures var w := [a] + (mid + [b] + tail);
      && |w| == |mid| + 2 + |tail| && w[0] == a && w[1..1 + |mid|] == mid
      && w[|mid| + 1] == b && w[|mid| + 2..] == tail
  {
    var w := [a] + (mid + [b] + tail);
    assert w[1..1 + |mid|] == mid;
    assert w[|mid| + 2..] == tail;
  }

  /** Rewriting the name into `rep` and then `rep` back into the name
      restores the text, provided the first character of `rep` does not
      occur in it. */
  lemma {:induction false} SubFlankedRoundTrip(s: string, name: string, rep: string)
    requires |rep| > 0 && rep[0] !in s
    ensures SubFlanked(SubFlanked(s, name, rep), rep, name) == s
    decreases |s|, 1
  {
    if |s| > 0 {
      if FlankedAt(s, 0, name) {
        RoundTripAtMatch(s, name, rep);
      } else {
        RoundTripSkip(s, name, rep);
      }
    }
  }

  /** The round trip where the text opens with a match. */
  lemma {:induction false} RoundTripAtMatch(s: string, name: string, rep: string)
    requires |rep| > 0 && rep[0] !in s && FlankedAt(s, 0, name)
    ensures SubFlanked(SubFlanked(s, name, rep), rep, name) == s
    decreases |s|, 0
  {
    var n := |name|;
    var x, rest := s[n + 1], s[n + 2..];
    var t := SubFlanked(s, name, rep);
    var u := SubFlanked(rest, name, rep);
    assert t == [s[0]] + (rep + [x] + u) by {
      SubFlankedAtMatch(s, name, rep);
    }
    assert FlankedAt(t, 0, rep) by {
      Framed(s[0], rep, x, u);
    }
    assert SubFlanked(t, rep, name) == [s[0]] + (name + [x] + SubFlanked(u, rep, name)) by {
      Framed(s[0], rep, x, u);
      SubFlankedAtMatch(t, rep, name);
    }
    assert SubFlanked(u, rep, name) == rest by {
      SubFlankedRoundTrip(rest, name, rep);
    }
    assert s == [s[0]] + (name + [x] + rest) by {
      Unframed(s, n);
    }
  }

  /** A text split into its first character, the next `n` characters, one
      more character and the rest. */
  lemma Unframed(s: string, n: nat)
    requires n + 2 <= |s|
    ensures s == [s[0]] + (s[1..n + 1] + [s[n + 1]] + s[n + 2..])
  {
    assert s[1..n + 1] + [s[n + 1]] == s[1..n + 2];
    assert s[1..n + 2] + s[n + 2..] == s[1..];
  }

  /** The round trip where the first character is copied. */
  lemma {:induction false} RoundTripSkip(s: string, name: string, rep: string)
    requires |rep| > 0 && rep[0] !in s && |s| > 0 && !FlankedAt(s, 0, name)
    ensures SubFlanked(SubFlanked(s, name, rep), rep, name) == s
    decreases |s|, 0
  {
    var t := SubFlanked(s, name, rep);
    var u := SubFlanked(s[1..], name, rep);
    SubFlankedRoundTrip(s[1..], name, rep);
    SubFlankedSkip(s, name, rep);
    assert t[0] == s[0] && t[1..] == u;
    assert !FlankedAt(t, 0, rep) by {
      if |s| > 1 {
        assert t[1] == s[1];
      }
    }
    SubFlankedSkip(t, rep, name);
    assert [s[0]] + s[1..] == s;
  }

  /** When neither the name nor `rep` holds `c`, the rewriting leaves the
      number of `c` characters unchanged (so the gradient keeps its line
      count). */
  lemma {:induction false} SubFlankedKeepsCount(s: string, name: string, rep: string, c: char)
    requires c !in name && c !in rep
    ensures Count(SubFlanked(s, name, rep), c) == Count(s, c)
    decreases |s|
  {
    if |s| > 0 {
      if FlankedAt(s, 0, name) {
        var n := |name|;
        var rest := s[n + 2..];
        var u := SubFlanked(rest, name, rep);
        var ends := Count([s[0]], c) + Count([s[n + 1]], c);
        SubFlankedKeepsCount(rest, name, rep, c);
        assert Count(s, c) == ends + Count(rest, c) by {
          assert s == [s[0]] + name + [s[n + 1]] + rest;
          CountAbsent(name, c);
          CountAppend([s[0]] + name + [s[n + 1]], rest, c);
          CountAppend([s[0]] + name, [s[n + 1]], c);
          CountAppend([s[0]], name, c);
        }
        assert Count(SubFlanked(s, name, rep), c) == ends + Count(u, c) by {
          assert SubFlanked(s, name, rep) == [s[0]] + rep + [s[n + 1]] + u;
          CountAbsent(rep, c);
          CountAppend([s[0]] + rep + [s[n + 1]], u, c);
          CountAppend([s[0]] + rep, [s[n + 1]], c);
          CountAppend([s[0]], rep, c);
        }
      } else {
        SubFlankedKeepsCount(s[1..], name, rep, c);
      }
    }
  }

  /** The indexed array element that replaces a field name, e.g. `q[0]`. */
  function ArrayRef(arrayName: string, index: nat): string {
    arrayName + "[" + NatToString(index) + "]"
  }

  const CannotContain := "Field name cannot contain "

  /** The loop of `names_to_array` from field `i` on, `shift` being the
      index offset. */
  function RenameFrom(names: seq<string>, i: nat, s: string, arrayName: string, shift: nat): (r: Result<string>)
    requires i <= |names|
    ensures r.Err? <==> exists k :: i <= k < |names| && Contains(names[k], arrayName)
    ensures r.Err? ==> r.message == CannotContain + arrayName
    decreases |names| - i
  {
    if i == |names| then Ok(s)
    else if Contains(names[i], arrayName) then Err(CannotContain + arrayName)
    else RenameFrom(names, i + 1, SubFlanked(s, names[i], ArrayRef(arrayName, i + shift)), arrayName, shift)
  }

  /** `Potential.names_to_array`: rewrites field `i` into
      `<arrayName>[i]` (zero-based) or `<arrayName>[i+1]`, one field after
      the other; raises as soon as a field name contains the array name. */
  function NamesToArray(names: seq<string>, s: string, arrayName: string, zeroBased: bool): (r: Result<string>)
    ensures r.Err? <==> exists k :: 0 <= k < |names| && Contains(names[k], arrayName)
    ensures r.Err? ==> r.message == CannotContain + arrayName
  {
    RenameFrom(names, 0, s, arrayName, if zeroBased then 0 else 1)
  }

  lemma {:induction false} RenameFromUnmentioned(names: seq<string>, i: nat, s: string, arrayName: string, shift: nat)
    requires i <= |names|
    requires forall k :: i <= k < |names| ==> !Contains(names[k], arrayName) && !Contains(s, names[k])
    ensures RenameFrom(names, i, s, arrayName, shift) == Ok(s)
    decreases |names| - i
  {
    if i < |names| {
      SubFlankedUnmentioned(s, names[i], ArrayRef(arrayName, i + shift));
      RenameFromUnmentioned(names, i + 1, s, arrayName, shift);
    }
  }

  /** A text that mentions no field is returned unchanged. */
  lemma NamesToArrayUnmentioned(names: seq<string>, s: string, arrayName: string, zeroBased: bool)
    requires forall k :: 0 <= k < |names| ==> !Contains(names[k], arrayName) && !Contains(s, names[k])
    ensures NamesToArray(names, s, arrayName, zeroBased) == Ok(s)
  {
    RenameFromUnmentioned(names, 0, s, arrayName, if zeroBased then 0 else 1);
  }

  /** For a single field, the rewriting is undone by rewriting the array
      element back into the name. */
  lemma NamesToArraySingleRoundTrip(name: string, s: string, arrayName: string, zeroBased: bool)
    requires !Contains(name, arrayName)
    requires ArrayRef(arrayName, if zeroBased then 0 else 1)[0] !in s
    ensures NamesToArray([name], s, arrayName, zeroBased).Ok?
    ensures SubFlanked(NamesToArray([name], s, arrayName, zeroBased).value,
                       ArrayRef(arrayName, if zeroBased then 0 else 1), name) == s
  {
    var shift := if zeroBased then 0 else 1;
    var rep := ArrayRef(arrayName, shift);
    assert RenameFrom([name], 0, s, arrayName, shift)
        == RenameFrom([name], 1, SubFlanked(s, name, rep), arrayName, shift)
        == Ok(SubFlanked(s, name, rep));
    SubFlankedRoundTrip(s, name, rep);
  }

  /** A sympy symbol name: a non-empty run of word characters that does
      not start with a digit. */
  predicate Identifier(w: string) {
    |w| > 0 && !IsDigit(w[0]) && IsWord(w)
  }

  /** An identifier inside an array element lies inside the array name:
      the index is digits and the brackets are not word characters. */
  lemma ArrayRefWord(arrayName: string, index: nat, w: string)
    requires Identifier(w) && Contains(ArrayRef(arrayName, index), w)
    ensures Contains(arrayName, w)
  {
    var digits := NatToString(index);
    assert ArrayRef(arrayName, index) == arrayName + ['['] + (digits + "]");
    WordAcross(arrayName, '[', digits + "]", w);
    if Contains(digits + "]", w) {
      assert digits + "]" == digits + [']'] + "";
      WordAcross(digits, ']', "", w);
      ContainsFirstChar(digits, w);
    }
  }

  /** The loop when the text mentions only field `k`: every earlier field
      leaves it alone, field `k` becomes `<arrayName>[k + shift]`, and no
      later field finds its name in the result. */
  lemma {:induction false} RenameFromOnlyField(names: seq<string>, i: nat, s: string, arrayName: string,
                                               shift: nat, k: nat)
    requires i <= k < |names|
    requires forall j :: i <= j < |names| ==> !Contains(names[j], arrayName)
    requires forall j :: i <= j < |names| && j != k ==>
      Identifier(names[j]) && !Contains(arrayName, names[j]) && !Contains(s, names[j])
    ensures RenameFrom(names, i, s, arrayName, shift)
         == Ok(SubFlanked(s, names[k], ArrayRef(arrayName, k + shift)))
    decreases k - i
  {
    if i < k {
      SubFlankedUnmentioned(s, names[i], ArrayRef(arrayName, i + shift));
      RenameFromOnlyField(names, i + 1, s, arrayName, shift, k);
    } else {
      var rep := ArrayRef(arrayName, k + shift);
      var t := SubFlanked(s, names[k], rep);
      forall j | k < j < |names|
        ensures !Contains(t, names[j])
      {
        if Contains(t, names[j]) {
          SubFlankedNewWords(s, names[k], rep, names[j]);
          if Contains(rep, names[j]) {
            ArrayRefWord(arrayName, k + shift, names[j]);
          }
        }
      }
      RenameFromUnmentioned(names, k + 1, t, arrayName, shift);
    }
  }

  /** With any number of fields, a text that mentions only field `k` has
      exactly that field rewritten, into the element of index `k`
      (zero-based) or `k + 1` (one-based). */
  lemma NamesToArrayOnlyField(names: seq<string>, s: string, arrayName: string, zeroBased: bool, k: nat)
    requires k < |names|
    requires forall j :: 0 <= j < |names| ==> !Contains(names[j], arrayName)
    requires forall j :: 0 <= j < |names| && j != k ==>
      Identifier(names[j]) && !Contains(arrayName, names[j]) && !Contains(s, names[j])
    ensures NamesToArray(names, s, arrayName, zeroBased)
         == Ok(SubFlanked(s, names[k], ArrayRef(arrayName, k + (if zeroBased then 0 else 1))))
  {
    RenameFromOnlyField(names, 0, s, arrayName, if zeroBased then 0 else 1, k);
  }

  /** The first pass of the two-field example rewrites the flanked x. */
  lemma FirstPassExample()
    ensures SubFlanked("(x*y)", "x", "q[0]") == "(q[0]*y)"
  {
    var s := "(x*y)";
    assert FlankedAt(s, 0, "x");
    assert s[3..] == "y)";
    assert !FlankedAt("y)", 0, "x");
    assert SubFlanked(")", "x", "q[0]") == ")";
  }

  /** The second pass rewrites y, whose left flank is the '*' that closed
      the first match. */
  lemma SecondPassExample(t: string)
    requires t == "(q[0]*y)"
    ensures SubFlanked(t, "y", "q[1]") == "(q[0]*q[1])"
  {
    assert SubFlanked(t, "y", "q[1]") == t[..5] + SubFlanked(t[5..], "y", "q[1]") by {
      NoEarlyY();
      SubFlankedCopiesPrefix(t, "y", "q[1]", 5);
    }
    assert SubFlanked(t[5..], "y", "q[1]") == "*q[1])" by {
      assert t[5..] == "*y)";
      FlankedY();
    }
    assert t[..5] + "*q[1])" == "(q[0]*q[1])" by {
      assert t[..5] == "(q[0]";
    }
  }

  /** No flanked y starts before position 5 of "(q[0]*y)". */
  lemma NoEarlyY()
    ensures forall p: nat :: p < 5 ==> !FlankedAt("(q[0]*y)", p, "y")
  {
    var t := "(q[0]*y)";
    forall p: nat | p < 5
      ensures !FlankedAt(t, p, "y")
    {
      assert t[p + 1..p + 2] == [t[p + 1]];
      assert t[p + 1] != 'y';
    }
  }

  /** The flanked y at the end of the second pass. */
  lemma FlankedY()
    ensures SubFlanked("*y)", "y", "q[1]") == "*q[1])"
  {
    var u := "*y)";
    assert u[1..2] == "y";
    assert FlankedAt(u, 0, "y");
    assert u[3..] == "";
    assert SubFlanked(u, "y", "q[1]") == [u[0]] + "q[1]" + [u[2]] + "";
  }

  /** Two fields, each rewritten to its own index: "(x*y)" becomes
      "(q[0]*q[1])". The '*' that closes the first match opens the second
      one, because each field is a separate pass. */
  lemma TwoFieldExample()
    ensures NamesToArray(["x", "y"], "(x*y)", "q", true) == Ok("(q[0]*q[1])")
  {
    var names := ["x", "y"];
    assert ArrayRef("q", 0) == "q[0]" && ArrayRef("q", 1) == "q[1]";
    assert !Contains("x", "q") by {
      assert "x"[..1] == "x" && "x"[1..] == "";
      assert !Contains("", "q");
    }
    assert !Contains("y", "q") by {
      assert "y"[..1] == "y" && "y"[1..] == "";
      assert !Contains("", "q");
    }
    FirstPassExample();
    SecondPassExample("(q[0]*y)");
    assert RenameFrom(names, 0, "(x*y)", "q", 0) == RenameFrom(names, 1, "(q[0]*y)", "q", 0);
    assert RenameFrom(names, 1, "(q[0]*y)", "q", 0) == RenameFrom(names, 2, "(q[0]*q[1])", "q", 0);
  }

  lemma {:induction false} RenameFromKeepsCount(names: seq<string>, i: nat, s: string, arrayName: string, shift: nat, c: char)
    requires i <= |names|
    requires !IsDigit(c) && c != '[' && c != ']' && c !in arrayName
    requires forall k :: i <= k < |names| ==> c !in names[k]
    requires RenameFrom(names, i, s, arrayName, shift).Ok?
    ensures Count(RenameFrom(names, i, s, arrayName, shift).value, c) == Count(s, c)
    decreases |names| - i
  {
    if i < |names| {
      var rep := ArrayRef(arrayName, i + shift);
      assert c !in rep by {
        var digits := NatToString(i + shift);
        assert rep == arrayName + "[" + digits + "]";
        assert c !in digits;
      }
      SubFlankedKeepsCount(s, names[i], rep, c);
      RenameFromKeepsCount(names, i + 1, SubFlanked(s, names[i], rep), arrayName, shift, c);
    }
  }

  /** `Potential.mathematica_potential`: the ginac text with one-based
      `q[i]` elements. */
  function MathematicaPotential(p: Potential): (r: Result<string>)
    ensures r.Err? <==> exists k :: 0 <= k < p.FieldCount() && Contains(p.FieldNames()[k], "q")
    ensures p.FieldCount() == 1 && !Contains(p.FieldNames()[0], "q") && 'q' !in p.ginac ==>
      r.Ok? && SubFlanked(r.value, "q[1]", p.FieldNames()[0]) == p.ginac
  {
    var r := NamesToArray(p.FieldNames(), p.ginac, "q", false);
    if p.FieldCount() == 1 && !Contains(p.FieldNames()[0], "q") && 'q' !in p.ginac then
      assert p.FieldNames() == [p.FieldNames()[0]];
      assert ArrayRef("q", 1) == "q[1]";
      NamesToArraySingleRoundTrip(p.FieldNames()[0], p.ginac, "q", false);
      r
    else r
  }

  /** `Potential.c_potential`: the C code of the potential with zero-based
      `q[i]` elements. */
  function CPotential(p: Potential): (r: Result<string>)
    ensures r.Err? <==> exists k :: 0 <= k < p.FieldCount() && Contains(p.FieldNames()[k], "q")
    ensures p.FieldCount() == 1 && !Contains(p.FieldNames()[0], "q") && 'q' !in p.algebra.cxxPotential ==>
      r.Ok? && SubFlanked(r.value, "q[0]", p.FieldNames()[0]) == p.algebra.cxxPotential
  {
    var r := NamesToArray(p.FieldNames(), p.algebra.cxxPotential, "q", true);
    if p.FieldCount() == 1 && !Contains(p.FieldNames()[0], "q") && 'q' !in p.algebra.cxxPotential then
      assert p.FieldNames() == [p.FieldNames()[0]];
      assert ArrayRef("q", 0) == "q[0]";
      NamesToArraySingleRoundTrip(p.FieldNames()[0], p.algebra.cxxPotential, "q", true);
      r
    else r
  }

  /** A field name that does not contain "q" is not contained in "q"
      either. */
  lemma OutsideQ(w: string)
    requires |w| > 0 && !Contains(w, "q")
    ensures !Contains("q", w)
  {
    assert !Contains("", w);
    assert "q"[1..] == "";
    ContainsSelf(w);
  }

  /** With any number of identifier fields, a potential whose ginac text
      mentions only field `k` gets exactly that field rewritten, into
      `q[k + 1]`. */
  lemma MathematicaPotentialOnlyField(p: Potential, k: nat)
    requires k < p.FieldCount()
    requires forall j :: 0 <= j < p.FieldCount() ==> Identifier(p.FieldNames()[j]) && !Contains(p.FieldNames()[j], "q")
    requires forall j :: 0 <= j < p.FieldCount() && j != k ==> !Contains(p.ginac, p.FieldNames()[j])
    ensures MathematicaPotential(p) == Ok(SubFlanked(p.ginac, p.FieldNames()[k], "q[" + NatToString(k + 1) + "]"))
  {
    assert NamesToArray(p.FieldNames(), p.ginac, "q", false)
        == Ok(SubFlanked(p.ginac, p.FieldNames()[k], ArrayRef("q", k + 1))) by {
      forall j | 0 <= j < p.FieldCount()
        ensures !Contains("q", p.FieldNames()[j])
      {
        OutsideQ(p.FieldNames()[j]);
      }
      NamesToArrayOnlyField(p.FieldNames(), p.ginac, "q", false, k);
    }
    assert ArrayRef("q", k + 1) == "q[" + NatToString(k + 1) + "]";
    assert MathematicaPotential(p) == NamesToArray(p.FieldNames(), p.ginac, "q", false);
  }

  /** The same for the C code of the potential, into `q[k]`. */
  lemma CPotentialOnlyField(p: Potential, k: nat)
    requires k < p.FieldCount()
    requires forall j :: 0 <= j < p.FieldCount() ==> Identifier(p.FieldNames()[j]) && !Contains(p.FieldNames()[j], "q")
    requires forall j :: 0 <= j < p.FieldCount() && j != k ==> !Contains(p.algebra.cxxPotential, p.FieldNames()[j])
    ensures CPotential(p) == Ok(SubFlanked(p.algebra.cxxPotential, p.FieldNames()[k], "q[" + NatToString(k) + "]"))
  {
    assert NamesToArray(p.FieldNames(), p.algebra.cxxPotential, "q", true)
        == Ok(SubFlanked(p.algebra.cxxPotential, p.FieldNames()[k], ArrayRef("q", k))) by {
      forall j | 0 <= j < p.FieldCount()
        ensures !Contains("q", p.FieldNames()[j])
      {
        OutsideQ(p.FieldNames()[j]);
      }
      NamesToArrayOnlyField(p.FieldNames(), p.algebra.cxxPotential, "q", true, k);
    }
    assert ArrayRef("q", k) == "q[" + NatToString(k) + "]";
    assert CPotential(p) == NamesToArray(p.FieldNames(), p.algebra.cxxPotential, "q", true);
  }

  /** One line of the gradient: `dvdq[i] = <expr>;`. */
  function GradientLine(i: nat, expr: string): string {
    "dvdq[" + NatToString(i) + "] = " + expr + ";"
  }

  /** The gradient lines, one per field in field order. */
  function GradientLines(p: Potential): seq<string> {
    seq(p.FieldCount(), i requires 0 <= i < p.FieldCount() =>
      GradientLine(i, p.algebra.cxxDerivative(p.FieldNames()[i])))
  }

  /** The gradient text before the renaming: the lines joined by newlines. */
  function GradientText(p: Potential): string {
    Join(GradientLines(p), "\n")
  }

  /** No field name and no derivative code holds a newline. */
  predicate SingleLineCode(p: Potential) {
    forall k :: 0 <= k < p.FieldCount() ==>
      '\n' !in p.FieldNames()[k] && '\n' !in p.algebra.cxxDerivative(p.FieldNames()[k])
  }

  /** Splitting the gradient text gives exactly one `dvdq[i] = <expr>;`
      line per field, in field order. */
  lemma GradientTextLines(p: Potential)
    requires p.FieldCount() >= 1 && SingleLineCode(p)
    ensures Split(GradientText(p), '\n') == GradientLines(p)
    ensures |Split(GradientText(p), '\n')| == p.FieldCount()
  {
    var lines := GradientLines(p);
    forall k | 0 <= k < |lines|
      ensures '\n' !in lines[k]
    {
      var digits := NatToString(k);
      assert '\n' !in digits;
    }
    SplitJoin(lines, '\n');
  }

  /** `Potential.c_gradient`: the gradient lines with zero-based `q[i]`
      elements; the renaming keeps one line per field. */
  function CGradient(p: Potential): (r: Result<string>)
    ensures r.Err? <==> exists k :: 0 <= k < p.FieldCount() && Contains(p.FieldNames()[k], "q")
    ensures r.Ok? && p.FieldCount() >= 1 && SingleLineCode(p) ==>
      |Split(r.value, '\n')| == p.FieldCount()
  {
    var r := NamesToArray(p.FieldNames(), GradientText(p), "q", true);
    if r.Ok? && p.FieldCount() >= 1 && SingleLineCode(p) then
      GradientTextLines(p);
      RenameFromKeepsCount(p.FieldNames(), 0, GradientText(p), "q", 0, '\n');
      r
    else r
  }

  // ---------------------------------------------------------------------
  // Vacuum selection
  // ---------------------------------------------------------------------

  predicate SortedByValue(xs: seq<Extremum>) {
    forall i, j :: 0 <= i < j < |xs| ==> xs[i].value <= xs[j].value
  }

  /** Places `x` before the first element whose value is not below its own. */
  function Insert(x: Extremum, xs: seq<Extremum>): (r: seq<Extremum>)
    requires SortedByValue(xs)
    ensures |xs| == 0 ==> r == [x]
    ensures |r| == |xs| + 1
    ensures |xs| > 0 ==> (r[0] == x || r[0] == xs[0])
    ensures SortedByValue(r)
    ensures multiset(r) == multiset(xs) + multiset{x}
    decreases |xs|
  {
    if |xs| == 0 then [x]
    else if x.value <= xs[0].value then [x] + xs
    else
      var rest := Insert(x, xs[1..]);
      assert xs[0].value <= rest[0].value;
      assert xs == [xs[0]] + xs[1..];
      [xs[0]] + rest
  }

  /** Python's stable `sorted(extrema, key=V)`. */
  function SortByValue(xs: seq<Extremum>): (r: seq<Extremum>)
    ensures |r| == |xs|
    ensures SortedByValue(r)
    ensures multiset(r) == multiset(xs)
    decreases |xs|
  {
    if |xs| == 0 then []
    else
      assert xs == [xs[0]] + xs[1..];
      Insert(xs[0], SortByValue(xs[1..]))
  }

  /** `e` is in `pool` and no element of `pool` has a lower value. */
  ghost predicate Lowest(e: Extremum, pool: multiset<Extremum>) {
    e in pool && forall x :: x in pool ==> e.value <= x.value
  }

  /** The first two elements of the sorted extrema are the lowest and the
      lowest of the rest. */
  lemma LowestTwo(xs: seq<Extremum>)
    requires |xs| >= 2
    ensures Lowest(SortByValue(xs)[0], multiset(xs))
    ensures Lowest(SortByValue(xs)[1], multiset(xs) - multiset{SortByValue(xs)[0]})
  {
    var s := SortByValue(xs);
    LowestOfSorted(s);
    SecondLowestOfSorted(s);
  }

  /** The second element of a sorted sequence is lowest among the others. */
  lemma SecondLowestOfSorted(s: seq<Extremum>)
    requires |s| >= 2 && SortedByValue(s)
    ensures Lowest(s[1], multiset(s) - multiset{s[0]})
  {
    var tail := s[1..];
    assert SortedByValue(tail) by {
      forall i, j | 0 <= i < j < |tail|
        ensures tail[i].value <= tail[j].value
      {
        assert tail[i] == s[i + 1] && tail[j] == s[j + 1];
      }
    }
    assert s == [s[0]] + tail;
    assert multiset(tail) == multiset(s) - multiset{s[0]};
    LowestOfSorted(tail);
    assert tail[0] == s[1];
  }

  /** The head of a sorted sequence is lowest among its elements. */
  lemma LowestOfSorted(s: seq<Extremum>)
    requires |s| >= 1 && SortedByValue(s)
    ensures Lowest(s[0], multiset(s))
  {
    forall x: Extremum | x in multiset(s)
      ensures s[0].value <= x.value
    {
      var k :| 0 <= k < |s| && s[k] == x;
    }
  }

  /** `Potential._solve`: all extrema sorted by potential value; fails
      (with an empty assertion message) when there are fewer than three. */
  function SolvedExtrema(extrema: seq<Extremum>): (r: Result<seq<Extremum>>)
    ensures r.Err? <==> |extrema| < 3
    ensures r.Ok? ==> SortedByValue(r.value) && multiset(r.value) == multiset(extrema)
  {
    if |extrema| < 3 then Err("") else Ok(SortByValue(extrema))
  }

  /** `np.atleast_1d` of an optional guess. */
  function AtLeast1d(guess: Option<seq<Num>>): Vacuum {
    match guess
    case Some(v) => Point(v)
    case None => NoneArray
  }

  /** The true-vacuum branch of `Potential.__init__`. */
  function ChooseTrueVacuum(alg: Algebra, trueGuess: Option<seq<Num>>, polish: bool): (r: Result<Vacuum>)
    ensures trueGuess.Some? && polish ==> r == Ok(Point(alg.nsolve(trueGuess.value)))
    ensures trueGuess.Some? && !polish ==> r == Ok(Point(trueGuess.value))
    ensures trueGuess.None? ==> (r.Err? <==> |alg.extrema| < 3)
    ensures trueGuess.None? && r.Ok? ==>
      exists e :: Lowest(e, multiset(alg.extrema)) && r.value == Point(e.point)
  {
    if polish && trueGuess.Some? then Ok(Point(alg.nsolve(trueGuess.value)))
    else if trueGuess.Some? then Ok(Point(trueGuess.value))
    else
      match SolvedExtrema(alg.extrema)
      case Err(m) => Err(m)
      case Ok(sorted) =>
        LowestTwo(alg.extrema);
        Ok(Point(sorted[0].point))
  }

  /** The false-vacuum branch of `Potential.__init__` AS WRITTEN: its
      second test looks at the true-vacuum guess, so a given true guess
      without a false guess yields `[None]`, and an unpolished false guess
      without a true guess is ignored. */
  function ChooseFalseVacuumAsWritten(alg: Algebra, trueGuess: Option<seq<Num>>,
                                      falseGuess: Option<seq<Num>>, polish: bool): (r: Result<Vacuum>)
    ensures falseGuess.Some? && polish ==> r == Ok(Point(alg.nsolve(falseGuess.value)))
    ensures !(falseGuess.Some? && polish) && trueGuess.Some? ==> r == Ok(AtLeast1d(falseGuess))
    ensures !(falseGuess.Some? && polish) && trueGuess.None? ==> (r.Err? <==> |alg.extrema| < 3)
  {
    if polish && falseGuess.Some? then Ok(Point(alg.nsolve(falseGuess.value)))
    else if trueGuess.Some? then Ok(AtLeast1d(falseGuess))
    else
      match SolvedExtrema(alg.extrema)
      case Err(m) => Err(m)
      case Ok(sorted) => Ok(Point(sorted[1].point))
  }

  /** The false-vacuum branch as evidently intended (testing the false
      guess): a given guess is always honoured, `[None]` never arises, and
      without a guess the second-lowest extremum is taken. */
  function ChooseFalseVacuum(alg: Algebra, falseGuess: Option<seq<Num>>, polish: bool): (r: Result<Vacuum>)
    ensures falseGuess.Some? && polish ==> r == Ok(Point(alg.nsolve(falseGuess.value)))
    ensures falseGuess.Some? && !polish ==> r == Ok(Point(falseGuess.value))
    ensures r.Ok? ==> r.value.Point?
    ensures falseGuess.None? ==> (r.Err? <==> |alg.extrema| < 3)
    ensures falseGuess.None? && r.Ok? ==>
      exists e0, e1 :: Lowest(e0, multiset(alg.extrema))
                    && Lowest(e1, multiset(alg.extrema) - multiset{e0})
                    && r.value == Point(e1.point)
  {
    if polish && falseGuess.Some? then Ok(Point(alg.nsolve(falseGuess.value)))
    else if falseGuess.Some? then Ok(Point(falseGuess.value))
    else
      match SolvedExtrema(alg.extrema)
      case Err(m) => Err(m)
      case Ok(sorted) =>
        LowestTwo(alg.extrema);
        Ok(Point(sorted[1].point))
  }

  /** Where both guesses are given or both are absent, the code as written
      and the intended test agree. */
  lemma FalseVacuumAgreement(alg: Algebra, trueGuess: Option<seq<Num>>,
                             falseGuess: Option<seq<Num>>, polish: bool)
    requires trueGuess.Some? == falseGuess.Some?
    ensures ChooseFalseVacuumAsWritten(alg, trueGuess, falseGuess, polish)
         == ChooseFalseVacuum(alg, falseGuess, polish)
  {
  }

  /** Inputs that separate the two: a true guess alone leaves the false
      vacuum as `[None]` although three extrema are available, and an
      unpolished false guess alone is dropped in favour of an extremum. */
  lemma FalseVacuumMismatch()
    ensures var alg := Algebra(["f"], "", n => n, TestExtrema(), v => v);
      && ChooseFalseVacuumAsWritten(alg, Some([1.0]), None, true) == Ok(NoneArray)
      && ChooseFalseVacuum(alg, None, true) == Ok(Point([0.0]))
      && ChooseFalseVacuumAsWritten(alg, None, Some([0.5]), false) == Ok(Point([0.0]))
      && ChooseFalseVacuum(alg, Some([0.5]), false) == Ok(Point([0.5]))
  {
    SortTestExtrema();
  }

  lemma SortLastTwo()
    ensures SortByValue([Extremum([2.0], 5.0), Extremum([1.0], -1.0)])
         == [Extremum([1.0], -1.0), Extremum([2.0], 5.0)]
  {
    var b, c := Extremum([2.0], 5.0), Extremum([1.0], -1.0);
    assert [b, c][1..] == [c];
    assert [c][1..] == [];
    assert SortByValue([c]) == [c];
    assert Insert(b, []) == [b];
    assert Insert(b, [c]) == [c] + Insert(b, [c][1..]);
  }

  lemma InsertBetween()
    ensures Insert(Extremum([0.0], 0.0), [Extremum([1.0], -1.0), Extremum([2.0], 5.0)])
         == [Extremum([1.0], -1.0), Extremum([0.0], 0.0), Extremum([2.0], 5.0)]
  {
    var a, b, c := Extremum([0.0], 0.0), Extremum([2.0], 5.0), Extremum([1.0], -1.0);
    assert [c, b][1..] == [b];
    assert Insert(a, [b]) == [a, b];
  }

  lemma SortTestExtrema()
    ensures SortByValue(TestExtrema())[1] == Extremum([0.0], 0.0)
  {
    var a, b, c := Extremum([0.0], 0.0), Extremum([2.0], 5.0), Extremum([1.0], -1.0);
    var xs := [a, b, c];
    assert xs[1..] == [b, c];
    SortLastTwo();
    InsertBetween();
    assert SortByValue(xs) == Insert(a, SortByValue([b, c]));
  }

  /** Three stationary points of a quartic: at 0, 1 and 2. */
  function TestExtrema(): seq<Extremum> {
    [Extremum([0.0], 0.0), Extremum([2.0], 5.0), Extremum([1.0], -1.0)]
  }

  /** `Potential.__init__` (the vacuum part), with the false-vacuum branch
      as intended (see `ChooseFalseVacuum`): the constructor fails exactly
      when a vacuum has no guess and fewer than three extrema exist. */
  function MakePotential(ginac: string, alg: Algebra, trueGuess: Option<seq<Num>>,
                         falseGuess: Option<seq<Num>>, polish: bool): (r: Result<Potential>)
    ensures r.Err? <==> (trueGuess.None? || falseGuess.None?) && |alg.extrema| < 3
    ensures r.Ok? ==> r.value.ginac == ginac && r.value.FieldNames() == alg.fieldNames
    ensures r.Ok? ==> Ok(r.value.trueVacuum) == ChooseTrueVacuum(alg, trueGuess, polish)
    ensures r.Ok? ==> Ok(r.value.falseVacuum) == ChooseFalseVacuum(alg, falseGuess, polish)
    ensures r.Ok? ==> r.value.trueVacuum.Point? && r.value.falseVacuum.Point?
    ensures r.Ok? && trueGuess.Some? == falseGuess.Some? ==>
      Ok(r.value.falseVacuum) == ChooseFalseVacuumAsWritten(alg, trueGuess, falseGuess, polish)
  {
    match ChooseTrueVacuum(alg, trueGuess, polish)
    case Err(m) => Err(m)
    case Ok(tv) =>
      match ChooseFalseVacuum(alg, falseGuess, polish)
      case Err(m) => Err(m)
      case Ok(fv) =>
        if trueGuess.Some? == falseGuess.Some? then
          FalseVacuumAgreement(alg, trueGuess, falseGuess, polish);
          Ok(Potential(ginac, alg, tv, fv))
        else Ok(Potential(ginac, alg, tv, fv))
  }

  /** `Potential.__init__` (the vacuum part) exactly as written, line 73
      included: only a missing true-vacuum guess can make it fail, and a
      true guess without a false one stores the false vacuum `[None]`. */
  function MakePotentialAsWritten(ginac: string, alg: Algebra, trueGuess: Option<seq<Num>>,
                                  falseGuess: Option<seq<Num>>, polish: bool): (r: Result<Potential>)
    ensures r.Err? <==> trueGuess.None? && |alg.extrema| < 3
    ensures r.Ok? ==> r.value.ginac == ginac && r.value.FieldNames() == alg.fieldNames
    ensures r.Ok? ==> Ok(r.value.trueVacuum) == ChooseTrueVacuum(alg, trueGuess, polish)
    ensures r.Ok? ==> Ok(r.value.falseVacuum) == ChooseFalseVacuumAsWritten(alg, trueGuess, falseGuess, polish)
    ensures r.Ok? && trueGuess.Some? && falseGuess.None? ==> r.value.falseVacuum == NoneArray
    ensures trueGuess.Some? == falseGuess.Some? ==> r == MakePotential(ginac, alg, trueGuess, falseGuess, polish)
  {
    match ChooseTrueVacuum(alg, trueGuess, polish)
    case Err(m) => Err(m)
    case Ok(tv) =>
      match ChooseFalseVacuumAsWritten(alg, trueGuess, falseGuess, polish)
      case Err(m) => Err(m)
      case Ok(fv) =>
        if trueGuess.Some? == falseGuess.Some? then
          FalseVacuumAgreement(alg, trueGuess, falseGuess, polish);
          Ok(Potential(ginac, alg, tv, fv))
        else Ok(Potential(ginac, alg, tv, fv))
  }

  /** The ginac text of the one-dimensional potential; `fmt` is Python's
      `str` of a float. */
  function OneDimText(E: Num, alpha: Num, fmt: Num -> string): string {
    "-" + fmt(E) + " * ((4. * " + fmt(alpha) + " - 3.) / 2. * f^2 + f^3 - " + fmt(alpha) + " * f^4)"
  }

  /** `one_dim_potential.__init__`: built only for 0.5 <= alpha <= 0.75
      and E > 0, with both vacua polished from the fixed guesses 1 and 0,
      so the extrema are never consulted. */
  function OneDimPotential(E: Num, alpha: Num, fmt: Num -> string, alg: Algebra): (r: Result<Potential>)
    ensures r.Ok? <==> 0.5 <= alpha <= 0.75 && E > 0.0
    ensures r.Ok? ==> r.value.trueVacuum == Point(alg.nsolve([1.0]))
    ensures r.Ok? ==> r.value.falseVacuum == Point(alg.nsolve([0.0]))
    ensures r.Ok? ==> r.value.ginac == OneDimText(E, alpha, fmt)
  {
    if !(0.5 <= alpha <= 0.75) then Err("")
    else if !(E > 0.0) then Err("")
    else MakePotential(OneDimText(E, alpha, fmt), alg, Some([1.0]), Some([0.0]), true)
  }
}
