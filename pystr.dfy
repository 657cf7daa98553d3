/**
 * The handful of Python `str` operations the modelled code relies on, with
 * Python's exact semantics: `find`, slicing with negative and out-of-range
 * bounds, `split` with an explicit separator, `join`, `replace`, `isdigit`,
 * `strip`, `int(...)` and `str(...)` of an integer.
 */
module PyStr {
  import opened Basics

  // ---------------------------------------------------------------------------
  // Occurrences and str.find
  // ---------------------------------------------------------------------------

  /** `sub` occurs in `s` starting at index `k`. */
  predicate OccursAt(s: string, sub: string, k: int) {
    0 <= k && k + |sub| <= |s| && s[k..k + |sub|] == sub
  }

  /** Python's `sub in s`. */
  predicate Contains(s: string, sub: string) {
    exists k | 0 <= k <= |s| :: OccursAt(s, sub, k)
  }

  /** The first occurrence of `sub` at or after `i`, or -1. */
  function FindFrom(s: string, sub: string, i: nat): (r: int)
    requires i <= |s|
    ensures r == -1 || (i <= r && OccursAt(s, sub, r))
    ensures forall k :: i <= k && (r == -1 || k < r) ==> !OccursAt(s, sub, k)
    decreases |s| - i
  {
    if i + |sub| > |s| then -1
    else if s[i..i + |sub|] == sub then i
    else FindFrom(s, sub, i + 1)
  }

  /** Python's `s.find(sub)`: the lowest index where `sub` occurs, or -1. */
  function Find(s: string, sub: string): (r: int)
    ensures r == -1 <==> !Contains(s, sub)
    ensures r != -1 ==> OccursAt(s, sub, r)
    ensures forall k :: 0 <= k && (r == -1 || k < r) ==> !OccursAt(s, sub, k)
  {
    FindFrom(s, sub, 0)
  }

  /** An occurrence inside a prefix is an occurrence in the whole string. */
  lemma OccursInPrefix(s: string, sub: string, i: nat, k: int)
    requires i <= |s| && OccursAt(s[..i], sub, k)
    ensures OccursAt(s, sub, k)
  {
    assert s[..i][k..k + |sub|] == s[k..k + |sub|];
  }

  /** An occurrence inside a suffix is an occurrence in the whole string, shifted. */
  lemma OccursInSuffix(s: string, sub: string, i: nat, k: int)
    requires i <= |s| && OccursAt(s[i..], sub, k)
    ensures OccursAt(s, sub, i + k)
  {
    assert s[i..][k..k + |sub|] == s[i + k..i + k + |sub|];
  }

  /** The text before the first occurrence of `sub` does not contain `sub`. */
  lemma BeforeFirstIsFree(s: string, sub: string)
    requires |sub| > 0 && Find(s, sub) != -1
    ensures !Contains(s[..Find(s, sub)], sub)
  {
    var i := Find(s, sub);
    forall k | 0 <= k <= i
      ensures !OccursAt(s[..i], sub, k)
    {
      if k + |sub| <= i {
        assert s[..i][k..k + |sub|] == s[k..k + |sub|];
        assert k < i;
        assert !OccursAt(s, sub, k);
      }
    }
  }

  // ---------------------------------------------------------------------------
  // Slicing
  // ---------------------------------------------------------------------------

  /** How Python normalises one bound of `s[start:end]` for a string of length `n`. */
  function SliceBound(i: int, n: nat): (r: nat)
    ensures r <= n
  {
    if i < 0 then (if i + n < 0 then 0 else i + n)
    else if i > n then n
    else i
  }

  /** Python's `s[start:end]`: negative bounds count from the end, bounds are clamped, an empty range gives "". */
  function Slice(s: string, start: int, end: int): string {
    var a := SliceBound(start, |s|);
    var b := SliceBound(end, |s|);
    if a < b then s[a..b] else ""
  }

  /** With in-range bounds a Python slice is the Dafny subsequence. */
  lemma SliceInRange(s: string, start: int, end: int)
    requires 0 <= start <= end <= |s|
    ensures Slice(s, start, end) == s[start..end]
  {
  }

  // ---------------------------------------------------------------------------
  // join and split
  // ---------------------------------------------------------------------------

  /** Python's `sep.join(parts)`. */
  function Join(sep: string, parts: seq<string>): string {
    if |parts| == 0 then ""
    else if |parts| == 1 then parts[0]
    else parts[0] + sep + Join(sep, parts[1..])
  }

  /** Joining two non-empty lists puts one separator between the two joins. */
  lemma {:induction false} JoinAppend(sep: string, a: seq<string>, b: seq<string>)
    requires |a| > 0 && |b| > 0
    ensures Join(sep, a + b) == Join(sep, a) + sep + Join(sep, b)
    decreases |a|
  {
    if |a| == 1 {
      assert (a + b)[1..] == b;
    } else {
      assert (a + b)[1..] == a[1..] + b;
      JoinAppend(sep, a[1..], b);
    }
  }

  /** `"".join(f(x) for x in xs)`: the pieces of the elements, in order. */
  function ConcatMap<T>(f: T -> string, xs: seq<T>): string
    decreases |xs|
  {
    if xs == [] then "" else ConcatMap(f, xs[..|xs| - 1]) + f(xs[|xs| - 1])
  }

  /** Extending the list by one element appends that element's piece. */
  lemma ConcatMapStep<T>(f: T -> string, xs: seq<T>, i: nat)
    requires i < |xs|
    ensures ConcatMap(f, xs[..i + 1]) == ConcatMap(f, xs[..i]) + f(xs[i])
  {
    assert xs[..i + 1][..i] == xs[..i];
  }

  /** The pieces of a split list are the two concatenations, one after the other. */
  lemma {:induction false} ConcatMapAppend<T>(f: T -> string, a: seq<T>, b: seq<T>)
    ensures ConcatMap(f, a + b) == ConcatMap(f, a) + ConcatMap(f, b)
    decreases |b|
  {
    if b == [] {
      assert a + b == a;
    } else {
      var b0 := b[..|b| - 1];
      assert (a + b)[..|a + b| - 1] == a + b0;
      assert (a + b)[|a + b| - 1] == b[|b| - 1];
      ConcatMapAppend(f, a, b0);
    }
  }

  lemma ConcatAssoc(a: string, b: string, c: string)
    ensures a + b + c == a + (b + c)
  {
  }

  /** The text lies on one line. */
  predicate NoNewline(t: string) {
    forall k :: 0 <= k < |t| ==> t[k] != '\n'
  }

  /** A one-line text contains no newline (the single-character form of `Contains`). */
  lemma NoNewlineFree(t: string)
    requires NoNewline(t)
    ensures !Contains(t, "\n")
  {
    forall k | 0 <= k <= |t| ensures !OccursAt(t, "\n", k) {
      if k + 1 <= |t| { assert t[k..k + 1][0] == t[k]; }
    }
  }

  /** Python's `s.split(sep)` for a non-empty separator: the pieces between occurrences, left to right. */
  function Split(s: string, sep: string): (r: seq<string>)
    requires |sep| > 0
    ensures |r| >= 1
    decreases |s|
  {
    var i := Find(s, sep);
    if i == -1 then [s] else [s[..i]] + Split(s[i + |sep|..], sep)
  }

  /** Joining a head onto a non-empty list puts one separator after the head. */
  lemma JoinCons(sep: string, p: string, rest: seq<string>)
    requires |rest| >= 1
    ensures Join(sep, [p] + rest) == p + sep + Join(sep, rest)
  {
    assert ([p] + rest)[1..] == rest;
  }

  /** Where the separator occurs, the split is the text before it followed by the split of the text after it. */
  lemma SplitStep(s: string, sep: string)
    requires |sep| > 0 && Find(s, sep) != -1
    ensures var i := Find(s, sep);
      i + |sep| <= |s| && s == s[..i] + sep + s[i + |sep|..]
      && Split(s, sep) == [s[..i]] + Split(s[i + |sep|..], sep)
  {
    var i := Find(s, sep);
    assert i + |sep| <= |s| && s == s[..i] + sep + s[i + |sep|..] by {
      assert s[i..i + |sep|] == sep;
      assert s == s[..i] + s[i..i + |sep|] + s[i + |sep|..];
    }
    assert Split(s, sep) == [s[..i]] + Split(s[i + |sep|..], sep);
  }

  /** Round trip: joining the pieces of a split with the same separator gives the string back. */
  lemma {:induction false} JoinSplit(s: string, sep: string)
    requires |sep| > 0
    ensures Join(sep, Split(s, sep)) == s
    decreases |s|
  {
    if Find(s, sep) != -1 {
      var i := Find(s, sep);
      var rest := s[i + |sep|..];
      SplitStep(s, sep);
      JoinSplit(rest, sep);
      JoinCons(sep, s[..i], Split(rest, sep));
    }
  }

  /** No piece of a split contains the separator. */
  lemma {:induction false} SplitPiecesFree(s: string, sep: string)
    requires |sep| > 0
    ensures forall p :: p in Split(s, sep) ==> !Contains(p, sep)
    decreases |s|
  {
    var i := Find(s, sep);
    if i != -1 {
      BeforeFirstIsFree(s, sep);
      SplitPiecesFree(s[i + |sep|..], sep);
    }
  }

  /** The first piece of a split is a prefix of the string, ended by the separator or by the end of the string. */
  lemma SplitFirst(s: string, sep: string)
    requires |sep| > 0
    ensures var p := Split(s, sep)[0];
      && |p| <= |s| && s[..|p|] == p && !Contains(p, sep)
      && (|p| == |s| || OccursAt(s, sep, |p|))
      && (|p| == |s| <==> !Contains(s, sep))
  {
    SplitPiecesFree(s, sep);
  }

  /** Splitting on a one-character separator undoes a join, when no piece contains that character. */
  lemma {:induction false} SplitJoin(parts: seq<string>, sep: string)
    requires |sep| == 1 && |parts| >= 1
    requires forall p :: p in parts ==> !Contains(p, sep)
    ensures Split(Join(sep, parts), sep) == parts
    decreases |parts|
  {
    if |parts| == 1 {
      assert Join(sep, parts) == parts[0];
    } else {
      var p0, tail := parts[0], parts[1..];
      var t := Join(sep, tail);
      assert Join(sep, parts) == p0 + sep + t;
      assert Split(p0 + sep + t, sep) == [p0] + Split(t, sep) by {
        assert p0 in parts;
        FirstSeparator(p0, sep, t);
      }
      assert Split(t, sep) == tail by {
        assert forall p :: p in tail ==> p in parts;
        SplitJoin(tail, sep);
      }
      assert parts == [p0] + tail;
    }
  }

  /** After a piece free of a one-character separator, the first separator is the one that follows it. */
  lemma FirstSeparator(p0: string, sep: string, t: string)
    requires |sep| == 1 && !Contains(p0, sep)
    ensures Split(p0 + sep + t, sep) == [p0] + Split(t, sep)
  {
    var s := p0 + sep + t;
    assert OccursAt(s, sep, |p0|) by {
      assert s[|p0|..|p0| + 1] == sep;
    }
    forall k | 0 <= k < |p0|
      ensures !OccursAt(s, sep, k)
    {
      assert s[k..k + 1] == p0[k..k + 1];
      assert !OccursAt(p0, sep, k);
    }
    assert Find(s, sep) == |p0|;
    assert s[..|p0|] == p0;
    assert s[|p0| + 1..] == t;
  }

  // ---------------------------------------------------------------------------
  // replace
  // ---------------------------------------------------------------------------

  /** Python's `s.replace(pat, rep)` for a non-empty `pat`: every non-overlapping occurrence, left to right. */
  function ReplaceAll(s: string, pat: string, rep: string): string
    requires |pat| > 0
    decreases |s|
  {
    var i := Find(s, pat);
    if i == -1 then s else s[..i] + rep + ReplaceAll(s[i + |pat|..], pat, rep)
  }

  /** Python's identity `s.replace(pat, rep) == rep.join(s.split(pat))`: each separator of the split is exchanged for `rep`. */
  lemma {:induction false} ReplaceIsJoinOfSplit(s: string, pat: string, rep: string)
    requires |pat| > 0
    ensures ReplaceAll(s, pat, rep) == Join(rep, Split(s, pat))
    decreases |s|
  {
    if Find(s, pat) != -1 {
      var i := Find(s, pat);
      var rest := s[i + |pat|..];
      SplitStep(s, pat);
      ReplaceIsJoinOfSplit(rest, pat, rep);
      JoinCons(rep, s[..i], Split(rest, pat));
    }
  }

  /** Replacing text that does not occur leaves the string untouched. */
  lemma ReplaceAbsent(s: string, pat: string, rep: string)
    requires |pat| > 0 && !Contains(s, pat)
    ensures ReplaceAll(s, pat, rep) == s
  {
  }

  /** `s` with every occurrence of the character `c` dropped. */
  function RemoveChar(s: string, c: char): (r: string)
    ensures |r| <= |s|
  {
    if s == [] then [] else (if s[0] == c then [] else [s[0]]) + RemoveChar(s[1..], c)
  }

  /** Python's `s.replace(c, "")` is the filter that drops the character `c`. */
  lemma {:induction false} ReplaceByNothingFilters(s: string, c: char)
    ensures ReplaceAll(s, [c], "") == RemoveChar(s, c)
    decreases |s|
  {
    if Find(s, [c]) == -1 {
      RemoveCharAbsent(s, c);
    } else {
      var i := Find(s, [c]);
      ReplaceByNothingFilters(s[i + 1..], c);
      DropFirst(s, c);
    }
  }

  /** Dropping `c` from a string that holds it: the text before its first occurrence, then the filtered rest. */
  lemma DropFirst(s: string, c: char)
    requires Find(s, [c]) != -1
    ensures var i := Find(s, [c]);
      RemoveChar(s, c) == s[..i] + RemoveChar(s[i + 1..], c)
  {
    var i := Find(s, [c]);
    assert s[i..i + 1] == [c];
    BeforeFirstIsFree(s, [c]);
    RemoveCharAbsent(s[..i], c);
    DropAt(s, i, c);
  }

  /** Dropping `c` from a string whose first `c` sits at `i`: the text before it, then the filtered rest. */
  lemma DropAt(s: string, i: nat, c: char)
    requires i < |s| && s[i] == c && RemoveChar(s[..i], c) == s[..i]
    ensures RemoveChar(s, c) == s[..i] + RemoveChar(s[i + 1..], c)
  {
    var rest := s[i + 1..];
    assert s == s[..i] + ([c] + rest);
    RemoveCharConcat(s[..i], [c] + rest, c);
    assert ([c] + rest)[1..] == rest;
    assert RemoveChar([c] + rest, c) == RemoveChar(rest, c);
  }

  lemma {:induction false} RemoveCharAbsent(s: string, c: char)
    requires !Contains(s, [c])
    ensures RemoveChar(s, c) == s
    decreases |s|
  {
    if s != [] {
      assert OccursAt(s, [s[0]], 0);
      if Contains(s[1..], [c]) {
        var k :| OccursAt(s[1..], [c], k);
        OccursInSuffix(s, [c], 1, k);
      }
      RemoveCharAbsent(s[1..], c);
    }
  }

  lemma {:induction false} RemoveCharConcat(a: string, b: string, c: char)
    ensures RemoveChar(a + b, c) == RemoveChar(a, c) + RemoveChar(b, c)
    decreases |a|
  {
    if a != [] {
      var head := if a[0] == c then [] else [a[0]];
      assert (a + b)[0] == a[0];
      assert (a + b)[1..] == a[1..] + b;
      RemoveCharConcat(a[1..], b, c);
      calc {
        RemoveChar(a + b, c);
        head + RemoveChar(a[1..] + b, c);
        head + (RemoveChar(a[1..], c) + RemoveChar(b, c));
        (head + RemoveChar(a[1..], c)) + RemoveChar(b, c);
        RemoveChar(a, c) + RemoveChar(b, c);
      }
    } else {
      assert a + b == b;
    }
  }

  // ---------------------------------------------------------------------------
  // Digits, int(...) and str(...)
  // ---------------------------------------------------------------------------

  predicate IsDigitChar(c: char) { '0' <= c <= '9' }

  /** Every character is an ASCII decimal digit (the empty string qualifies). */
  predicate AllDigits(s: string) {
    forall i :: 0 <= i < |s| ==> IsDigitChar(s[i])
  }

  /** Python's `s.isdigit()` on ASCII text: non-empty and all decimal digits. */
  predicate IsDigit(s: string) {
    |s| > 0 && AllDigits(s)
  }

  function DigitValue(c: char): (d: nat)
    requires IsDigitChar(c)
    ensures d < 10
  {
    (c as int) - ('0' as int)
  }

  function DigitChar(d: nat): (c: char)
    requires d < 10
    ensures IsDigitChar(c) && DigitValue(c) == d
  {
    (('0' as int) + d) as char
  }

  /** The number a string of decimal digits denotes (leading zeros allowed, "" denotes 0). */
  function DecimalValue(s: string): nat
    requires AllDigits(s)
  {
    if s == [] then 0 else DecimalValue(s[..|s| - 1]) * 10 + DigitValue(s[|s| - 1])
  }

  /** Python's `str(n)` for a natural number. */
  function NatToString(n: nat): (r: string)
    ensures IsDigit(r)
  {
    if n < 10 then [DigitChar(n)] else NatToString(n / 10) + [DigitChar(n % 10)]
  }

  /** Python's `str(n)` (and `"%d" % n`) for any integer. */
  function IntToString(n: int): string {
    if n < 0 then "-" + NatToString(-n) else NatToString(n)
  }

  /** Reading back a decimal rendering gives the number. */
  lemma {:induction false} DecimalValueOfNatToString(n: nat)
    ensures DecimalValue(NatToString(n)) == n
    decreases n
  {
    if n >= 10 {
      var s := NatToString(n);
      assert s[..|s| - 1] == NatToString(n / 10);
      DecimalValueOfNatToString(n / 10);
    }
  }

  /** The characters Python's `int()` strips around a number (its ASCII whitespace). */
  predicate IsSpaceChar(c: char) {
    c == ' ' || c == '\t' || c == '\n' || c == '\r' || c == '\U{000B}' || c == '\U{000C}'
    || c == '\U{001C}' || c == '\U{001D}' || c == '\U{001E}' || c == '\U{001F}'
  }

  /** Python's `s.strip()` for ASCII whitespace. */
  function Strip(s: string): (r: string)
    ensures |r| <= |s|
    decreases |s|
  {
    if |s| > 0 && IsSpaceChar(s[0]) then Strip(s[1..])
    else if |s| > 0 && IsSpaceChar(s[|s| - 1]) then Strip(s[..|s| - 1])
    else s
  }

  /** Digits with single underscores between them, as Python's `int()` accepts for base 10. */
  predicate DigitGroups(t: string) {
    && |t| > 0 && IsDigitChar(t[0]) && IsDigitChar(t[|t| - 1])
    && forall i :: 0 <= i < |t| ==> GroupCharAt(t, i)
  }

  /** Position `i` holds a digit, or an underscore followed by a digit. */
  predicate GroupCharAt(t: string, i: nat)
    requires i < |t|
  {
    IsDigitChar(t[i]) || (t[i] == '_' && i + 1 < |t| && IsDigitChar(t[i + 1]))
  }

  lemma DigitGroupsDigits(t: string)
    requires DigitGroups(t)
    ensures AllDigits(RemoveChar(t, '_'))
  {
    forall i | 0 <= i < |t|
      ensures IsDigitChar(t[i]) || t[i] == '_'
    {
      assert GroupCharAt(t, i);
    }
    RemoveCharKeeps(t, '_');
  }

  lemma {:induction false} RemoveCharKeeps(t: string, c: char)
    requires forall i :: 0 <= i < |t| ==> IsDigitChar(t[i]) || t[i] == c
    ensures AllDigits(RemoveChar(t, c))
    decreases |t|
  {
    if t != [] {
      RemoveCharKeeps(t[1..], c);
    }
  }

  /**
   * Python's default limit on the digits of a decimal `int`/`str`
   * conversion (`sys.int_info.default_max_str_digits`, Python 3.11 on):
   * past it `int(s)` and `str(n)` raise ValueError.
   */
  const MaxStrDigits := 4300

  /**
   * Python's `int(s)` for a `str`: surrounding whitespace, an optional sign,
   * decimal digit groups of at most `MaxStrDigits` digits (underscores not
   * counted); None where Python raises ValueError.
   */
  function ParseInt(s: string): Option<int> {
    var t := Strip(s);
    if |t| > 0 && (t[0] == '+' || t[0] == '-') then
      var body := t[1..];
      if DigitGroups(body) then
        DigitGroupsDigits(body);
        var digits := RemoveChar(body, '_');
        if |digits| > MaxStrDigits then None
        else
          var v: int := DecimalValue(digits);
          Some(if t[0] == '-' then -v else v)
      else None
    else if DigitGroups(t) then
      DigitGroupsDigits(t);
      var digits := RemoveChar(t, '_');
      if |digits| > MaxStrDigits then None
      else Some(DecimalValue(digits))
    else None
  }

  /** A string of decimal digits parses to the number it denotes, unless it is longer than the digit limit. */
  lemma ParseDigits(t: string)
    requires IsDigit(t)
    ensures |t| <= MaxStrDigits ==> ParseInt(t) == Some(DecimalValue(t))
    ensures |t| > MaxStrDigits ==> ParseInt(t) == None
  {
    StripKeeps(t);
    DigitsFreeOf(t, '_');
    RemoveCharAbsent(t, '_');
  }

  /** Ten to the power `k`. */
  function Pow10(k: nat): (r: nat)
    ensures r >= 1
  {
    if k == 0 then 1 else 10 * Pow10(k - 1)
  }

  /** A number below `10^k` takes at most `k` digits. */
  lemma {:induction false} NatToStringLength(n: nat, k: nat)
    requires 1 <= k && n < Pow10(k)
    ensures |NatToString(n)| <= k
    decreases k
  {
    if n >= 10 {
      NatToStringLength(n / 10, k - 1);
    }
  }

  /** A string that neither starts nor ends with whitespace is its own strip. */
  lemma StripKeeps(t: string)
    requires |t| > 0 && !IsSpaceChar(t[0]) && !IsSpaceChar(t[|t| - 1])
    ensures Strip(t) == t
  {
  }

  /** A string of digits contains no non-digit character. */
  lemma DigitsFreeOf(t: string, c: char)
    requires AllDigits(t) && !IsDigitChar(c)
    ensures !Contains(t, [c])
  {
    forall k | 0 <= k <= |t|
      ensures !OccursAt(t, [c], k)
    {
      if k + 1 <= |t| {
        assert t[k..k + 1][0] == t[k];
      }
    }
  }

  /** The empty string and other non-numbers are refused. */
  lemma ParseEmpty()
    ensures ParseInt("") == None
  {
  }

  /** Round trip: `int(str(n)) == n` for every integer of at most `MaxStrDigits` digits; a longer one is refused. */
  lemma ParseIntToString(n: int)
    ensures var d := NatToString(if n < 0 then -n else n);
      && (|d| <= MaxStrDigits ==> ParseInt(IntToString(n)) == Some(n))
      && (|d| > MaxStrDigits ==> ParseInt(IntToString(n)) == None)
  {
    if n < 0 {
      ParseNegative(-n);
    } else {
      ParseDigits(NatToString(n));
      DecimalValueOfNatToString(n);
    }
  }

  /** `int("-" + str(n))` gives `-n`, within the digit limit. */
  lemma ParseNegative(n: nat)
    ensures var d := NatToString(n);
      && (|d| <= MaxStrDigits ==> ParseInt("-" + d) == Some(-(n as int)))
      && (|d| > MaxStrDigits ==> ParseInt("-" + d) == None)
  {
    var d := NatToString(n);
    var t := "-" + d;
    assert t[|t| - 1] == d[|d| - 1];
    StripKeeps(t);
    assert t[1..] == d;
    DigitsFreeOf(d, '_');
    RemoveCharAbsent(d, '_');
    DecimalValueOfNatToString(n);
  }

}
