/**
 * The pieces of JavaScript's string semantics that the core relies on:
 * `String.prototype.split` with a string separator, `Array.prototype.join`,
 * and the conversion `Number(s)` of a string to a number.
 */
module JsString {
  import opened Wrappers
  import opened Decimal

  /** `sep` occurs in `s` starting at index i. */
  predicate MatchAt(s: string, sep: string, i: nat) {
    i + |sep| <= |s| && s[i..i + |sep|] == sep
  }

  /** `sep` occurs nowhere in `s`. */
  predicate Free(s: string, sep: string) {
    forall p :: 0 <= p <= |s| ==> !MatchAt(s, sep, p)
  }

  /** No character of `s` is `c`. */
  predicate Avoids(s: string, c: char) {
    forall i :: 0 <= i < |s| ==> s[i] != c
  }

  /** The first index at or after i where `sep` occurs (`indexOf(sep, i)`). */
  function FindFrom(s: string, sep: string, i: nat): (r: Option<nat>)
    requires i <= |s|
    ensures r.Some? ==> i <= r.value && MatchAt(s, sep, r.value)
    decreases |s| - i
  {
    if i + |sep| > |s| then None
    else if s[i..i + |sep|] == sep then Some(i)
    else FindFrom(s, sep, i + 1)
  }

  /** The occurrence `FindFrom` reports is the first one at or after i, and None means there is none. */
  lemma {:induction false} FindFromFirst(s: string, sep: string, i: nat)
    requires i <= |s|
    ensures FindFrom(s, sep, i).Some? ==> forall j :: i <= j < FindFrom(s, sep, i).value ==> !MatchAt(s, sep, j)
    ensures FindFrom(s, sep, i).None? ==> forall j :: i <= j <= |s| ==> !MatchAt(s, sep, j)
    decreases |s| - i
  {
    if i + |sep| <= |s| && s[i..i + |sep|] != sep {
      FindFromFirst(s, sep, i + 1);
    }
  }

  /**
   * `s.split(sep)`: an empty separator splits into single characters (and the
   * empty string into no pieces at all); a non-empty separator is searched for
   * from the left, and what lies between its occurrences is kept, so the
   * empty string gives one empty piece.
   */
  function Split(s: string, sep: string): (pieces: seq<string>)
  {
    if sep == [] then SplitChars(s) else SplitOn(s, sep)
  }

  function SplitChars(s: string): (pieces: seq<string>)
    ensures |pieces| == |s|
  {
    seq(|s|, i requires 0 <= i < |s| => [s[i]])
  }

  function SplitOn(s: string, sep: string): (pieces: seq<string>)
    requires sep != []
    decreases |s|
  {
    var found := FindFrom(s, sep, 0);
    if found.None? then [s]
    else [s[..found.value]] + SplitOn(s[found.value + |sep|..], sep)
  }

  /** `pieces.join(sep)`. */
  function Join(pieces: seq<string>, sep: string): string
  {
    if |pieces| == 0 then ""
    else if |pieces| == 1 then pieces[0]
    else pieces[0] + sep + Join(pieces[1..], sep)
  }

  /** The number of occurrences of `sep` at or after i, counted from the left without overlap. */
  function CountFrom(s: string, sep: string, i: nat): nat
    requires sep != [] && i <= |s|
    decreases |s| - i
  {
    if i + |sep| > |s| then 0
    else if MatchAt(s, sep, i) then 1 + CountFrom(s, sep, i + |sep|)
    else CountFrom(s, sep, i + 1)
  }

  /** Joining the pieces of a split with the same separator gives the string back. */
  lemma {:induction false} JoinSplit(s: string, sep: string)
    requires sep != []
    ensures Join(Split(s, sep), sep) == s
    decreases |s|
  {
    match FindFrom(s, sep, 0)
    case None =>
    case Some(j) =>
      var rest := s[j + |sep|..];
      JoinSplit(rest, sep);
      var tail := Split(rest, sep);
      assert Split(s, sep) == [s[..j]] + tail;
      assert |tail| >= 1 by { SplitNonEmpty(rest, sep); }
      assert ([s[..j]] + tail)[1..] == tail;
      assert s == s[..j] + sep + rest;
  }

  /** A non-empty separator always yields at least one piece. */
  lemma SplitNonEmpty(s: string, sep: string)
    requires sep != []
    ensures |Split(s, sep)| >= 1
  {
  }

  /** No piece of a split on a non-empty separator contains that separator. */
  lemma {:induction false} SplitPiecesFree(s: string, sep: string)
    requires sep != []
    ensures forall k :: 0 <= k < |Split(s, sep)| ==> Free(Split(s, sep)[k], sep)
    decreases |s|
  {
    var found := FindFrom(s, sep, 0);
    FindFromFirst(s, sep, 0);
    if found.None? {
      assert Split(s, sep) == [s];
    } else {
      var j := found.value;
      var rest := s[j + |sep|..];
      SplitPiecesFree(rest, sep);
      var head := s[..j];
      forall p | 0 <= p <= |head| ensures !MatchAt(head, sep, p) {
        if p + |sep| <= |head| {
          assert head[p..p + |sep|] == s[p..p + |sep|];
          assert !MatchAt(s, sep, p);
        }
      }
      assert Split(s, sep) == [head] + Split(rest, sep);
    }
  }

  /** A split on a non-empty separator has one piece more than there are occurrences of it. */
  lemma SplitCount(s: string, sep: string)
    requires sep != []
    ensures |Split(s, sep)| == CountFrom(s, sep, 0) + 1
  {
    SplitOnCount(s, sep);
  }

  lemma {:induction false} SplitOnCount(s: string, sep: string)
    requires sep != []
    ensures |SplitOn(s, sep)| == CountFrom(s, sep, 0) + 1
    decreases |s|
  {
    var found := FindFrom(s, sep, 0);
    CountViaFind(s, sep, 0);
    if found.Some? {
      var j := found.value;
      var rest := s[j + |sep|..];
      assert |SplitOn(s, sep)| == 1 + |SplitOn(rest, sep)| by { SplitOnLength(s, sep); }
      var k := j + |sep|;
      assert k <= |s| && k + 0 == k;
      CountShift(s, sep, k, 0);
      assert CountFrom(s, sep, k) == CountFrom(rest, sep, 0);
      SplitOnCount(rest, sep);
    }
  }

  /** One step of a split on a non-empty separator, counted in pieces. */
  lemma SplitOnLength(s: string, sep: string)
    requires sep != []
    ensures FindFrom(s, sep, 0).None? ==> |SplitOn(s, sep)| == 1
    ensures FindFrom(s, sep, 0).Some? ==>
      |SplitOn(s, sep)| == 1 + |SplitOn(s[FindFrom(s, sep, 0).value + |sep|..], sep)|
  {
  }

  /** Counting from i skips straight to the first occurrence at or after i. */
  lemma {:induction false} CountViaFind(s: string, sep: string, i: nat)
    requires sep != [] && i <= |s|
    ensures FindFrom(s, sep, i).None? ==> CountFrom(s, sep, i) == 0
    ensures FindFrom(s, sep, i).Some? ==>
      CountFrom(s, sep, i) == 1 + CountFrom(s, sep, FindFrom(s, sep, i).value + |sep|)
    decreases |s| - i
  {
    if i + |sep| <= |s| && !MatchAt(s, sep, i) {
      CountViaFind(s, sep, i + 1);
    }
  }

  /** Counting in a suffix is counting in the whole string from the suffix's start. */
  lemma {:induction false} CountShift(s: string, sep: string, k: nat, i: nat)
    requires sep != [] && k + i <= |s|
    ensures CountFrom(s, sep, k + i) == CountFrom(s[k..], sep, i)
    decreases |s| - k - i
  {
    var t := s[k..];
    if k + i + |sep| <= |s| {
      assert s[k + i..k + i + |sep|] == t[i..i + |sep|];
      assert MatchAt(s, sep, k + i) == MatchAt(t, sep, i);
      if MatchAt(s, sep, k + i) {
        CountShift(s, sep, k, i + |sep|);
      } else {
        CountShift(s, sep, k, i + 1);
      }
    }
  }

  /** A string without the separator's first character contains no occurrence of it. */
  lemma AvoidsFree(s: string, sep: string)
    requires sep != [] && Avoids(s, sep[0])
    ensures forall j :: 0 <= j <= |s| ==> !MatchAt(s, sep, j)
  {
    forall j | 0 <= j <= |s| ensures !MatchAt(s, sep, j) {
      if j + |sep| <= |s| {
        assert s[j..j + |sep|][0] == s[j];
      }
    }
  }

  /** In `a + sep + b`, where `a` avoids the separator's first character, the first occurrence is right after `a`. */
  lemma {:induction false} FindAfterAvoiding(a: string, sep: string, b: string, i: nat)
    requires sep != [] && Avoids(a, sep[0]) && i <= |a|
    ensures FindFrom(a + sep + b, sep, i) == Some(|a|)
    decreases |a| - i
  {
    var s := a + sep + b;
    if i < |a| {
      assert s[i] == a[i];
      assert s[i..i + |sep|][0] == s[i];
      FindAfterAvoiding(a, sep, b, i + 1);
    } else {
      assert s[i..i + |sep|] == sep;
    }
  }

  /**
   * Splitting a join gives the pieces back, provided that no piece contains
   * the separator's first character (so no occurrence can start inside one).
   */
  lemma {:induction false} SplitJoin(pieces: seq<string>, sep: string)
    requires sep != [] && |pieces| > 0
    requires forall k :: 0 <= k < |pieces| ==> Avoids(pieces[k], sep[0])
    ensures Split(Join(pieces, sep), sep) == pieces
    decreases |pieces|
  {
    if |pieces| == 1 {
      AvoidsFree(pieces[0], sep);
      assert FindFrom(pieces[0], sep, 0) == None;
    } else {
      var a, b := pieces[0], Join(pieces[1..], sep);
      FindAfterAvoiding(a, sep, b, 0);
      assert (a + sep + b)[|a| + |sep|..] == b;
      assert (a + sep + b)[..|a|] == a;
      SplitJoin(pieces[1..], sep);
    }
  }

  /** What JavaScript's `Number(s)` gives for a string, as far as this model decides it. */
  datatype JsNumber =
    | Int(n: int)  // an integer value
    | NaN          // not a number
    | Other        // a JavaScript numeric literal form this model does not evaluate

  /** JavaScript's white space and line terminators, which `Number` trims. */
  predicate IsJsSpace(c: char) {
    c == ' ' || c == '\t' || c == '\n' || c == '\r' || c == '\U{000B}' || c == '\U{000C}'
    || c == '\U{00A0}' || c == '\U{1680}' || ('\U{2000}' <= c <= '\U{200A}')
    || c == '\U{2028}' || c == '\U{2029}' || c == '\U{202F}' || c == '\U{205F}'
    || c == '\U{3000}' || c == '\U{FEFF}'
  }

  /**
   * The characters that can occur in some string `Number` accepts: white space,
   * signs, digits, '.', exponent marks, radix prefixes, hexadecimal digits and
   * the letters of "Infinity".
   */
  predicate IsNumericLiteralChar(c: char) {
    IsJsSpace(c) || IsDigit(c) || c == '+' || c == '-' || c == '.'
    || ('a' <= c <= 'f') || ('A' <= c <= 'F')
    || c in "xXoObBIinty"
  }

  /**
   * 2^53: every integer up to this magnitude is a double, so `Number` gives a
   * digit string of at most this value exactly; above it the double is rounded.
   */
  const MaxExactInteger: nat := 9_007_199_254_740_992

  /**
   * `Number(s)`: the empty string and digit-only strings of value at most 2^53
   * are integers (leading zeros ignored); a string holding a character that no
   * numeric literal can contain is NaN; the remaining forms (larger digit
   * strings, which round, signs, white space, fractions, exponents, radix
   * prefixes, Infinity) are not evaluated here.
   */
  function ToNumber(s: string): JsNumber
  {
    if AllDigits(s) then
      if DigitsValue(s) <= MaxExactInteger then Int(DigitsValue(s)) else Other
    else if exists i :: 0 <= i < |s| && !IsNumericLiteralChar(s[i]) then NaN
    else Other
  }

  /** `Number` reads back the decimal text of a non-negative integer up to 2^53, whatever zeros precede it. */
  lemma NumberOfDecimal(k: nat, n: nat)
    requires n <= MaxExactInteger
    ensures ToNumber(Zeros(k) + NatToString(n)) == Int(n)
  {
    LeadingZerosIgnored(k, NatToString(n));
    DigitsValueOfNatToString(n);
  }

  /** A digit string above 2^53 is rounded by `Number`, which this model does not evaluate. */
  lemma NumberOfLargeDigits(s: string)
    requires AllDigits(s) && DigitsValue(s) > MaxExactInteger
    ensures ToNumber(s) == Other
  {
  }

  /** `Number("")` is 0. */
  lemma NumberOfEmpty()
    ensures ToNumber("") == Int(0)
  {
  }

  /** A string holding a character no numeric literal can contain is NaN, e.g. a letter such as 'z'. */
  lemma NumberOfNonNumeric(s: string, i: nat)
    requires i < |s| && !IsNumericLiteralChar(s[i])
    ensures ToNumber(s) == NaN
  {
    assert !IsDigit(s[i]);
  }
}
