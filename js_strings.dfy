/**
  The few JavaScript string operations the handlers rely on: the `\s` white-space class and
  `trim()`, `includes` / `indexOf`, `replace(pattern, '')` with a string pattern,
  `toLowerCase()` and the decimal rendering of a number inside a template literal.
  Strings are sequences of Unicode scalar values.
*/
module JsStrings {
  import opened Wrappers

  /** The characters matched by `\s` in a JavaScript regular expression; `trim()` strips the same set. */
  predicate IsSpace(c: char) {
    c == '\t' || c == '\n' || c == '\U{000B}' || c == '\U{000C}' || c == '\r' || c == ' ' ||
    c == '\U{00A0}' || c == '\U{1680}' || ('\U{2000}' <= c <= '\U{200A}') ||
    c == '\U{2028}' || c == '\U{2029}' || c == '\U{202F}' || c == '\U{205F}' ||
    c == '\U{3000}' || c == '\U{FEFF}'
  }

  /** Every character of `s` from index `lo` up to (not including) `hi` is white space. */
  predicate SpaceBetween(s: string, lo: nat, hi: nat)
    requires lo <= hi <= |s|
  {
    forall k {:trigger IsSpace(s[k])} :: lo <= k < hi ==> IsSpace(s[k])
  }

  // ---------------------------------------------------------------------------------------------
  // White-space runs and trim()

  /** Greedy `\s*` from index `i`: the index of the first character at or after `i` that is not
      white space. */
  function SkipSpace(s: string, i: nat): (j: nat)
    requires i <= |s|
    ensures i <= j <= |s|
    decreases |s| - i
  {
    if i < |s| && IsSpace(s[i]) then SkipSpace(s, i + 1) else i
  }

  lemma {:induction false} SkipSpaceSpec(s: string, i: nat)
    requires i <= |s|
    ensures SpaceBetween(s, i, SkipSpace(s, i))
    ensures SkipSpace(s, i) < |s| ==> !IsSpace(s[SkipSpace(s, i)])
    decreases |s| - i
  {
    if i < |s| && IsSpace(s[i]) {
      SkipSpaceSpec(s, i + 1);
    }
  }

  /** A run of white space that ends before a non-space character (or the end of `s`) is exactly
      what `SkipSpace` steps over. */
  lemma {:induction false} SkipSpaceUnique(s: string, i: nat, j: nat)
    requires i <= j <= |s|
    requires SpaceBetween(s, i, j)
    requires j < |s| ==> !IsSpace(s[j])
    ensures SkipSpace(s, i) == j
    decreases j - i
  {
    if i < j {
      SkipSpaceUnique(s, i + 1, j);
    }
  }

  /** Scanning backwards from index `j`, but not below `lo`: the index where the run of white
      space that ends at `j` begins. */
  function SkipSpaceBack(s: string, lo: nat, j: nat): (i: nat)
    requires lo <= j <= |s|
    ensures lo <= i <= j
    decreases j
  {
    if lo < j && IsSpace(s[j - 1]) then SkipSpaceBack(s, lo, j - 1) else j
  }

  lemma {:induction false} SkipSpaceBackSpec(s: string, lo: nat, j: nat)
    requires lo <= j <= |s|
    ensures SpaceBetween(s, SkipSpaceBack(s, lo, j), j)
    ensures lo < SkipSpaceBack(s, lo, j) ==> !IsSpace(s[SkipSpaceBack(s, lo, j) - 1])
    decreases j
  {
    if lo < j && IsSpace(s[j - 1]) {
      SkipSpaceBackSpec(s, lo, j - 1);
    }
  }

  /** `s.trim()`: leading white space is skipped first, then trailing white space of the rest. */
  function Trim(s: string): (r: string)
    ensures |r| <= |s|
  {
    var i := SkipSpace(s, 0);
    s[i..SkipSpaceBack(s, i, |s|)]
  }

  /** The trimmed text neither starts nor ends with white space, and it is the middle of `s`
      between a run of white space at the start and one at the end. */
  lemma TrimSpec(s: string)
    ensures Trim(s) == [] || (!IsSpace(Trim(s)[0]) && !IsSpace(Trim(s)[|Trim(s)| - 1]))
    ensures exists i :: 0 <= i <= |s| - |Trim(s)| && s[i..i + |Trim(s)|] == Trim(s)
                        && SpaceBetween(s, 0, i) && SpaceBetween(s, i + |Trim(s)|, |s|)
  {
    var i := SkipSpace(s, 0);
    var j := SkipSpaceBack(s, i, |s|);
    SkipSpaceSpec(s, 0);
    SkipSpaceBackSpec(s, i, |s|);
    assert Trim(s) == s[i..j];
    assert i < j ==> Trim(s)[0] == s[i] && Trim(s)[j - i - 1] == s[j - 1];
  }

  /** Trimming a text that has no white space at either end leaves it as it is. */
  lemma TrimOfTrimmed(s: string)
    requires s == [] || (!IsSpace(s[0]) && !IsSpace(s[|s| - 1]))
    ensures Trim(s) == s
  {
    if s != [] {
      assert SkipSpace(s, 0) == 0;
      assert SkipSpaceBack(s, 0, |s|) == |s|;
    }
  }

  /** `trim()` is idempotent. */
  lemma TrimIdempotent(s: string)
    ensures Trim(Trim(s)) == Trim(s)
  {
    TrimSpec(s);
    TrimOfTrimmed(Trim(s));
  }

  /** A text of white space only trims to the empty string. */
  lemma TrimAllSpace(s: string)
    requires SpaceBetween(s, 0, |s|)
    ensures Trim(s) == []
  {
    SkipSpaceUnique(s, 0, |s|);
  }

  // ---------------------------------------------------------------------------------------------
  // indexOf, includes and replace

  /** `p` occurs in `s` starting at index `i`. */
  predicate OccursAt(s: string, p: string, i: nat) {
    i + |p| <= |s| && s[i..i + |p|] == p
  }

  /** `s.indexOf(p, from)`, with `None` for -1. */
  function IndexFrom(s: string, p: string, from: nat): (r: Option<nat>)
    ensures r.Some? ==> from <= r.value && OccursAt(s, p, r.value)
    ensures r.Some? ==> forall j :: from <= j < r.value ==> !OccursAt(s, p, j)
    ensures r.None? ==> forall j :: from <= j ==> !OccursAt(s, p, j)
    decreases |s| - from
  {
    if from + |p| > |s| then None
    else if s[from..from + |p|] == p then Some(from)
    else IndexFrom(s, p, from + 1)
  }

  /** `s.indexOf(p)`: the leftmost occurrence of `p` in `s`. */
  function IndexOf(s: string, p: string): (r: Option<nat>)
    ensures r.Some? ==> OccursAt(s, p, r.value) && forall j :: 0 <= j < r.value ==> !OccursAt(s, p, j)
    ensures r.None? <==> forall j :: 0 <= j ==> !OccursAt(s, p, j)
  {
    IndexFrom(s, p, 0)
  }

  /** `s.includes(p)`. */
  predicate Contains(s: string, p: string): (b: bool)
    ensures b ==> |p| <= |s|
    ensures p == [] ==> b
  {
    IndexOf(s, p).Some?
  }

  /** An occurrence anywhere is enough for `includes`. */
  lemma ContainsAt(s: string, p: string, i: nat)
    requires OccursAt(s, p, i)
    ensures Contains(s, p)
  {
  }

  /** `includes` on a concatenation: an occurrence inside the right part. */
  lemma ContainsRight(a: string, b: string, p: string)
    requires Contains(b, p)
    ensures Contains(a + b, p)
  {
    var i := IndexOf(b, p).value;
    assert (a + b)[|a| + i..|a| + i + |p|] == b[i..i + |p|];
    ContainsAt(a + b, p, |a| + i);
  }

  /** A template literal: its pieces, literal text and substituted values, in order. */
  function Concat(parts: seq<string>): (r: string)
    decreases |parts|
  {
    if parts == [] then "" else parts[0] + Concat(parts[1..])
  }

  /** A template literal of two pieces is their concatenation. */
  lemma Concat2(a: string, b: string)
    ensures Concat([a, b]) == a + b
  {
    assert [a, b][1..] == [b];
    assert Concat([a, b]) == a + Concat([b]);
    assert [b][1..] == [];
    assert Concat([b]) == b + Concat([]);
    assert b + "" == b;
  }

  /** A template literal begins with its first piece. */
  lemma ConcatPrefix(parts: seq<string>)
    requires parts != []
    ensures |parts[0]| <= |Concat(parts)| && Concat(parts)[..|parts[0]|] == parts[0]
  {
    assert Concat(parts) == parts[0] + Concat(parts[1..]);
  }

  /** A template literal contains each of its pieces. */
  lemma {:induction false} ConcatContains(parts: seq<string>, k: nat)
    requires k < |parts|
    ensures Contains(Concat(parts), parts[k])
    decreases k
  {
    var rest := Concat(parts[1..]);
    assert Concat(parts) == parts[0] + rest;
    if k == 0 {
      assert (parts[0] + rest)[0..|parts[0]|] == parts[0];
      ContainsAt(Concat(parts), parts[0], 0);
    } else {
      assert parts[1..][k - 1] == parts[k];
      ConcatContains(parts[1..], k - 1);
      ContainsRight(parts[0], rest, parts[k]);
    }
  }

  /** A text lacking one of the characters of `p` does not contain `p`. */
  lemma MissingCharNotContained(s: string, p: string, i: nat)
    requires i < |p| && forall k :: 0 <= k < |s| ==> s[k] != p[i]
    ensures !Contains(s, p)
  {
  }

  /** `s.replace(p, '')` for a string pattern: removes the leftmost occurrence of `p`, if any. */
  function RemoveFirst(s: string, p: string): (r: string)
    ensures IndexOf(s, p).None? ==> r == s
    ensures IndexOf(s, p).Some? ==>
      var i := IndexOf(s, p).value;
      |r| == |s| - |p| && i <= |r| && r[..i] + p + r[i..] == s
  {
    match IndexOf(s, p)
    case None => s
    case Some(i) =>
      var r := s[..i] + s[i + |p|..];
      assert r[..i] == s[..i] && r[i..] == s[i + |p|..];
      assert s == s[..i] + s[i..i + |p|] + s[i + |p|..];
      r
  }

  // ---------------------------------------------------------------------------------------------
  // toLowerCase()

  /** `c.toLowerCase()` as far as any question about ASCII substrings can tell: A-Z map to a-z;
      U+0130 (capital I with dot above) maps to "i" followed by U+0307 and U+212A (Kelvin sign)
      to "k", the only other code points whose lower-case form contains ASCII; every other
      character is kept, which differs from JavaScript only on non-ASCII characters. */
  function LowerChar(c: char): (r: string)
    ensures 1 <= |r| <= 2
  {
    if 'A' <= c <= 'Z' then [(c as int + 32) as char]
    else if c == '\U{0130}' then "i\U{0307}"
    else if c == '\U{212A}' then "k"
    else [c]
  }

  predicate IsAsciiUpper(c: char) {
    'A' <= c <= 'Z'
  }

  /** `s.toLowerCase()`: a text with no ASCII capital left, at least as long as `s`. */
  function ToLower(s: string): (r: string)
    ensures |s| <= |r| <= 2 * |s|
    ensures forall k :: 0 <= k < |r| ==> !IsAsciiUpper(r[k])
  {
    if s == [] then [] else LowerChar(s[0]) + ToLower(s[1..])
  }

  lemma {:induction false} ToLowerAppend(a: string, b: string)
    ensures ToLower(a + b) == ToLower(a) + ToLower(b)
  {
    if a != [] {
      assert (a + b)[1..] == a[1..] + b;
      ToLowerAppend(a[1..], b);
    } else {
      assert a + b == b;
    }
  }

  /** A text with no upper-case letter that `ToLower` changes is its own lower-case form. */
  lemma {:induction false} ToLowerOfLower(s: string)
    requires forall k :: 0 <= k < |s| ==> !IsAsciiUpper(s[k]) && s[k] != '\U{0130}' && s[k] != '\U{212A}'
    ensures ToLower(s) == s
  {
    if s != [] {
      ToLowerOfLower(s[1..]);
    }
  }

  /** `toLowerCase()` is idempotent. */
  lemma ToLowerIdempotent(s: string)
    ensures ToLower(ToLower(s)) == ToLower(s)
  {
    var r := ToLower(s);
    forall k | 0 <= k < |r|
      ensures !IsAsciiUpper(r[k]) && r[k] != '\U{0130}' && r[k] != '\U{212A}'
    {
      ToLowerNoSpecials(s, k);
    }
    ToLowerOfLower(r);
  }

  lemma {:induction false} ToLowerNoSpecials(s: string, k: nat)
    requires k < |ToLower(s)|
    ensures ToLower(s)[k] != '\U{0130}' && ToLower(s)[k] != '\U{212A}'
  {
    if s != [] {
      var head := LowerChar(s[0]);
      if k >= |head| {
        ToLowerNoSpecials(s[1..], k - |head|);
      }
    }
  }

  // ---------------------------------------------------------------------------------------------
  // Numbers in template literals

  function DigitChar(d: nat): (c: char)
    requires d < 10
  {
    "0123456789"[d]
  }

  function DigitValue(c: char): nat {
    if '0' <= c <= '9' then c as int - '0' as int else 0
  }

  /** `${n}` for a non-negative integer n: its decimal digits, most significant first. */
  function DecimalString(n: nat): (r: string)
    ensures r != []
    ensures forall k :: 0 <= k < |r| ==> '0' <= r[k] <= '9'
    ensures |r| > 1 ==> r[0] != '0'
  {
    if n < 10 then [DigitChar(n)] else DecimalString(n / 10) + [DigitChar(n % 10)]
  }

  /** The number a string of decimal digits denotes. */
  function DecimalValue(s: string): nat {
    if s == [] then 0 else 10 * DecimalValue(s[..|s| - 1]) + DigitValue(s[|s| - 1])
  }

  /** Reading back the digits of `${n}` gives `n`. */
  lemma {:induction false} DecimalRoundTrip(n: nat)
    ensures DecimalValue(DecimalString(n)) == n
  {
    if n >= 10 {
      var s := DecimalString(n);
      assert s[..|s| - 1] == DecimalString(n / 10);
      DecimalRoundTrip(n / 10);
    }
  }
}
