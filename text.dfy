/** String primitives the server relies on: substring search in the manner of
    std::string::find and rfind, ASCII case folding as done by strcasecmp in the
    C locale, and the decimal rendering written by an ostringstream for a length. */
module Text {

  datatype Option<T> = None | Some(value: T)

  /** `pat` occurs in `s` starting at index `i`. */
  predicate OccursAt(s: string, pat: string, i: nat)
  {
    i + |pat| <= |s| && s[i..i + |pat|] == pat
  }

  ghost predicate Contains(s: string, pat: string)
  {
    exists i: nat :: OccursAt(s, pat, i)
  }

  lemma OccursAtShift(s: string, pat: string, i: nat)
    requires |s| > 0
    ensures OccursAt(s[1..], pat, i) <==> OccursAt(s, pat, i + 1)
  {
    if i + |pat| <= |s| - 1 {
      assert s[1..][i..i + |pat|] == s[i + 1..i + 1 + |pat|];
    }
  }

  /** A one-character pattern occurs exactly where that character stands. */
  lemma OccursAtChar(s: string, c: char, j: nat)
    ensures OccursAt(s, [c], j) <==> j < |s| && s[j] == c
  {
    if j < |s| {
      assert s[j..j + 1] == [s[j]];
    }
  }

  /** An occurrence with none before it is the one Find returns. */
  lemma FindFirst(s: string, pat: string, p: nat)
    requires OccursAt(s, pat, p)
    requires forall j: nat :: j < p ==> !OccursAt(s, pat, j)
    ensures Find(s, pat) == Some(p)
  {
    assert Contains(s, pat);
  }

  /** The first `c` of a word without `c`, then `c`, then more text is the one
      after the word. */
  lemma FindAfterWord(w: string, c: char, tail: string)
    requires c !in w
    ensures Find(w + [c] + tail, [c]) == Some(|w|)
  {
    var s := w + [c] + tail;
    OccursAtChar(s, c, |w|);
    forall j: nat | j < |w| ensures !OccursAt(s, [c], j) {
      OccursAtChar(s, c, j);
      assert s[j] == w[j];
    }
  }

  /** The three parts of a concatenation are found back at their offsets. */
  lemma ConcatParts(a: string, b: string, c: string)
    ensures (a + b + c)[..|a|] == a
    ensures (a + b + c)[|a|..|a| + |b|] == b
    ensures (a + b + c)[|a| + |b|..] == c
  {
  }

  /** A pattern does not occur where one of its characters is missing. */
  lemma MismatchNotOccurs(s: string, pat: string, i: nat, k: nat)
    requires k < |pat| && i + k < |s| && s[i + k] != pat[k]
    ensures !OccursAt(s, pat, i)
  {
    if i + |pat| <= |s| {
      assert s[i..i + |pat|][k] == s[i + k];
    }
  }

  /** Prepending a character creates no occurrence except possibly at the front. */
  lemma NotContainsCons(c: char, rest: string, pat: string)
    requires !Contains(rest, pat) && !OccursAt([c] + rest, pat, 0)
    ensures !Contains([c] + rest, pat)
  {
    var s := [c] + rest;
    assert s[1..] == rest;
    forall i: nat | i > 0 ensures !OccursAt(s, pat, i) {
      OccursAtShift(s, pat, i - 1);
    }
  }

  /** std::string::find: the least index at which `pat` occurs, None (npos) if none. */
  function Find(s: string, pat: string): (r: Option<nat>)
    ensures r.Some? ==> OccursAt(s, pat, r.value)
    ensures r.Some? ==> forall j: nat :: j < r.value ==> !OccursAt(s, pat, j)
    ensures r.None? <==> !Contains(s, pat)
    decreases |s|
  {
    if OccursAt(s, pat, 0) then Some(0)
    else if |s| <= |pat| then None
    else
      var rest := Find(s[1..], pat);
      forall j: nat | j >= 1 ensures OccursAt(s, pat, j) <==> OccursAt(s[1..], pat, j - 1) {
        OccursAtShift(s, pat, j - 1);
      }
      if rest.None? then None else Some(rest.value + 1)
  }

  /** std::string::rfind for a single character: the greatest index holding `c`. */
  function RFind(s: string, c: char): (r: Option<nat>)
    ensures r.Some? ==> r.value < |s| && s[r.value] == c
    ensures r.Some? ==> forall j :: r.value < j < |s| ==> s[j] != c
    ensures r.None? <==> forall j :: 0 <= j < |s| ==> s[j] != c
    decreases |s|
  {
    if s == [] then None
    else if s[|s| - 1] == c then Some(|s| - 1)
    else RFind(s[..|s| - 1], c)
  }

  /** tolower in the C locale: only 'A'..'Z' change. */
  function Lower(c: char): char
  {
    if 'A' <= c <= 'Z' then (c as int + 32) as char else c
  }

  predicate IsLetter(c: char)
  {
    'A' <= c <= 'Z' || 'a' <= c <= 'z'
  }

  /** strcasecmp(a, b) == 0: equal texts match, and a match differs from the
      other text only in the case of letters. */
  predicate EqualsIgnoreCase(a: string, b: string)
    ensures a == b ==> EqualsIgnoreCase(a, b)
    ensures EqualsIgnoreCase(a, b) ==>
      |a| == |b| && forall i :: 0 <= i < |a| && !IsLetter(a[i]) ==> a[i] == b[i]
  {
    |a| == |b| && forall i :: 0 <= i < |a| ==> Lower(a[i]) == Lower(b[i])
  }

  predicate IsDigit(c: char)
  {
    '0' <= c <= '9'
  }

  /** The text `out << n` writes for a non-negative length. */
  function Decimal(n: nat): (r: string)
    ensures |r| > 0 && forall i :: 0 <= i < |r| ==> IsDigit(r[i])
    ensures r[0] == '0' ==> n == 0
    decreases n
  {
    if n < 10 then [('0' as int + n) as char]
    else Decimal(n / 10) + [('0' as int + n % 10) as char]
  }

  /** The value of a string of decimal digits, read most significant digit first. */
  function DecimalValue(s: string): nat
    requires forall i :: 0 <= i < |s| ==> IsDigit(s[i])
    decreases |s|
  {
    if s == [] then 0
    else 10 * DecimalValue(s[..|s| - 1]) + DigitValue(s[|s| - 1])
  }

  function DigitValue(c: char): nat
    requires IsDigit(c)
  {
    c as int - '0' as int
  }

  /** A declared length can be read back: the digits written for `n` denote `n`. */
  lemma {:induction false} DecimalRoundTrip(n: nat)
    ensures DecimalValue(Decimal(n)) == n
    decreases n
  {
    if n >= 10 {
      var d := Decimal(n);
      assert d[..|d| - 1] == Decimal(n / 10);
      DecimalRoundTrip(n / 10);
    }
  }
}
