/** The traversal filter of worker(): while the file path contains "../",
    erase the character where it starts (the first dot). It is a textual
    filter, not a path normalisation: "a/../b" becomes "a/./b" and a run of
    dots in front of '/' shrinks to a single dot. */
module Traversal {
  import opened Text

  const ParentRef := "../"

  /** `x` starts with one or more dots followed by '/'. */
  predicate DotRunThenSlash(x: string)
    decreases |x|
  {
    |x| >= 2 && x[0] == '.' && (x[1] == '/' || DotRunThenSlash(x[1..]))
  }

  /** The filter erases the first character of `s`: a dot that is followed by
      more dots and then '/'. */
  predicate ErasesHead(s: string)
  {
    |s| > 0 && s[0] == '.' && DotRunThenSlash(s[1..])
  }

  /** Reference definition of the filter's outcome, read left to right. */
  function StripParentRefs(s: string): string
    decreases |s|
  {
    if s == [] then []
    else if ErasesHead(s) then StripParentRefs(s[1..])
    else [s[0]] + StripParentRefs(s[1..])
  }

  /** `r` is `s` with some of its dots deleted and nothing else changed. */
  predicate OnlyDotsRemoved(s: string, r: string)
    decreases |s|
  {
    if s == [] then r == []
    else
      || (r != [] && r[0] == s[0] && OnlyDotsRemoved(s[1..], r[1..]))
      || (s[0] == '.' && OnlyDotsRemoved(s[1..], r))
  }

  /** The loop of worker(): find "../", erase one character there, search again. */
  method StripTraversal(filepath: string) returns (r: string)
    ensures r == StripParentRefs(filepath)
    ensures !Contains(r, ParentRef)
  {
    r := filepath;
    var pos := Find(r, ParentRef);
    while pos.Some?
      invariant pos == Find(r, ParentRef)
      invariant StripParentRefs(r) == StripParentRefs(filepath)
      decreases |r|
    {
      EraseDotPreservesStrip(r, pos.value);
      r := r[..pos.value] + r[pos.value + 1..];
      pos := Find(r, ParentRef);
    }
    NoParentRefStripsToItself(r);
  }

  lemma ParentRefChars(x: string, q: nat)
    requires OccursAt(x, ParentRef, q)
    ensures x[q] == '.' && x[q + 1] == '.' && x[q + 2] == '/'
  {
    assert x[q..q + 3][0] == x[q] && x[q..q + 3][1] == x[q + 1] && x[q..q + 3][2] == x[q + 2];
  }

  /** Erasing the first dot of a "../" does not change whether a dot run ends in '/'. */
  lemma {:induction false} EraseDotKeepsRun(x: string, q: nat)
    requires OccursAt(x, ParentRef, q)
    ensures DotRunThenSlash(x[..q] + x[q + 1..]) == DotRunThenSlash(x)
    decreases q
  {
    var x' := x[..q] + x[q + 1..];
    ParentRefChars(x, q);
    if q == 0 {
      assert x' == x[1..];
      assert DotRunThenSlash(x[1..]);
    } else if q == 1 {
      assert x'[1..] == x[2..] && DotRunThenSlash(x[2..]);
      assert DotRunThenSlash(x[1..]);
    } else {
      var y := x[1..];
      assert y[q - 1..q + 2] == x[q..q + 3];
      EraseDotKeepsRun(y, q - 1);
      assert x'[1..] == y[..q - 1] + y[q..];
    }
  }

  /** One iteration of the loop leaves the filter's outcome unchanged. */
  lemma {:induction false} EraseDotPreservesStrip(t: string, p: nat)
    requires OccursAt(t, ParentRef, p)
    ensures StripParentRefs(t[..p] + t[p + 1..]) == StripParentRefs(t)
    decreases p
  {
    var t' := t[..p] + t[p + 1..];
    ParentRefChars(t, p);
    if p == 0 {
      assert t' == t[1..];
      assert t[1..][..2] == "./";
      assert ErasesHead(t);
    } else {
      var y := t[1..];
      assert y[p - 1..p + 2] == t[p..p + 3];
      EraseDotPreservesStrip(y, p - 1);
      EraseDotKeepsRun(y, p - 1);
      assert t'[1..] == y[..p - 1] + y[p..];
      assert t'[0] == t[0];
      assert ErasesHead(t') == ErasesHead(t);
    }
  }

  /** An erased dot is the start of a "../" somewhere at or after it. */
  lemma {:induction false} ErasedHeadStartsParentRef(s: string) returns (i: nat)
    requires ErasesHead(s)
    ensures OccursAt(s, ParentRef, i)
    decreases |s|
  {
    if s[2] == '/' {
      assert s[..3] == ParentRef;
      i := 0;
    } else {
      var j := ErasedHeadStartsParentRef(s[1..]);
      OccursAtShift(s, ParentRef, j);
      i := j + 1;
    }
  }

  /** A path without "../" passes the filter unchanged. */
  lemma {:induction false} NoParentRefStripsToItself(s: string)
    requires !Contains(s, ParentRef)
    ensures StripParentRefs(s) == s
    decreases |s|
  {
    if s != [] {
      if ErasesHead(s) {
        var i := ErasedHeadStartsParentRef(s);
        assert false;
      }
      forall i: nat ensures !OccursAt(s[1..], ParentRef, i) {
        OccursAtShift(s, ParentRef, i);
      }
      NoParentRefStripsToItself(s[1..]);
    }
  }

  /** The filter never changes the first character. */
  lemma {:induction false} StripKeepsHead(y: string)
    requires y != []
    ensures StripParentRefs(y) != [] && StripParentRefs(y)[0] == y[0]
    decreases |y|
  {
    if ErasesHead(y) {
      StripKeepsHead(y[1..]);
    }
  }

  /** An outcome that starts with "./" comes from a dot run ending in '/'. */
  lemma StripStartsDotSlash(y: string)
    requires |StripParentRefs(y)| >= 2
    requires StripParentRefs(y)[0] == '.' && StripParentRefs(y)[1] == '/'
    ensures DotRunThenSlash(y)
  {
    StripKeepsHead(y);
    if !ErasesHead(y) {
      assert StripParentRefs(y)[1..] == StripParentRefs(y[1..]);
      StripKeepsHead(y[1..]);
    }
  }

  /** After the filter no "../" is left, whatever the input. */
  lemma {:induction false} StripHasNoParentRef(s: string)
    ensures !Contains(StripParentRefs(s), ParentRef)
    decreases |s|
  {
    if s != [] {
      var rest := StripParentRefs(s[1..]);
      StripHasNoParentRef(s[1..]);
      if !ErasesHead(s) {
        if |rest| >= 2 && rest[0] == '.' && rest[1] == '/' {
          StripStartsDotSlash(s[1..]);
        }
        var x := [s[0]] + rest;
        if |x| >= 3 {
          assert x[..3] == [s[0], rest[0], rest[1]];
        }
        NotContainsCons(s[0], rest, ParentRef);
      }
    }
  }

  /** The filter only deletes dots. */
  lemma {:induction false} StripRemovesOnlyDots(s: string)
    ensures OnlyDotsRemoved(s, StripParentRefs(s))
    decreases |s|
  {
    if s != [] {
      StripRemovesOnlyDots(s[1..]);
      if !ErasesHead(s) {
        assert ([s[0]] + StripParentRefs(s[1..]))[1..] == StripParentRefs(s[1..]);
      }
    }
  }

  /** The last character survives, so whether the path ends in '/' is the
      same before and after the filter. */
  lemma {:induction false} StripKeepsLast(s: string)
    requires s != []
    ensures StripParentRefs(s) != []
    ensures StripParentRefs(s)[|StripParentRefs(s)| - 1] == s[|s| - 1]
    decreases |s|
  {
    if |s| > 1 {
      StripKeepsLast(s[1..]);
    }
  }

  /** Applying the filter twice is the same as once. */
  lemma StripIdempotent(s: string)
    ensures StripParentRefs(StripParentRefs(s)) == StripParentRefs(s)
  {
    StripHasNoParentRef(s);
    NoParentRefStripsToItself(StripParentRefs(s));
  }

  /** A text without dots passes the filter unchanged in front of anything. */
  lemma {:induction false} DotFreePrefixKept(w: string, x: string)
    requires '.' !in w
    ensures StripParentRefs(w + x) == w + StripParentRefs(x)
    decreases |w|
  {
    if w != [] {
      var s := w + x;
      assert s[0] == w[0] && s[1..] == w[1..] + x;
      DotFreePrefixKept(w[1..], x);
      assert w == [w[0]] + w[1..];
    } else {
      assert w + x == x;
    }
  }

  /** A leading "../" is read as "./", whatever follows it. */
  lemma ParentPrefixReadAsCurrent(x: string)
    ensures StripParentRefs(ParentRef + x) == "./" + StripParentRefs(x)
  {
    var s := ParentRef + x;
    assert s[1..] == "./" + x;
    assert DotRunThenSlash(s[1..]);
    var t := "./" + x;
    assert t[1..] == "/" + x;
    assert !ErasesHead(t);
    assert ("/" + x)[1..] == x;
    assert StripParentRefs("/" + x) == "/" + StripParentRefs(x);
  }
}
