/** url_decode: the only percent-escape the server understands is "%20", which
    it rewrites in place to a single space, first occurrence first, until none
    is left. */
module UrlDecoding {
  import opened Text

  const EncodedSpace := "%20"

  /** Reference definition: scan left to right, turning each "%20" into ' '
      and copying every other character. */
  function DecodeSpaces(s: string): string
    decreases |s|
  {
    if s == [] then []
    else if OccursAt(s, EncodedSpace, 0) then " " + DecodeSpaces(s[3..])
    else [s[0]] + DecodeSpaces(s[1..])
  }

  /** The inverse direction: every space written as "%20". */
  function EncodeSpaces(s: string): string
    decreases |s|
  {
    if s == [] then []
    else if s[0] == ' ' then EncodedSpace + EncodeSpaces(s[1..])
    else [s[0]] + EncodeSpaces(s[1..])
  }

  /** The in-place loop of url_decode: find "%20", erase two characters there,
      overwrite the remaining '0' with a space, search again. */
  method UrlDecode(path: string) returns (decoded: string)
    ensures decoded == DecodeSpaces(path)
    ensures !Contains(decoded, EncodedSpace)
  {
    decoded := path;
    var pos := Find(decoded, EncodedSpace);
    while pos.Some?
      invariant pos == Find(decoded, EncodedSpace)
      invariant DecodeSpaces(decoded) == DecodeSpaces(path)
      decreases |decoded|
    {
      var p := pos.value;
      ghost var before := decoded;
      decoded := decoded[..p] + decoded[p + 2..];
      decoded := decoded[..p] + " " + decoded[p + 1..];
      assert decoded == before[..p] + " " + before[p + 3..];
      ReplaceFirstPreservesDecoding(before, p);
      pos := Find(decoded, EncodedSpace);
    }
    NoEscapeDecodesToItself(decoded);
  }

  /** Decoding copies a prefix in which no "%20" starts. */
  lemma {:induction false} DecodeCopiesPrefix(u: string, v: string)
    requires forall i: nat :: i < |u| ==> !OccursAt(u + v, EncodedSpace, i)
    ensures DecodeSpaces(u + v) == u + DecodeSpaces(v)
    decreases |u|
  {
    if u != [] {
      var x := u + v;
      assert !OccursAt(x, EncodedSpace, 0);
      assert x[1..] == u[1..] + v;
      forall i: nat | i < |u[1..]| ensures !OccursAt(u[1..] + v, EncodedSpace, i) {
        OccursAtShift(x, EncodedSpace, i);
      }
      DecodeCopiesPrefix(u[1..], v);
      calc {
        DecodeSpaces(x);
        [x[0]] + DecodeSpaces(x[1..]);
        [u[0]] + DecodeSpaces(u[1..] + v);
        [u[0]] + (u[1..] + DecodeSpaces(v));
        { assert [u[0]] + u[1..] == u; }
        u + DecodeSpaces(v);
      }
    } else {
      assert u + v == v;
    }
  }

  /** Writing a space where the first "%20" stood creates no earlier escape. */
  lemma NoEscapeBeforeSpace(t: string, p: nat, t': string)
    requires p + 3 <= |t| && t' == t[..p] + " " + t[p + 3..]
    requires forall j: nat :: j < p ==> !OccursAt(t, EncodedSpace, j)
    ensures forall i: nat :: i < p ==> !OccursAt(t', EncodedSpace, i)
  {
    forall i: nat | i < p ensures !OccursAt(t', EncodedSpace, i) {
      if i + 3 <= p {
        assert t'[i..i + 3] == t[i..i + 3];
        assert !OccursAt(t, EncodedSpace, i);
      } else if i + 3 <= |t'| {
        assert t'[i..i + 3][p - i] == t'[p] == ' ';
      }
    }
  }

  lemma EscapeAt(t: string, p: nat)
    requires OccursAt(t, EncodedSpace, p)
    ensures p + 3 <= |t| && t[p..][..3] == EncodedSpace
  {
    assert |EncodedSpace| == 3;
    assert t[p..][..3] == t[p..p + 3];
  }

  /** One iteration of the loop leaves the decoded meaning unchanged. */
  lemma ReplaceFirstPreservesDecoding(t: string, p: nat)
    requires OccursAt(t, EncodedSpace, p)
    requires forall j: nat :: j < p ==> !OccursAt(t, EncodedSpace, j)
    ensures DecodeSpaces(t[..p] + " " + t[p + 3..]) == DecodeSpaces(t)
  {
    var u, w, tail := t[..p], t[p..], t[p + 3..];
    assert t == u + w;
    DecodeCopiesPrefix(u, w);
    EscapeAt(t, p);
    assert w[..3] == EncodedSpace;
    assert w[3..] == tail;
    assert DecodeSpaces(w) == " " + DecodeSpaces(tail);
    NoEscapeBeforeSpace(t, p, t[..p] + " " + tail);
    assert t[..p] + " " + tail == u + (" " + tail);
    DecodeCopiesPrefix(u, " " + tail);
    assert (" " + tail)[1..] == tail;
    assert (" " + tail)[0] == ' ';
  }

  /** A string without "%20" is its own decoding. */
  lemma {:induction false} NoEscapeDecodesToItself(s: string)
    requires !Contains(s, EncodedSpace)
    ensures DecodeSpaces(s) == s
    decreases |s|
  {
    if s != [] {
      assert !OccursAt(s, EncodedSpace, 0);
      forall i: nat ensures !OccursAt(s[1..], EncodedSpace, i) {
        OccursAtShift(s, EncodedSpace, i);
      }
      NoEscapeDecodesToItself(s[1..]);
    }
  }

  /** The first character survives decoding unless it starts an escape. */
  lemma {:induction false} DecodeHead(s: string)
    requires s != [] && !OccursAt(s, EncodedSpace, 0)
    ensures DecodeSpaces(s) != [] && DecodeSpaces(s)[0] == s[0]
  {
  }

  /** A decoded string holds no "%20": no escape survives and none is created. */
  lemma {:induction false} DecodedHasNoEscape(s: string)
    ensures !Contains(DecodeSpaces(s), EncodedSpace)
    decreases |s|
  {
    if s == [] {
    } else if OccursAt(s, EncodedSpace, 0) {
      var rest := DecodeSpaces(s[3..]);
      DecodedHasNoEscape(s[3..]);
      assert ([' '] + rest)[0] == ' ';
      NotContainsCons(' ', rest, EncodedSpace);
    } else {
      var rest := DecodeSpaces(s[1..]);
      DecodedHasNoEscape(s[1..]);
      if |rest| >= 2 && rest[0] == '2' && rest[1] == '0' {
        DecodeKeeps20(s[1..]);
        assert s[..3] != EncodedSpace;
      }
      var x := [s[0]] + rest;
      assert |x| >= 3 ==> x[0] == s[0] && x[1..3] == rest[..2];
      NotContainsCons(s[0], rest, EncodedSpace);
    }
  }

  /** Decoding yields a leading "20" only from a leading "20". */
  lemma DecodeKeeps20(x: string)
    requires |DecodeSpaces(x)| >= 2 && DecodeSpaces(x)[0] == '2' && DecodeSpaces(x)[1] == '0'
    ensures |x| >= 2 && x[0] == '2' && x[1] == '0'
  {
    assert x != [] && !OccursAt(x, EncodedSpace, 0);
    var x1 := x[1..];
    assert DecodeSpaces(x)[1..] == DecodeSpaces(x1);
    assert x1 != [] && !OccursAt(x1, EncodedSpace, 0);
  }

  /** Decoding is idempotent. */
  lemma DecodeIdempotent(s: string)
    ensures DecodeSpaces(DecodeSpaces(s)) == DecodeSpaces(s)
  {
    DecodedHasNoEscape(s);
    NoEscapeDecodesToItself(DecodeSpaces(s));
  }

  /** Round trip: a path free of "%20" comes back from encoding its spaces. */
  lemma {:induction false} DecodeEncode(s: string)
    requires !Contains(s, EncodedSpace)
    ensures DecodeSpaces(EncodeSpaces(s)) == s
    decreases |s|
  {
    if s != [] {
      assert !OccursAt(s, EncodedSpace, 0);
      forall i: nat ensures !OccursAt(s[1..], EncodedSpace, i) {
        OccursAtShift(s, EncodedSpace, i);
      }
      DecodeEncode(s[1..]);
      var e := EncodeSpaces(s);
      if s[0] == ' ' {
        assert e == EncodedSpace + EncodeSpaces(s[1..]);
        assert OccursAt(e, EncodedSpace, 0);
        assert e[3..] == EncodeSpaces(s[1..]);
      } else {
        assert e == [s[0]] + EncodeSpaces(s[1..]);
        assert e[1..] == EncodeSpaces(s[1..]);
        if OccursAt(e, EncodedSpace, 0) {
          assert e[..3] == EncodedSpace;
          var s1 := s[1..];
          EncodeHead(s1);
          assert EncodeSpaces(s1)[1..] == EncodeSpaces(s1[1..]);
          EncodeHead(s1[1..]);
          assert false;
        }
      }
    }
  }

  /** Encoding keeps a first character that is not a space. */
  lemma EncodeHead(s: string)
    requires |EncodeSpaces(s)| > 0 && EncodeSpaces(s)[0] != '%'
    ensures s != [] && s[0] == EncodeSpaces(s)[0]
  {
  }
}
