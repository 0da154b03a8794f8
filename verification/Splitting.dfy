/** Byte strings joined by a separator, and split at it again. */
module Splitting {
  import opened ByteStrings

  const COMMA: Byte := ',' as int as Byte

  /** The pieces after one more byte. */
  function Extend(sep: Byte, pieces: seq<Bytes>, x: Byte): seq<Bytes>
    requires |pieces| > 0
  {
    if x == sep then pieces + [[]] else pieces[..|pieces| - 1] + [pieces[|pieces| - 1] + [x]]
  }

  /** `split(sep)`. */
  function Split(sep: Byte, s: Bytes): (pieces: seq<Bytes>)
    ensures |pieces| > 0
  {
    if |s| == 0 then [[]] else Extend(sep, Split(sep, s[..|s| - 1]), s[|s| - 1])
  }

  /** `join(sep)`. */
  function Join(sep: Byte, parts: seq<Bytes>): Bytes {
    if |parts| == 0 then [] else if |parts| == 1 then parts[0]
    else Join(sep, parts[..|parts| - 1]) + [sep] + parts[|parts| - 1]
  }

  /** The parts cut further at every separator inside them. */
  function Pieces(sep: Byte, parts: seq<Bytes>): seq<Bytes> {
    if |parts| == 0 then [] else Pieces(sep, parts[..|parts| - 1]) + Split(sep, parts[|parts| - 1])
  }

  lemma {:induction false} SplitPlain(sep: Byte, w: Bytes)
    requires sep !in w
    ensures Split(sep, w) == [w]
  {
    if |w| > 0 {
      SplitPlain(sep, w[..|w| - 1]);
      assert w == w[..|w| - 1] + [w[|w| - 1]];
    }
  }

  lemma SplitSnoc(sep: Byte, s: Bytes, x: Byte)
    ensures Split(sep, s + [x]) == Extend(sep, Split(sep, s), x)
  {
    var z := s + [x];
    assert z[..|z| - 1] == s && z[|z| - 1] == x;
  }

  lemma ExtendConcat(sep: Byte, a: seq<Bytes>, b: seq<Bytes>, x: Byte)
    requires |b| > 0
    ensures Extend(sep, a + b, x) == a + Extend(sep, b, x)
  {
  }

  lemma {:induction false} SplitConcat(sep: Byte, a: Bytes, b: Bytes)
    ensures Split(sep, a + [sep] + b) == Split(sep, a) + Split(sep, b)
  {
    if |b| == 0 {
      SplitSnoc(sep, a, sep);
      assert a + [sep] + b == a + [sep];
    } else {
      var before, x := b[..|b| - 1], b[|b| - 1];
      SplitConcat(sep, a, before);
      SplitSnoc(sep, before, x);
      SplitSnoc(sep, a + [sep] + before, x);
      ExtendConcat(sep, Split(sep, a), Split(sep, before), x);
      assert b == before + [x] && a + [sep] + b == a + [sep] + before + [x];
    }
  }

  lemma JoinSnoc(sep: Byte, parts: seq<Bytes>, w: Bytes)
    requires |parts| > 0
    ensures Join(sep, parts + [w]) == Join(sep, parts) + [sep] + w
  {
    var all := parts + [w];
    assert all[..|all| - 1] == parts && all[|all| - 1] == w;
  }

  lemma JoinGrows(sep: Byte, parts: seq<Bytes>, w: Bytes, x: Byte)
    ensures Join(sep, parts + [w + [x]]) == Join(sep, parts + [w]) + [x]
  {
    if |parts| > 0 {
      JoinSnoc(sep, parts, w);
      JoinSnoc(sep, parts, w + [x]);
    }
  }

  /** Joining what was split gives the string back, so splitting loses nothing. */
  lemma {:induction false} JoinOfSplit(sep: Byte, s: Bytes)
    ensures Join(sep, Split(sep, s)) == s
  {
    if |s| > 0 {
      var m := |s| - 1;
      var rest := Split(sep, s[..m]);
      JoinOfSplit(sep, s[..m]);
      assert s == s[..m] + [s[m]];
      if s[m] == sep {
        JoinSnoc(sep, rest, []);
      } else {
        var init, last := rest[..|rest| - 1], rest[|rest| - 1];
        assert rest == init + [last];
        JoinGrows(sep, init, last, s[m]);
      }
    }
  }

  /** Splitting what was joined gives the pieces of the parts. */
  lemma {:induction false} SplitOfJoin(sep: Byte, parts: seq<Bytes>)
    requires |parts| > 0
    ensures Split(sep, Join(sep, parts)) == Pieces(sep, parts)
  {
    var m := |parts| - 1;
    if m > 0 {
      SplitOfJoin(sep, parts[..m]);
      SplitConcat(sep, Join(sep, parts[..m]), parts[m]);
    } else {
      assert Pieces(sep, parts[..m]) == [];
    }
  }

  /** Lists of parts join to one string exactly when they have the same pieces. */
  lemma JoinsAgreeIff(sep: Byte, a: seq<Bytes>, b: seq<Bytes>)
    requires |a| > 0 && |b| > 0
    ensures Join(sep, a) == Join(sep, b) <==> Pieces(sep, a) == Pieces(sep, b)
  {
    SplitOfJoin(sep, a);
    SplitOfJoin(sep, b);
    JoinOfSplit(sep, Join(sep, a));
    JoinOfSplit(sep, Join(sep, b));
  }

  lemma {:induction false} PiecesOfPlain(sep: Byte, parts: seq<Bytes>)
    requires forall p :: p in parts ==> sep !in p
    ensures Pieces(sep, parts) == parts
  {
    if |parts| > 0 {
      var m := |parts| - 1;
      assert parts[m] in parts && forall p :: p in parts[..m] ==> p in parts;
      PiecesOfPlain(sep, parts[..m]);
      SplitPlain(sep, parts[m]);
      assert parts == parts[..m] + [parts[m]];
    }
  }

  lemma {:induction false} SplitIsPlain(sep: Byte, s: Bytes)
    ensures forall p :: p in Split(sep, s) ==> sep !in p
  {
    if |s| > 0 { SplitIsPlain(sep, s[..|s| - 1]); }
  }

  /** Splitting recovers the joined parts if and only if there are parts and none of them
      holds the separator. */
  lemma PartsRecoveredIff(sep: Byte, parts: seq<Bytes>)
    ensures Split(sep, Join(sep, parts)) == parts <==> |parts| > 0 && forall p :: p in parts ==> sep !in p
  {
    SplitIsPlain(sep, Join(sep, parts));
    if |parts| > 0 && forall p :: p in parts ==> sep !in p {
      SplitOfJoin(sep, parts);
      PiecesOfPlain(sep, parts);
    }
  }

  /** How often the separator occurs. */
  function Count(sep: Byte, s: Bytes): nat {
    if |s| == 0 then 0 else Count(sep, s[..|s| - 1]) + if s[|s| - 1] == sep then 1 else 0
  }

  lemma {:induction false} SplitLength(sep: Byte, s: Bytes)
    ensures |Split(sep, s)| == Count(sep, s) + 1
  {
    if |s| > 0 { SplitLength(sep, s[..|s| - 1]); }
  }

  lemma SameEnds<T>(a: seq<T>, x: seq<T>, b: seq<T>, y: seq<T>)
    requires |x| == |y| && a + x == b + y
    ensures a == b && x == y
  {
    var left, right := a + x, b + y;
    assert |a| == |b|;
    assert a == left[..|a|] && b == right[..|a|] && x == left[|a|..] && y == right[|a|..];
  }

  lemma SameLastPart(sep: Byte, before: seq<Bytes>, p: Bytes, before': seq<Bytes>, q: Bytes)
    requires Count(sep, p) == Count(sep, q) && before + Split(sep, p) == before' + Split(sep, q)
    ensures before == before' && p == q
  {
    SplitLength(sep, p);
    SplitLength(sep, q);
    SameEnds(before, Split(sep, p), before', Split(sep, q));
    JoinOfSplit(sep, p);
    JoinOfSplit(sep, q);
  }

  /** Parts that hold equally many separators each have the same pieces only if they are equal. */
  lemma {:induction false} SamePieces(sep: Byte, a: seq<Bytes>, b: seq<Bytes>)
    requires |a| == |b| && forall i :: 0 <= i < |a| ==> Count(sep, a[i]) == Count(sep, b[i])
    requires Pieces(sep, a) == Pieces(sep, b)
    ensures a == b
  {
    if |a| > 0 {
      var m := |a| - 1;
      SameLastPart(sep, Pieces(sep, a[..m]), a[m], Pieces(sep, b[..m]), b[m]);
      SamePieces(sep, a[..m], b[..m]);
      assert a == a[..m] + [a[m]] && b == b[..m] + [b[m]];
    }
  }
}
