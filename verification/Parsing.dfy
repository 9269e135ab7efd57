/** Readers for the two building blocks of every byte format here: integers and length-prefixed fields.

  A reader takes the bytes that are left and gives the value together with the bytes after it. Each
  `...Exact` lemma says in both directions what a reader accepts: it returns `(x, rest)` if and only if
  its input is the encoding of `x` followed by `rest`.
*/
module Parsing {
  import opened Bytes

  datatype Option<+T> = None | Some(value: T) {
    predicate IsFailure() { None? }
    function PropagateFailure<U>(): Option<U>
      requires None?
    {
      None
    }
    function Extract(): T
      requires Some?
    {
      value
    }
  }

  type Reading<+T> = Option<(T, seq<byte>)>

  function ReadBig(w: nat, s: seq<byte>): (r: Reading<nat>)
    ensures r.Some? ==> r.value.0 < Pow256(w)
  {
    if |s| < w then None else
      ValueBound(s[..w]);
      Some((Value(s[..w]), s[w..]))
  }

  lemma ReadBigExact(w: nat, s: seq<byte>, n: nat, rest: seq<byte>)
    ensures ReadBig(w, s) == Some((n, rest)) <==> n < Pow256(w) && s == Big(n, w) + rest
  {
    if |s| >= w {
      ValueRoundTrip(s[..w]);
      assert s == s[..w] + s[w..];
    }
    if n < Pow256(w) && s == Big(n, w) + rest {
      BigRoundTrip(n, w);
      assert s[..w] == Big(n, w) && s[w..] == rest;
    }
  }

  function ReadBytes(n: nat, s: seq<byte>): Reading<seq<byte>>
  {
    if |s| < n then None else Some((s[..n], s[n..]))
  }

  lemma ReadBytesExact(n: nat, s: seq<byte>, f: seq<byte>, rest: seq<byte>)
    ensures ReadBytes(n, s) == Some((f, rest)) <==> |f| == n && s == f + rest
  {
    if |s| >= n {
      assert s == s[..n] + s[n..];
    }
    if |f| == n && s == f + rest {
      assert s[..n] == f && s[n..] == rest;
    }
  }

  /** A byte string behind its own length written in `w` bytes. */
  function Field(w: nat, f: seq<byte>): seq<byte>
  {
    Big(|f|, w) + f
  }

  function ReadField(w: nat, s: seq<byte>): Reading<seq<byte>>
  {
    var (n, s1) :- ReadBig(w, s);
    ReadBytes(n, s1)
  }

  lemma ReadFieldExact(w: nat, s: seq<byte>, f: seq<byte>, rest: seq<byte>)
    ensures ReadField(w, s) == Some((f, rest)) <==> |f| < Pow256(w) && s == Field(w, f) + rest
  {
    assert Field(w, f) + rest == Big(|f|, w) + (f + rest);
    if ReadField(w, s) == Some((f, rest)) {
      var (n, s1) := ReadBig(w, s).value;
      ReadBigExact(w, s, n, s1);
      ReadBytesExact(n, s1, f, rest);
    }
    if |f| < Pow256(w) && s == Field(w, f) + rest {
      ReadBigExact(w, s, |f|, f + rest);
      ReadBytesExact(|f|, f + rest, f, rest);
    }
  }

  // ---------------------------------------------------------------- counted lists

  /** `read` undoes `encode` on the values that fit, and accepts nothing else. */
  ghost predicate Faithful<T(!new)>(read: seq<byte> -> Reading<T>, encode: T -> seq<byte>, fits: T -> bool)
  {
    && (forall s :: read(s).Some? ==> fits(read(s).value.0) && s == encode(read(s).value.0) + read(s).value.1)
    && (forall x, rest :: fits(x) ==> read(encode(x) + rest) == Some((x, rest)))
  }

  function EncodeAll<T>(encode: T -> seq<byte>, xs: seq<T>): seq<byte>
  {
    if xs == [] then [] else encode(xs[0]) + EncodeAll(encode, xs[1..])
  }

  predicate AllFit<T>(fits: T -> bool, xs: seq<T>)
  {
    forall i :: 0 <= i < |xs| ==> fits(xs[i])
  }

  function ReadAll<T>(read: seq<byte> -> Reading<T>, n: nat, s: seq<byte>): Reading<seq<T>>
  {
    if n == 0 then Some(([], s)) else
      var (x, s1) :- read(s);
      var (xs, s2) :- ReadAll(read, n - 1, s1);
      Some(([x] + xs, s2))
  }

  lemma EncodeAllCons<T>(encode: T -> seq<byte>, x: T, xs: seq<T>, rest: seq<byte>)
    ensures EncodeAll(encode, [x] + xs) + rest == encode(x) + (EncodeAll(encode, xs) + rest)
  {
    assert ([x] + xs)[1..] == xs;
  }

  lemma {:induction false} EncodeAllSplit<T>(encode: T -> seq<byte>, xs: seq<T>, i: nat)
    requires i <= |xs|
    ensures EncodeAll(encode, xs) == EncodeAll(encode, xs[..i]) + EncodeAll(encode, xs[i..])
  {
    if i == 0 {
      assert xs[i..] == xs;
    } else {
      EncodeAllSplit(encode, xs[1..], i - 1);
      assert xs[1..][..i - 1] == xs[..i][1..] && xs[1..][i - 1..] == xs[i..];
    }
  }

  /** Encoding one more item appends its bytes. */
  lemma EncodeAllNext<T>(encode: T -> seq<byte>, xs: seq<T>, i: nat)
    requires i < |xs|
    ensures EncodeAll(encode, xs[..i + 1]) == EncodeAll(encode, xs[..i]) + encode(xs[i])
    ensures |EncodeAll(encode, xs[..i + 1])| <= |EncodeAll(encode, xs)|
  {
    EncodeAllSplit(encode, xs, i + 1);
    EncodeAllSplit(encode, xs[..i + 1], i);
    assert xs[..i + 1][..i] == xs[..i] && xs[..i + 1][i..] == [xs[i]];
    assert EncodeAll(encode, [xs[i]]) == encode(xs[i]) + [];
  }

  lemma {:induction false} ReadAllSound<T(!new)>(
    read: seq<byte> -> Reading<T>, encode: T -> seq<byte>, fits: T -> bool, n: nat, s: seq<byte>)
    requires Faithful(read, encode, fits)
    requires ReadAll(read, n, s).Some?
    ensures var (xs, rest) := ReadAll(read, n, s).value;
            |xs| == n && AllFit(fits, xs) && s == EncodeAll(encode, xs) + rest
  {
    if n > 0 {
      var (x, s1) := read(s).value;
      var (xs, rest) := ReadAll(read, n - 1, s1).value;
      ReadAllSound(read, encode, fits, n - 1, s1);
      EncodeAllCons(encode, x, xs, rest);
    }
  }

  lemma {:induction false} ReadAllComplete<T(!new)>(
    read: seq<byte> -> Reading<T>, encode: T -> seq<byte>, fits: T -> bool, xs: seq<T>, rest: seq<byte>)
    requires Faithful(read, encode, fits)
    requires AllFit(fits, xs)
    ensures ReadAll(read, |xs|, EncodeAll(encode, xs) + rest) == Some((xs, rest))
  {
    if xs == [] {
      assert EncodeAll(encode, xs) + rest == rest;
    } else {
      assert xs == [xs[0]] + xs[1..];
      EncodeAllCons(encode, xs[0], xs[1..], rest);
      ReadAllComplete(read, encode, fits, xs[1..], rest);
    }
  }

  /** A list behind its own length written in four bytes. */
  function EncodeList<T>(encode: T -> seq<byte>, xs: seq<T>): seq<byte>
  {
    Big(|xs|, 4) + EncodeAll(encode, xs)
  }

  function ReadList<T>(read: seq<byte> -> Reading<T>, s: seq<byte>): Reading<seq<T>>
  {
    var (n, s1) :- ReadBig(4, s);
    ReadAll(read, n, s1)
  }

  /** A list reader accepts exactly the encodings of lists whose length fits its prefix and whose items fit. */
  lemma ReadListExact<T(!new)>(
    read: seq<byte> -> Reading<T>, encode: T -> seq<byte>, fits: T -> bool,
    s: seq<byte>, xs: seq<T>, rest: seq<byte>)
    requires Faithful(read, encode, fits)
    ensures ReadList(read, s) == Some((xs, rest))
       <==> |xs| < Pow256(4) && AllFit(fits, xs) && s == EncodeList(encode, xs) + rest
  {
    assert EncodeList(encode, xs) + rest == Big(|xs|, 4) + (EncodeAll(encode, xs) + rest);
    if ReadList(read, s) == Some((xs, rest)) {
      var (n, s1) := ReadBig(4, s).value;
      ReadBigExact(4, s, n, s1);
      ReadAllSound(read, encode, fits, n, s1);
    }
    if |xs| < Pow256(4) && AllFit(fits, xs) && s == EncodeList(encode, xs) + rest {
      ReadBigExact(4, s, |xs|, EncodeAll(encode, xs) + rest);
      ReadAllComplete(read, encode, fits, xs, rest);
    }
  }

  /** Where each item of a list stands: behind its count and the items before it. */
  lemma ListLayout<T>(encode: T -> seq<byte>, xs: seq<T>, i: nat)
    requires i < |xs| < TWO32
    ensures var b := EncodeList(encode, xs);
            var at := 4 + |EncodeAll(encode, xs[..i])|;
            && |b| == 4 + |EncodeAll(encode, xs)| && Value(b[..4]) == |xs|
            && at + |encode(xs[i])| <= |b| && b[at..at + |encode(xs[i])|] == encode(xs[i])
            && |EncodeAll(encode, xs[..i + 1])| == |EncodeAll(encode, xs[..i])| + |encode(xs[i])|
  {
    hide Big, Value, Pow256, EncodeAll;
    var b := EncodeList(encode, xs);
    Pow256Widths();
    BigRoundTrip(|xs|, 4);
    assert b[..4] == Big(|xs|, 4);
    EncodeAllNext(encode, xs, i);
    EncodeAllSplit(encode, xs, i + 1);
    var before, item, after := EncodeAll(encode, xs[..i]), encode(xs[i]), EncodeAll(encode, xs[i + 1..]);
    assert b == (Big(|xs|, 4) + before) + item + after;
  }
}
