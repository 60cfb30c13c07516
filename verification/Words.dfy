/** Bytes and 32-bit device words. A word is kept as the four bytes a UINT32 occupies in memory,
    because the driver only ever casts between buffers and words. */
module Words {

  type byte = bv8

  datatype Word = Word(b0: byte, b1: byte, b2: byte, b3: byte)

  function Bytes(w: Word): (bs: seq<byte>)
    ensures |bs| == 4
  {
    [w.b0, w.b1, w.b2, w.b3]
  }

  // The bytes of a sequence of words, in the order the words were transferred.
  function Flatten(ws: seq<Word>): (bs: seq<byte>)
    ensures |bs| == 4 * |ws|
  {
    if ws == [] then [] else Bytes(ws[0]) + Flatten(ws[1..])
  }

  // The words that a buffer holds; the inverse of Flatten.
  function WordsOf(bs: seq<byte>): (ws: seq<Word>)
    requires |bs| % 4 == 0
    ensures 4 * |ws| == |bs|
  {
    if bs == [] then [] else [Word(bs[0], bs[1], bs[2], bs[3])] + WordsOf(bs[4..])
  }

  // How many words n bytes occupy.
  function WordCount(n: nat): nat {
    (n + 3) / 4
  }

  /** `ws` transfers exactly `data`: no more words than needed, and only the last word is padded. */
  ghost predicate Carries(ws: seq<Word>, data: seq<byte>) {
    && |ws| == WordCount(|data|)
    && data <= Flatten(ws)
  }

  /** `ws` transfers the given parts one after the other, each starting on a word of its own. */
  ghost predicate CarriesAll(ws: seq<Word>, parts: seq<seq<byte>>) {
    if parts == [] then ws == []
    else
      var n := WordCount(|parts[0]|);
      n <= |ws| && Carries(ws[..n], parts[0]) && CarriesAll(ws[n..], parts[1..])
  }

  function Concat<T>(parts: seq<seq<T>>): (all: seq<T>) {
    if parts == [] then [] else parts[0] + Concat(parts[1..])
  }

  lemma {:induction false} ConcatAppend<T>(a: seq<seq<T>>, b: seq<seq<T>>)
    ensures Concat(a + b) == Concat(a) + Concat(b)
  {
    if a == [] {
      assert a + b == b;
    } else {
      assert (a + b)[1..] == a[1..] + b;
      ConcatAppend(a[1..], b);
    }
  }

  lemma {:induction false} FlattenAppend(a: seq<Word>, b: seq<Word>)
    ensures Flatten(a + b) == Flatten(a) + Flatten(b)
  {
    if a == [] {
      assert a + b == b;
    } else {
      assert (a + b)[1..] == a[1..] + b;
      FlattenAppend(a[1..], b);
    }
  }

  lemma {:induction false} WordsRoundTrip(bs: seq<byte>)
    requires |bs| % 4 == 0
    ensures Flatten(WordsOf(bs)) == bs
  {
    if bs != [] {
      WordsRoundTrip(bs[4..]);
      assert WordsOf(bs)[1..] == WordsOf(bs[4..]);
    }
  }

  lemma {:induction false} WordsOfAppend(a: seq<byte>, b: seq<byte>)
    requires |a| % 4 == 0 && |b| % 4 == 0
    ensures WordsOf(a + b) == WordsOf(a) + WordsOf(b)
  {
    if a == [] {
      assert a + b == b;
    } else {
      assert (a + b)[4..] == a[4..] + b;
      WordsOfAppend(a[4..], b);
    }
  }

  // A padded buffer carries any unpadded prefix that needs the same number of words.
  lemma PaddedCarries(bs: seq<byte>, n: nat)
    requires n <= |bs| && |bs| == 4 * WordCount(n)
    ensures Carries(WordsOf(bs), bs[..n])
  {
    WordsRoundTrip(bs);
  }

  lemma {:induction false} CarriesAllAppend(ws: seq<Word>, parts: seq<seq<byte>>, vs: seq<Word>, more: seq<seq<byte>>)
    requires CarriesAll(ws, parts) && CarriesAll(vs, more)
    ensures CarriesAll(ws + vs, parts + more)
  {
    if parts == [] {
      assert ws + vs == vs && parts + more == more;
    } else {
      var n := WordCount(|parts[0]|);
      CarriesAllAppend(ws[n..], parts[1..], vs, more);
      assert (ws + vs)[..n] == ws[..n] && (ws + vs)[n..] == ws[n..] + vs;
      assert (parts + more)[1..] == parts[1..] + more;
    }
  }

  function TotalWords(parts: seq<seq<byte>>): nat {
    if parts == [] then 0 else WordCount(|parts[0]|) + TotalWords(parts[1..])
  }

  lemma {:induction false} CarriesAllSplit(ws: seq<Word>, parts: seq<seq<byte>>, more: seq<seq<byte>>)
    requires CarriesAll(ws, parts + more)
    ensures TotalWords(parts) <= |ws|
    ensures CarriesAll(ws[..TotalWords(parts)], parts)
    ensures CarriesAll(ws[TotalWords(parts)..], more)
  {
    if parts == [] {
      assert parts + more == more;
      assert ws[0..] == ws;
    } else {
      var n := WordCount(|parts[0]|);
      assert (parts + more)[1..] == parts[1..] + more;
      CarriesAllSplit(ws[n..], parts[1..], more);
      var k := TotalWords(parts[1..]);
      assert ws[..n + k][..n] == ws[..n];
      assert ws[..n + k][n..] == ws[n..][..k];
      assert ws[n + k..] == ws[n..][k..];
    }
  }

  lemma {:induction false} CarriesAllLength(ws: seq<Word>, parts: seq<seq<byte>>)
    requires CarriesAll(ws, parts)
    ensures |ws| == TotalWords(parts)
  {
    if parts != [] {
      CarriesAllLength(ws[WordCount(|parts[0]|)..], parts[1..]);
    }
  }

  lemma CarriesOne(ws: seq<Word>, a: seq<byte>)
    ensures CarriesAll(ws, [a]) <==> Carries(ws, a)
  {
    var n := WordCount(|a|);
    if |ws| == n {
      assert ws[..n] == ws && ws[n..] == [];
    }
  }

  lemma PrefixSplit(a: seq<byte>, b: seq<byte>, x: seq<byte>, y: seq<byte>)
    requires |a| == |x|
    ensures a + b <= x + y <==> a == x && b <= y
  {
    if a + b <= x + y {
      assert a == (a + b)[..|a|] == (x + y)[..|a|] == x;
      assert b == (a + b)[|a|..] == (x + y)[..|a + b|][|a|..] == y[..|b|];
    }
  }

  lemma WordCountSum(m: nat, n: nat)
    requires m % 4 == 0
    ensures WordCount(m + n) == WordCount(m) + WordCount(n) && m == 4 * WordCount(m)
  {
  }

  /** A part whose length is a multiple of four leaves no padding, so it and its successor travel as one. */
  lemma CarriesPair(ws: seq<Word>, a: seq<byte>, b: seq<byte>)
    requires |a| % 4 == 0
    ensures CarriesAll(ws, [a, b]) <==> Carries(ws, a + b)
  {
    hide WordCount, Flatten;
    var n := WordCount(|a|);
    WordCountSum(|a|, |b|);
    assert [a, b][1..] == [b];
    if n <= |ws| {
      var u, v := ws[..n], ws[n..];
      CarriesOne(v, b);
      assert ws == u + v;
      FlattenAppend(u, v);
      PrefixSplit(a, b, Flatten(u), Flatten(v));
      assert Carries(u, a) <==> a == Flatten(u);
    }
  }

  lemma {:induction false} CarriesMerge(ws: seq<Word>, a: seq<byte>, b: seq<byte>, rest: seq<seq<byte>>)
    requires |a| % 4 == 0
    ensures CarriesAll(ws, [a, b] + rest) <==> CarriesAll(ws, [a + b] + rest)
  {
    hide Carries, Flatten, CarriesAll, TotalWords, WordCount;
    var n := WordCount(|a + b|);
    PairWords(a, b);
    if CarriesAll(ws, [a, b] + rest) {
      CarriesAllSplit(ws, [a, b], rest);
      CarriesPair(ws[..n], a, b);
      CarriesOne(ws[..n], a + b);
      CarriesAllAppend(ws[..n], [a + b], ws[n..], rest);
      assert ws[..n] + ws[n..] == ws;
    }
    if CarriesAll(ws, [a + b] + rest) {
      CarriesAllSplit(ws, [a + b], rest);
      CarriesOne(ws[..n], a + b);
      CarriesPair(ws[..n], a, b);
      CarriesAllAppend(ws[..n], [a, b], ws[n..], rest);
      assert ws[..n] + ws[n..] == ws;
    }
  }

  lemma PairWords(a: seq<byte>, b: seq<byte>)
    requires |a| % 4 == 0
    ensures TotalWords([a + b]) == WordCount(|a + b|) == TotalWords([a, b])
  {
    WordCountSum(|a|, |b|);
    assert [a, b][1..] == [b];
    assert [b][1..] == [];
  }

  // Some words that carry the given parts.
  lemma {:induction false} SomeWords(parts: seq<seq<byte>>) returns (ws: seq<Word>)
    ensures CarriesAll(ws, parts)
  {
    if parts == [] {
      ws := [];
    } else {
      var rest := SomeWords(parts[1..]);
      var n := WordCount(|parts[0]|);
      var padded := parts[0] + seq(4 * n - |parts[0]|, _ => 0);
      PaddedCarries(padded, |parts[0]|);
      assert padded[..|parts[0]|] == parts[0];
      CarriesOne(WordsOf(padded), parts[0]);
      CarriesAllAppend(WordsOf(padded), [parts[0]], rest, parts[1..]);
      ws := WordsOf(padded) + rest;
      assert [parts[0]] + parts[1..] == parts;
    }
  }

  lemma WordsFor(bs: seq<byte>) returns (ws: seq<Word>)
    ensures Carries(ws, bs)
  {
    hide *;
    ws := SomeWords([bs]);
    CarriesOne(ws, bs);
  }
}
