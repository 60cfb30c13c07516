/** The word-at-a-time transfers between driver buffers and a card's data FIFO register. */
module Card {
  import opened Words

  /** The first `n` words of a FIFO; a FIFO read while empty yields `idle`. */
  function TakeWords(ws: seq<Word>, n: nat, idle: Word): (taken: seq<Word>)
    ensures |taken| == n
    ensures n <= |ws| ==> taken == ws[..n]
  {
    if n <= |ws| then ws[..n] else ws + seq(n - |ws|, _ => idle)
  }

  function DropWords(ws: seq<Word>, n: nat): (left: seq<Word>) {
    if n <= |ws| then ws[n..] else []
  }

  lemma TakeDropStep(ws: seq<Word>, n: nat, idle: Word)
    ensures TakeWords(ws, n + 1, idle) == TakeWords(ws, n, idle) + TakeWords(DropWords(ws, n), 1, idle)
    ensures DropWords(ws, n + 1) == DropWords(DropWords(ws, n), 1)
  {
  }

  /** One direction of a port's hardware FIFO: data words behind the FIFO register, frame lengths behind
      the BC_FIFO_L register. A write appends, a read removes. */
  class HardwareFifo {
    var words: seq<Word>
    var lengths: seq<nat>
    const idle: Word

    constructor (idle: Word)
      ensures words == [] && lengths == [] && this.idle == idle
    {
      words, lengths := [], [];
      this.idle := idle;
    }

    method Write(w: Word)
      modifies this`words
      ensures words == old(words) + [w]
    {
      words := words + [w];
    }

    method Read() returns (w: Word)
      modifies this`words
      ensures [w] == TakeWords(old(words), 1, idle)
      ensures words == DropWords(old(words), 1)
    {
      if words == [] {
        w := idle;
      } else {
        w, words := words[0], words[1..];
      }
    }

    /** Pushes `byteCount` bytes of `data`. The last word is loaded whole even when only part of it
        counts, so the buffer has to extend to the next multiple of four. */
    method SetRep(data: seq<byte>, byteCount: nat)
      requires 4 * WordCount(byteCount) <= |data|
      modifies this`words
      ensures words == old(words) + WordsOf(data[..4 * WordCount(byteCount)])
    {
      hide WordsOf, CharsToWord, WordCount;
      WordsAndLeftover(byteCount);
      var leftover := byteCount % 4;
      var chunks := (byteCount - leftover) / 4;
      var i := 0;
      while i < chunks
        invariant 0 <= i <= chunks
        invariant words == old(words) + WordsOf(data[..4 * i])
      {
        NextWord(data, 4 * i);
        Write(CharsToWord(data, 4 * i));
        i := i + 1;
      }
      if leftover != 0 {
        NextWord(data, 4 * i);
        Write(CharsToWord(data, byteCount - leftover));
      }
    }

    /** Pulls `byteCount` bytes. A partial last word is read whole and its tail discarded. */
    method GetRep(byteCount: nat) returns (buf: seq<byte>)
      modifies this`words
      ensures words == DropWords(old(words), WordCount(byteCount))
      ensures buf == Flatten(TakeWords(old(words), WordCount(byteCount), idle))[..byteCount]
    {
      hide Flatten, WordCount, TakeWords;
      WordsAndLeftover(byteCount);
      var leftover := byteCount % 4;
      var chunks := (byteCount - leftover) / 4;
      ghost var was := words;
      buf := [];
      TakeNothing(was, idle);
      var i := 0;
      while i < chunks
        invariant 0 <= i <= chunks
        invariant words == DropWords(was, i)
        invariant buf == Flatten(TakeWords(was, i, idle))
      {
        TakeDropStep(was, i, idle);
        var value := Read();
        FlattenOne(TakeWords(was, i, idle), value);
        buf := buf + Bytes(value);
        i := i + 1;
      }
      ghost var whole := buf;
      if leftover != 0 {
        TakeDropStep(was, i, idle);
        var incoming := Read();
        FlattenOne(TakeWords(was, i, idle), incoming);
        whole := buf + Bytes(incoming);
        buf := buf + Bytes(incoming)[..leftover];
      }
      assert buf == whole[..byteCount];
    }
  }

  // A transfer is its whole words and possibly one more.
  lemma WordsAndLeftover(n: nat)
    ensures (n - n % 4) / 4 * 4 + n % 4 == n
    ensures WordCount(n) == (n - n % 4) / 4 + if n % 4 != 0 then 1 else 0
  {
  }

  lemma NextWord(data: seq<byte>, at: nat)
    requires at % 4 == 0 && at + 4 <= |data|
    ensures WordsOf(data[..at + 4]) == WordsOf(data[..at]) + [CharsToWord(data, at)]
  {
    WordsOfAppend(data[..at], data[at..at + 4]);
    assert data[..at] + data[at..at + 4] == data[..at + 4];
  }

  lemma TakeNothing(ws: seq<Word>, idle: Word)
    ensures DropWords(ws, 0) == ws && Flatten(TakeWords(ws, 0, idle)) == []
  {
  }

  lemma FlattenOne(ws: seq<Word>, w: Word)
    ensures Flatten(ws + [w]) == Flatten(ws) + Bytes(w)
  {
    FlattenAppend(ws, [w]);
  }

  // The four bytes at `at`, loaded as one word.
  function CharsToWord(data: seq<byte>, at: nat): (w: Word)
    requires at + 4 <= |data|
    ensures [w] == WordsOf(data[at..at + 4])
  {
    Word(data[at], data[at + 1], data[at + 2], data[at + 3])
  }

  /** What SetRep pushes, GetRep gives back, through a FIFO that holds anything else behind it. */
  lemma TransferRoundTrip(data: seq<byte>, n: nat, behind: seq<Word>, idle: Word)
    requires 4 * WordCount(n) <= |data|
    ensures var ws := WordsOf(data[..4 * WordCount(n)]) + behind;
      && Flatten(TakeWords(ws, WordCount(n), idle))[..n] == data[..n]
      && DropWords(ws, WordCount(n)) == behind
  {
    var image := data[..4 * WordCount(n)];
    WordsRoundTrip(image);
    assert (WordsOf(image) + behind)[..WordCount(n)] == WordsOf(image);
    assert image[..n] == data[..n];
  }
}
