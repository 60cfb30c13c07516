/** Streaming reception: no lengths are ever posted, and the ring is a byte queue. */
module RxStream {
  import opened Words
  import opened Card
  import opened Descriptors
  import D = Descriptors
  import opened RxQueue
  import opened RxFrames
  import R = RxReading

  datatype Stream = Stream(
    cur: seq<byte>,        // everything that has come over the line
    words: seq<Word>,      // the hardware FIFO
    ring: RxState,
    delivered: seq<byte>)  // everything handed to the user

  datatype Action =
    | Arrive(bs: seq<byte>, ws: seq<Word>)
    | Iterate(count: nat, now: Stamp)
    | Read(n: nat, left: seq<RxPiece>)

  // Everything taken from the hardware: read, waiting in finished descriptors, or in the unfinished one.
  function Taken(s: Stream): seq<byte> {
    s.delivered + R.StreamBytes(s.ring.ready) + s.ring.partial
  }

  ghost predicate Next(s: Stream, a: Action, s': Stream, size: nat, num: nat, idle: Word)
    requires size > 0
  {
    match a
    case Arrive(bs, ws) =>
      && Carries(ws, Whole(s.cur + bs)[|Whole(s.cur)|..])
      && s' == s.(cur := s.cur + bs, words := s.words + ws)
    // One iteration of fscc_fifo_read_data on a free descriptor, with a byte count register that shows no more
    // than what is there.
    case Iterate(count, now) =>
      && NoMoreThan(count, |s.cur| - |Taken(s)|)
      && |s.ring.partial| < size && |s.ring.ready| < num
      && var r := ReadStep(s.ring, Hw(s.words, []), count, now, size, idle);
      s' == s.(ring := r.0, words := r.1.words)
    // fscc_user_read_stream, as RxRing.UserReadStream describes it.
    case Read(n, left) =>
      var bytes := R.StreamBytes(s.ring.ready);
      && n <= |bytes| && R.AllFull(left) && R.StreamBytes(left) == bytes[n..]
      && s' == s.(ring := s.ring.(ready := left), delivered := s.delivered + bytes[..n])
  }

  ghost predicate NoMoreThan(count: nat, bytes: int) {
    exists n: nat :: ShowsCount(count, n) && (n <= 8192 ==> n <= bytes)
  }

  /** What has been taken from the hardware and what is still in it are the line's bytes, in order. */
  ghost predicate Conserved(s: Stream, size: nat) {
    && s.ring.frameSize == 0 && R.AllFull(s.ring.ready) && |s.ring.partial| < size
    && |Taken(s)| % 4 == 0 && |s.ring.partial| % 4 == 0
    && Taken(s) + Flatten(s.words) == Whole(s.cur)
  }

  lemma {:induction false} StreamBytesAppend(ready: seq<RxPiece>, p: RxPiece)
    ensures R.StreamBytes(ready + [p]) == R.StreamBytes(ready) + p.data
  {
    if ready == [] {
      assert (ready + [p])[1..] == [];
    } else {
      assert (ready + [p])[1..] == ready[1..] + [p];
      StreamBytesAppend(ready[1..], p);
    }
  }

  lemma WholeWords(ws: seq<Word>, bs: seq<byte>)
    requires Carries(ws, bs)
    ensures |bs| % 4 == 0 ==> Flatten(ws) == bs
  {
  }

  lemma ArriveConserves(s: Stream, bs: seq<byte>, ws: seq<Word>, size: nat)
    requires Conserved(s, size) && Carries(ws, Whole(s.cur + bs)[|Whole(s.cur)|..])
    ensures Conserved(s.(cur := s.cur + bs, words := s.words + ws), size)
  {
    hide Flatten, R.AllFull, R.StreamBytes, WordCount, Whole, Carries;
    var more := Whole(s.cur + bs)[|Whole(s.cur)|..];
    WholeGrows(s.cur, bs);
    WholeWords(ws, more);
    FlattenAppend(s.words, ws);
    var s' := s.(cur := s.cur + bs, words := s.words + ws);
    assert Taken(s') + (Flatten(s.words) + Flatten(ws)) == (Taken(s) + Flatten(s.words)) + Flatten(ws);
  }

  // Taking k whole words from the front of the FIFO.
  lemma TakeAligned(ws: seq<Word>, n: nat, k: nat, idle: Word)
    requires k <= |ws| && n == 4 * k
    ensures WordCount(n) == k
    ensures Flatten(ws) == Got(ws, n, idle) + Flatten(DropWords(ws, k))
  {
    hide *;
    FlattenAppend(ws[..k], ws[k..]);
    GotAligned(ws, n, k, idle);
    assert ws == ws[..k] + ws[k..];
    DropIs(ws, k);
  }

  lemma DropIs(ws: seq<Word>, k: nat)
    requires k <= |ws|
    ensures DropWords(ws, k) == ws[k..]
  {
  }

  lemma GotAligned(ws: seq<Word>, n: nat, k: nat, idle: Word)
    requires k <= |ws| && n == 4 * k
    ensures WordCount(n) == k
    ensures Got(ws, n, idle) == Flatten(ws[..k])
  {
    hide Flatten, TakeWords;
    assert WordCount(n) == k;
    var front := Flatten(ws[..k]);
    assert front[..n] == front;
  }

  lemma WantedAligned(inFrame: nat, count: nat, room: nat)
    requires room % 4 == 0
    ensures var n := Wanted(0, inFrame, count, room); n % 4 == 0 && n <= Rxcnt(count)
  {
  }

  // Without a length, an iteration only appends bytes to the ring.
  lemma IterateAppends(ring: RxState, words: seq<Word>, count: nat, now: Stamp, size: nat, idle: Word, n: nat)
    requires size > 0 && size % 4 == 0 && |ring.partial| < size && |ring.partial| % 4 == 0
    requires ring.frameSize == 0 && R.AllFull(ring.ready)
    requires n == Wanted(0, ring.inFrame, count, size - |ring.partial|)
    ensures n % 4 == 0 && n <= Rxcnt(count)
    ensures var r := ReadStep(ring, Hw(words, []), count, now, size, idle);
      && r.0.frameSize == 0 && R.AllFull(r.0.ready) && |r.0.partial| < size && |r.0.partial| % 4 == 0
      && r.1.words == DropWords(words, WordCount(n))
      && R.StreamBytes(r.0.ready) + r.0.partial == R.StreamBytes(ring.ready) + ring.partial + Got(words, n, idle)
  {
    hide Wanted, Got, DropWords, WordCount, Rxcnt, R.StreamBytes;
    WantedAligned(ring.inFrame, count, size - |ring.partial|);
    StreamBytesAppend(ring.ready, Full(ring.partial + Got(words, n, idle)));
  }

  lemma CountRead(count: nat, bytes: nat)
    requires NoMoreThan(count, bytes)
    ensures Rxcnt(count) <= bytes
  {
    hide ShowsCount, Rxcnt;
    var n: nat :| ShowsCount(count, n) && (n <= 8192 ==> n <= bytes);
    RxcntReads(count, n);
  }

  lemma IterateConserves(s: Stream, count: nat, now: Stamp, size: nat, idle: Word)
    requires size > 0 && size % 4 == 0 && Conserved(s, size)
    requires NoMoreThan(count, |s.cur| - |Taken(s)|)
    ensures var r := ReadStep(s.ring, Hw(s.words, []), count, now, size, idle);
      Conserved(s.(ring := r.0, words := r.1.words), size)
  {
    hide Wanted, Got, DropWords, WordCount, Flatten, Rxcnt, ReadStep, R.AllFull, R.StreamBytes, NoMoreThan, ShowsCount;
    var n := Wanted(0, s.ring.inFrame, count, size - |s.ring.partial|);
    CountRead(count, |s.cur| - |Taken(s)|);
    IterateAppends(s.ring, s.words, count, now, size, idle, n);
    assert |Whole(s.cur)| == |Taken(s)| + 4 * |s.words|;
    assert n <= 4 * |s.words|;
    TakeAligned(s.words, n, n / 4, idle);
    var got := Got(s.words, n, idle);
    var r := ReadStep(s.ring, Hw(s.words, []), count, now, size, idle);
    var s' := s.(ring := r.0, words := r.1.words);
    assert Taken(s') == s.delivered + (R.StreamBytes(r.0.ready) + r.0.partial) == Taken(s) + got;
    assert Taken(s') + Flatten(s'.words) == Taken(s) + (got + Flatten(s'.words));
  }

  lemma ReadConserves(s: Stream, n: nat, left: seq<RxPiece>, size: nat)
    requires Conserved(s, size)
    requires n <= |R.StreamBytes(s.ring.ready)| && R.AllFull(left)
    requires R.StreamBytes(left) == R.StreamBytes(s.ring.ready)[n..]
    ensures Conserved(s.(ring := s.ring.(ready := left),
                         delivered := s.delivered + R.StreamBytes(s.ring.ready)[..n]), size)
  {
    hide R.StreamBytes, R.AllFull, Flatten, Whole;
    var bytes := R.StreamBytes(s.ring.ready);
    assert bytes == bytes[..n] + bytes[n..];
    var s' := s.(ring := s.ring.(ready := left), delivered := s.delivered + bytes[..n]);
    assert Taken(s') == Taken(s);
  }

  lemma StepConserves(s: Stream, a: Action, s': Stream, size: nat, num: nat, idle: Word)
    requires size > 0 && size % 4 == 0 && Conserved(s, size) && Next(s, a, s', size, num, idle)
    ensures Conserved(s', size)
  {
    hide Conserved, ReadStep, Carries, R.StreamBytes, R.AllFull;
    match a
    case Arrive(bs, ws) => ArriveConserves(s, bs, ws, size);
    case Iterate(count, now) => IterateConserves(s, count, now, size, idle);
    case Read(m, left) => ReadConserves(s, m, left, size);
  }

  const START := Stream([], [], RxState([], [], 0, 0), [])

  lemma StartConserved(size: nat)
    requires size > 0
    ensures Conserved(START, size)
  {
  }

  lemma DeliveredPrefix(s: Stream, size: nat)
    requires Conserved(s, size)
    ensures s.delivered <= s.cur
  {
    hide R.AllFull, R.StreamBytes, Flatten;
    assert s.delivered <= Taken(s) <= Whole(s.cur);
  }

  ghost predicate IsRun(states: seq<Stream>, actions: seq<Action>, size: nat, num: nat, idle: Word)
    requires size > 0
  {
    && |states| == |actions| + 1
    && states[0] == START
    && forall i :: 0 <= i < |actions| ==> Next(states[i], actions[i], states[i + 1], size, num, idle)
  }

  /** Stream conservation over every run since a purge; in particular what the user has read is a prefix
      of what came over the line. */
  lemma {:induction false} StreamTheorem(states: seq<Stream>, actions: seq<Action>,
                                         size: nat, num: nat, idle: Word, n: nat)
    requires size > 0 && size % 4 == 0 && IsRun(states, actions, size, num, idle) && n < |states|
    ensures Conserved(states[n], size)
    ensures states[n].delivered <= states[n].cur
  {
    hide Conserved, Next;
    if n == 0 {
      StartConserved(size);
    } else {
      StreamTheorem(states, actions, size, num, idle, n - 1);
      StepConserves(states[n - 1], actions[n - 1], states[n], size, num, idle);
    }
    DeliveredPrefix(states[n], size);
  }

  // ---------- everything gets through ----------

  // How much an iteration takes when the register shows n bytes.
  function Share(n: nat, partial: nat, size: nat): nat
    requires partial <= size
  {
    Min(if n <= 8192 then n - n % 4 else 0, size - partial)
  }

  /** An iteration takes exactly the whole words that the register shows, as far as the descriptor has room, and
      puts them behind what the ring holds. */
  lemma IterateTakes(ring: RxState, words: seq<Word>, count: nat, now: Stamp, size: nat, idle: Word, n: nat)
    requires size > 0 && size % 4 == 0 && |ring.partial| < size && |ring.partial| % 4 == 0
    requires ring.frameSize == 0 && R.AllFull(ring.ready)
    requires ShowsCount(count, n) && Share(n, |ring.partial|, size) <= 4 * |words|
    ensures Share(n, |ring.partial|, size) % 4 == 0
    ensures var k := Share(n, |ring.partial|, size) / 4;
      var r := ReadStep(ring, Hw(words, []), count, now, size, idle);
      && r.1 == Hw(words[k..], [])
      && R.StreamBytes(r.0.ready) + r.0.partial == R.StreamBytes(ring.ready) + ring.partial + Flatten(words[..k])
      && r.0.frameSize == 0 && R.AllFull(r.0.ready) && |r.0.partial| < size && |r.0.partial| % 4 == 0
      && (if 4 * k == size - |ring.partial| then |r.0.ready| == |ring.ready| + 1 && r.0.partial == []
          else r.0.ready == ring.ready && |r.0.partial| == |ring.partial| + 4 * k)
  {
    hide ShowsCount, Wanted, Got, DropWords, WordCount, Flatten, R.StreamBytes;
    var room := size - |ring.partial|;
    WantedShown(ring.inFrame, count, room, n);
    var taken := Share(n, |ring.partial|, size);
    WantedAligned(ring.inFrame, count, room);
    IterateAppends(ring, words, count, now, size, idle, taken);
    GotAligned(words, taken, taken / 4, idle);
    DropIs(words, taken / 4);
  }

  // Nothing arrives during the pass, and each time the register shows all that is there.
  ghost predicate Still(ring: RxState, words: seq<Word>, snaps: seq<Snapshot>, size: nat, num: nat, idle: Word)
    requires |ring.partial| < size
    decreases |snaps|
  {
    snaps != [] && |ring.ready| < num ==>
      && snaps[0].events == [] && ShowsCount(snaps[0].bc, 4 * |words|)
      && var r := ReadStep(ring, Hw(words, []), snaps[0].bc, snaps[0].now, size, idle);
      Still(r.0, r.1.words, snaps[1..], size, num, idle)
  }

  /** A whole pass empties the hardware FIFO, or fills the ring. */
  lemma {:induction false} PassEmpties(ring: RxState, words: seq<Word>, snaps: seq<Snapshot>,
                                       size: nat, num: nat, idle: Word)
    requires size > 0 && size % 4 == 0 && |ring.partial| < size && |ring.partial| % 4 == 0
    requires ring.frameSize == 0 && R.AllFull(ring.ready) && 4 * |words| <= 8192
    requires |ring.ready| <= num && num - |ring.ready| <= |snaps|
    requires Still(ring, words, snaps, size, num, idle)
    ensures var r := ReadData(ring, Hw(words, []), snaps, size, num, idle);
      r.1.words == [] || |r.0.ready| == num
    decreases |snaps|
  {
    hide ShowsCount, ReadStep, R.AllFull, R.StreamBytes, Flatten;
    if snaps != [] && |ring.ready| < num {
      IterateTakes(ring, words, snaps[0].bc, snaps[0].now, size, idle, 4 * |words|);
      var r := ReadStep(ring, Hw(words, []), snaps[0].bc, snaps[0].now, size, idle);
      assert r.1 == Hw(r.1.words, []);
      if |r.0.ready| > |ring.ready| {
        PassEmpties(r.0, r.1.words, snaps[1..], size, num, idle);
      }
    }
  }

  ghost predicate Path(states: seq<Stream>, actions: seq<Action>, size: nat, num: nat, idle: Word)
    requires size > 0
  {
    && |states| == |actions| + 1
    && forall i :: 0 <= i < |actions| ==> Next(states[i], actions[i], states[i + 1], size, num, idle)
  }

  ghost predicate Reaches(s: Stream, t: Stream, size: nat, num: nat, idle: Word)
    requires size > 0
  {
    exists states, actions ::
      Path(states, actions, size, num, idle) && states[0] == s && states[|actions|] == t
  }

  lemma ReachesItself(s: Stream, size: nat, num: nat, idle: Word)
    requires size > 0
    ensures Reaches(s, s, size, num, idle)
  {
    assert Path([s], [], size, num, idle);
  }

  lemma ReachesOn(s: Stream, a: Action, s': Stream, t: Stream, size: nat, num: nat, idle: Word)
    requires size > 0 && Next(s, a, s', size, num, idle) && Reaches(s', t, size, num, idle)
    ensures Reaches(s, t, size, num, idle)
  {
    hide Next;
    var states, actions :|
      Path(states, actions, size, num, idle) && states[0] == s' && states[|actions|] == t;
    var ss, aa := [s] + states, [a] + actions;
    forall i | 0 <= i < |aa| ensures Next(ss[i], aa[i], ss[i + 1], size, num, idle) {
      if i > 0 {
        assert aa[i] == actions[i - 1] && ss[i] == states[i - 1] && ss[i + 1] == states[i];
      }
    }
    assert Path(ss, aa, size, num, idle) && ss[0] == s && ss[|aa|] == t;
  }

  // Everything in finished descriptors, read at once.
  function ReadAll(s: Stream): Stream {
    s.(ring := s.ring.(ready := []), delivered := s.delivered + R.StreamBytes(s.ring.ready))
  }

  lemma ReadAllIsStep(s: Stream, size: nat, num: nat, idle: Word)
    requires size > 0
    ensures Next(s, Read(|R.StreamBytes(s.ring.ready)|, []), ReadAll(s), size, num, idle)
  {
    var bytes := R.StreamBytes(s.ring.ready);
    assert bytes[..|bytes|] == bytes && R.StreamBytes([]) == bytes[|bytes|..];
  }

  // As much of the hardware FIFO as the register can show.
  function Visible(s: Stream): nat {
    Min(4 * |s.words|, 8192)
  }

  lemma IterateIsStep(s: Stream, size: nat, num: nat, idle: Word)
    requires size > 0 && size % 4 == 0 && num > 0 && Conserved(s, size) && s.ring.ready == [] && s.words != []
    ensures var r := ReadStep(s.ring, Hw(s.words, []), Visible(s), D.NO_STAMP, size, idle);
      && Next(s, Iterate(Visible(s), D.NO_STAMP), s.(ring := r.0, words := r.1.words), size, num, idle)
      && |r.1.words| < |s.words|
      && (4 * |s.words| == size - |s.ring.partial| ==>
            || (r.1.words == [] && r.0.partial == [])
            || (r.1.words != [] && r.0.ready == [] && 4 * |r.1.words| == size - |r.0.partial|))
  {
    hide ShowsCount, ReadStep, Flatten, R.StreamBytes;
    var n := Visible(s);
    CountShown(n);
    assert |s.cur| - |Taken(s)| >= 4 * |s.words|;
    IterateTakes(s.ring, s.words, n, D.NO_STAMP, size, idle, n);
  }

  /** With nothing more arriving, reads and iterations hand out every whole word that has come, but for less than
      one descriptor's worth. */
  lemma {:induction false} Drains(s: Stream, size: nat, num: nat, idle: Word) returns (t: Stream)
    requires size > 0 && size % 4 == 0 && num > 0 && Conserved(s, size)
    ensures Reaches(s, t, size, num, idle) && Conserved(t, size)
    ensures t.cur == s.cur && t.words == [] && t.ring.ready == []
    ensures t.delivered + t.ring.partial == Whole(s.cur) && |t.ring.partial| < size
    decreases |s.words|
  {
    hide Next, Reaches, Conserved, ReadStep;
    var read := ReadAll(s);
    ReadAllIsStep(s, size, num, idle);
    StepConserves(s, Read(|R.StreamBytes(s.ring.ready)|, []), read, size, num, idle);
    if s.words == [] {
      t := read;
      ReachesItself(t, size, num, idle);
      AllTaken(t, size);
    } else {
      PartialFits(read, size);
      IterateIsStep(read, size, num, idle);
      var a := Iterate(Visible(read), D.NO_STAMP);
      var r := ReadStep(read.ring, Hw(read.words, []), Visible(read), D.NO_STAMP, size, idle);
      var next := read.(ring := r.0, words := r.1.words);
      StepConserves(read, a, next, size, num, idle);
      t := Drains(next, size, num, idle);
      ReachesOn(read, a, next, t, size, num, idle);
    }
    ReachesOn(s, Read(|R.StreamBytes(s.ring.ready)|, []), read, t, size, num, idle);
  }

  lemma AllTaken(s: Stream, size: nat)
    requires Conserved(s, size) && s.words == [] && s.ring.ready == []
    ensures s.delivered + s.ring.partial == Whole(s.cur) && |s.ring.partial| < size
  {
    assert s.delivered + [] + s.ring.partial == s.delivered + s.ring.partial;
    assert Taken(s) + [] == Taken(s);
  }

  lemma PartialFits(s: Stream, size: nat)
    requires Conserved(s, size)
    ensures |s.ring.partial| < size && |Taken(s)| <= |s.cur|
    ensures |s.ring.partial| % 4 == 0 && Taken(s) + Flatten(s.words) == Whole(s.cur)
  {
  }

  // When what is in the hardware just fills the descriptor, iterations fill it.
  lemma {:induction false} FillsUp(s: Stream, size: nat, num: nat, idle: Word) returns (t: Stream)
    requires size > 0 && size % 4 == 0 && num > 0 && Conserved(s, size)
    requires s.ring.ready == [] && s.words != [] && 4 * |s.words| == size - |s.ring.partial|
    ensures Reaches(s, t, size, num, idle) && Conserved(t, size)
    ensures t.cur == s.cur && t.words == [] && t.ring.partial == []
    decreases |s.words|
  {
    hide Next, Reaches, Conserved, ReadStep;
    PartialFits(s, size);
    IterateIsStep(s, size, num, idle);
    var a := Iterate(Visible(s), D.NO_STAMP);
    var r := ReadStep(s.ring, Hw(s.words, []), Visible(s), D.NO_STAMP, size, idle);
    var next := s.(ring := r.0, words := r.1.words);
    StepConserves(s, a, next, size, num, idle);
    if next.words == [] {
      t := next;
      ReachesItself(t, size, num, idle);
    } else {
      t := FillsUp(next, size, num, idle);
    }
    ReachesOn(s, a, next, t, size, num, idle);
  }

  lemma WholeLater(cur: seq<byte>, bs: seq<byte>)
    requires |bs| % 4 == 0
    ensures Whole(cur) <= Whole(cur + bs) && |Whole(cur + bs)| == |Whole(cur)| + |bs|
  {
    hide Whole;
    WholeGrows(cur, bs);
    WholeLength(cur);
    WholeLength(cur + bs);
    SameRest(|cur|, |bs| / 4);
  }

  lemma SameRest(n: nat, k: nat)
    ensures (n + 4 * k) % 4 == n % 4
  {
  }

  // Bytes that fill up the unfinished descriptor come over the line, are received and are read.
  lemma CompletesLast(s: Stream, size: nat, num: nat, idle: Word) returns (t: Stream)
    requires size > 0 && size % 4 == 0 && num > 0 && Conserved(s, size)
    requires s.words == [] && s.ring.ready == [] && s.ring.partial != []
    ensures Reaches(s, t, size, num, idle) && Whole(s.cur) <= t.delivered
  {
    hide Next, Reaches, Conserved, Whole, Carries, R.StreamBytes;
    PartialFits(s, size);
    var bs: seq<byte> := seq(size - |s.ring.partial|, _ => 0);
    WholeLater(s.cur, bs);
    var more := Whole(s.cur + bs)[|Whole(s.cur)|..];
    var ws := WordsFor(more);
    WordsOfLength(ws, more);
    var next := s.(cur := s.cur + bs, words := s.words + ws);
    ArriveIsStep(s, bs, ws, size, num, idle);
    StepConserves(s, Arrive(bs, ws), next, size, num, idle);
    var full := FillsUp(next, size, num, idle);
    t := ReadAll(full);
    ReadAllIsStep(full, size, num, idle);
    StepConserves(full, Read(|R.StreamBytes(full.ring.ready)|, []), t, size, num, idle);
    AllTaken(t, size);
    ReachesItself(t, size, num, idle);
    ReachesOn(full, Read(|R.StreamBytes(full.ring.ready)|, []), t, t, size, num, idle);
    ReachesTransitive(next, full, t, size, num, idle);
    ReachesOn(s, Arrive(bs, ws), next, t, size, num, idle);
    assert t.delivered + [] == t.delivered;
  }

  lemma WordsOfLength(ws: seq<Word>, bs: seq<byte>)
    requires Carries(ws, bs)
    ensures |ws| == WordCount(|bs|)
  {
  }

  lemma ArriveIsStep(s: Stream, bs: seq<byte>, ws: seq<Word>, size: nat, num: nat, idle: Word)
    requires size > 0 && Whole(s.cur) <= Whole(s.cur + bs)
    requires Carries(ws, Whole(s.cur + bs)[|Whole(s.cur)|..])
    ensures Next(s, Arrive(bs, ws), s.(cur := s.cur + bs, words := s.words + ws), size, num, idle)
  {
  }

  lemma {:induction false} ReachesFurther(states: seq<Stream>, actions: seq<Action>, n: nat, u: Stream,
                                          size: nat, num: nat, idle: Word)
    requires size > 0 && Path(states, actions, size, num, idle) && n <= |actions|
    requires Reaches(states[|actions|], u, size, num, idle)
    ensures Reaches(states[n], u, size, num, idle)
    decreases |actions| - n
  {
    hide Next, Reaches;
    if n < |actions| {
      ReachesFurther(states, actions, n + 1, u, size, num, idle);
      ReachesOn(states[n], actions[n], states[n + 1], u, size, num, idle);
    }
  }

  lemma ReachesTransitive(s: Stream, t: Stream, u: Stream, size: nat, num: nat, idle: Word)
    requires size > 0 && Reaches(s, t, size, num, idle) && Reaches(t, u, size, num, idle)
    ensures Reaches(s, u, size, num, idle)
  {
    hide Next;
    var states, actions :|
      Path(states, actions, size, num, idle) && states[0] == s && states[|actions|] == t;
    ReachesFurther(states, actions, 0, u, size, num, idle);
  }

  /** From any state, some continuation hands out every whole word that has come over the line. */
  lemma DeliversAll(s: Stream, size: nat, num: nat, idle: Word) returns (t: Stream)
    requires size > 0 && size % 4 == 0 && num > 0 && Conserved(s, size)
    ensures Reaches(s, t, size, num, idle) && Whole(s.cur) <= t.delivered
  {
    hide Reaches, Conserved, Whole;
    var drained := Drains(s, size, num, idle);
    if drained.ring.partial == [] {
      t := drained;
      assert t.delivered + [] == t.delivered;
    } else {
      t := CompletesLast(drained, size, num, idle);
      ReachesTransitive(s, drained, t, size, num, idle);
    }
  }
}
