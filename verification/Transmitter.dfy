/** From accepted writes to frames on the line: the transmit ring, the hardware FIFO behind it and the
    transmitter that empties it, one atomic step at a time. The ring's steps are the functions that the
    TxRing class is proved against. */
module Transmitter {
  import opened Words
  import opened Descriptors
  import opened TxQueue

  datatype Tx = Tx(
    pending: seq<byte>,         // a frame whose space check has passed, or nothing
    accepted: seq<seq<byte>>,   // frames whose write has returned, less those a purge has dropped
    queue: seq<TxPiece>,        // the transmit ring
    words: seq<Word>,           // the hardware FIFO
    lengths: seq<nat>,
    shift: seq<Word>,           // words of the frame now being sent
    sent: seq<seq<byte>>)       // frames sent completely

  // fscc_user_get_tx_space reports room for the frame. That control words can count it is up to the user.
  predicate CanCheck(t: Tx, num: nat, size: nat, frame: seq<byte>) {
    && t.pending == [] && frame != [] && Countable(frame)
    && |t.queue| <= num && |frame| <= (num - |t.queue|) * size
  }

  function Check(t: Tx, frame: seq<byte>): Tx {
    t.(pending := frame)
  }

  predicate CanWrite(t: Tx, num: nat) {
    t.pending != [] && |t.queue| <= num
  }

  // fscc_user_write_frame; the write reports success and the user counts the frame as accepted.
  function Write(t: Tx, num: nat, size: nat): Tx
    requires size > 0 && CanWrite(t, num)
  {
    t.(pending := [], accepted := t.accepted + [t.pending], queue := t.queue + Queued(t.pending, size, num - |t.queue|))
  }

  ghost predicate FramesShown(t: Tx, fc: nat) {
    exists frames :: |t.lengths| <= frames && ShowsFrames(fc, frames)
  }

  ghost predicate BytesShown(t: Tx, bc: nat) {
    exists bytes :: 4 * |t.words| <= bytes && ShowsBytes(bc, bytes)
  }

  // fscc_fifo_write_data. The registers are read before the pass, so the transmitter can only have
  // drained the FIFO since; `ws` are the words that carry the descriptors moved, whatever the padding.
  ghost predicate CanPass(t: Tx, fc: nat, bc: nat, ws: seq<Word>) {
    && FramesShown(t, fc) && BytesShown(t, bc)
    && CarriesAll(ws, Datas(t.queue[..FillCount(t.queue, fc, bc)]))
  }

  function Pass(t: Tx, fc: nat, bc: nat, ws: seq<Word>): Tx {
    var k := FillCount(t.queue, fc, bc);
    t.(queue := t.queue[k..], words := t.words + ws, lengths := t.lengths + Lengths(t.queue[..k]))
  }

  predicate CanSend(t: Tx) {
    t.lengths != [] && t.words != []
  }

  // The transmitter takes one word; with the last of a frame, the frame is on the line.
  function Send(t: Tx): Tx
    requires CanSend(t)
  {
    var shift := t.shift + [t.words[0]];
    var n := t.lengths[0];
    if |shift| == WordCount(n) then
      t.(words := t.words[1..], lengths := t.lengths[1..], shift := [], sent := t.sent + [Flatten(shift)[..n]])
    else
      t.(words := t.words[1..], shift := shift)
  }

  // fscc_io_purge_tx while no frame is half sent: what has not been sent is dropped.
  function PurgeTx(t: Tx): Tx {
    t.(accepted := t.sent, queue := [], words := [], lengths := [], shift := [])
  }

  // The accepted frames from the i-th up to the j-th, all of them sent, are written off.
  function Forget(t: Tx, i: nat, j: nat): Tx
    requires i <= j <= |t.sent| && j <= |t.accepted|
  {
    t.(accepted := t.accepted[..i] + t.accepted[j..], sent := t.sent[..i] + t.sent[j..])
  }

  // ---------- the invariant ----------

  predicate AllCountable(frames: seq<seq<byte>>) {
    forall i :: 0 <= i < |frames| ==> Countable(frames[i])
  }

  predicate AllSendable(frames: seq<seq<byte>>, size: nat) {
    forall i :: 0 <= i < |frames| ==> Sendable(frames[i], size)
  }

  // Frames accepted and not yet sent completely.
  function Outstanding(t: Tx): seq<seq<byte>> {
    if |t.sent| <= |t.accepted| then t.accepted[|t.sent|..] else []
  }

  // The descriptors already pushed are all of the outstanding frames' but the ones still queued.
  ghost predicate PushedIs(t: Tx, size: nat, pushed: seq<TxPiece>) {
    && size > 0 && NonEmpty(Outstanding(t)) && AllSmall(pushed)
    && SplitAll(Outstanding(t), size) == pushed + t.queue
    && CarriesAll(t.shift + t.words, Datas(pushed))
    && t.lengths == Lengths(pushed)
  }

  ghost predicate SendOk(t: Tx, size: nat) {
    && NonEmpty(t.accepted)
    && t.sent <= t.accepted && AllSendable(t.sent, size) && AllCountable(t.accepted)
    && (exists pushed :: PushedIs(t, size, pushed))
    && (t.lengths == [] ==> t.shift == [])
    && (t.lengths != [] ==> |t.shift| < WordCount(t.lengths[0]))
  }

  ghost predicate RoomOk(t: Tx, num: nat, size: nat) {
    && |t.queue| <= num
    && |t.pending| <= (num - |t.queue|) * size && Countable(t.pending)
    && 4 * |t.words| <= TX_FIFO_SIZE - 1
    && |t.lengths| <= 255
  }

  /** Everything accepted is sent, being sent, in the hardware FIFO or in the ring, in that order, byte
      for byte; only frames without oversize descriptors get as far as being sent; a checked frame still has
      room; and the hardware FIFO is never overfilled. */
  ghost predicate TxOk(t: Tx, num: nat, size: nat) {
    size > 0 && size % 4 == 0 && SendOk(t, size) && RoomOk(t, num, size)
  }

  const START := Tx([], [], [], [], [], [], [])

  lemma StartOk(num: nat, size: nat)
    requires size > 0 && size % 4 == 0
    ensures TxOk(START, num, size)
  {
    hide PushedIs, WordCount;
    NothingPushed(START, size);
  }

  lemma CheckOk(t: Tx, num: nat, size: nat, frame: seq<byte>)
    requires TxOk(t, num, size) && CanCheck(t, num, size, frame)
    ensures TxOk(Check(t, frame), num, size)
  {
    var pushed :| PushedIs(t, size, pushed);
    assert PushedIs(Check(t, frame), size, pushed);
  }

  lemma PurgeTxOk(t: Tx, num: nat, size: nat)
    requires TxOk(t, num, size)
    ensures TxOk(PurgeTx(t), num, size)
  {
    hide PushedIs, WordCount;
    MoreRoom(num - |t.queue|, num, size);
    NothingPushed(PurgeTx(t), size);
  }

  lemma NothingPushed(t: Tx, size: nat)
    requires size > 0 && t.sent == t.accepted && t.queue == [] && t.words == [] && t.shift == [] && t.lengths == []
    ensures PushedIs(t, size, [])
  {
    assert Outstanding(t) == [];
  }

  lemma ForgetSent(accepted: seq<seq<byte>>, sent: seq<seq<byte>>, size: nat, i: nat, j: nat)
    requires NonEmpty(accepted) && sent <= accepted && i <= j <= |sent|
    requires AllCountable(accepted) && AllSendable(sent, size)
    ensures var a, s := accepted[..i] + accepted[j..], sent[..i] + sent[j..];
      && NonEmpty(a) && s <= a && a[|s|..] == accepted[|sent|..]
      && AllCountable(a) && AllSendable(s, size)
  {
    hide Countable, Sendable;
  }

  lemma ForgetOk(t: Tx, num: nat, size: nat, i: nat, j: nat)
    requires TxOk(t, num, size) && i <= j <= |t.sent|
    ensures TxOk(Forget(t, i, j), num, size)
  {
    hide RoomOk, SplitAll, CarriesAll, Datas, Lengths, WordCount, NonEmpty, AllCountable, AllSendable, AllSmall;
    var t' := Forget(t, i, j);
    SameRoom(t, t', num, size);
    ForgetSent(t.accepted, t.sent, size, i, j);
    var pushed :| PushedIs(t, size, pushed);
    assert Outstanding(t') == Outstanding(t);
    assert PushedIs(t', size, pushed);
  }

  lemma SameRoom(t: Tx, t': Tx, num: nat, size: nat)
    requires RoomOk(t, num, size)
    requires t'.queue == t.queue && t'.pending == t.pending && t'.words == t.words && t'.lengths == t.lengths
    ensures RoomOk(t', num, size)
  {
  }

  lemma MoreRoom(a: nat, b: nat, size: nat)
    requires a <= b
    ensures a * size <= b * size
  {
  }

  /** A checked frame is queued whole. */
  lemma CheckedIsWhole(t: Tx, num: nat, size: nat)
    requires size > 0 && RoomOk(t, num, size) && t.pending != []
    ensures Queued(t.pending, size, num - |t.queue|) == Split(t.pending, size)
    ensures |t.queue| + |Split(t.pending, size)| <= num
  {
    QueuedWhole(t.pending, size, num - |t.queue|);
    SplitCount(t.pending, size, num - |t.queue|);
  }

  lemma WriteRoom(t: Tx, num: nat, size: nat)
    requires size > 0 && RoomOk(t, num, size) && CanWrite(t, num)
    ensures RoomOk(Write(t, num, size), num, size)
    ensures Write(t, num, size).queue == t.queue + Split(t.pending, size)
  {
    CheckedIsWhole(t, num, size);
    hide Split, Queued;
    MoreRoom(0, num - |Write(t, num, size).queue|, size);
  }

  lemma PendingCountable(t: Tx, num: nat, size: nat)
    requires RoomOk(t, num, size)
    ensures Countable(t.pending)
  {
  }

  lemma WriteOk(t: Tx, num: nat, size: nat)
    requires TxOk(t, num, size) && CanWrite(t, num)
    ensures TxOk(Write(t, num, size), num, size)
  {
    hide Split, SplitAll, CarriesAll, Lengths, Datas, Queued, RoomOk;
    var t' := Write(t, num, size);
    PendingCountable(t, num, size);
    WriteRoom(t, num, size);
    var pushed :| PushedIs(t, size, pushed);
    WriteSplits(t, size);
    assert Outstanding(t') == Outstanding(t) + [t.pending];
    assert (pushed + t.queue) + Split(t.pending, size) == pushed + t'.queue;
    assert PushedIs(t', size, pushed);
  }

  lemma WriteSplits(t: Tx, size: nat)
    requires size > 0 && NonEmpty(Outstanding(t)) && t.pending != []
    ensures NonEmpty(Outstanding(t) + [t.pending])
    ensures SplitAll(Outstanding(t) + [t.pending], size) == SplitAll(Outstanding(t), size) + Split(t.pending, size)
  {
    SplitAllAppend(Outstanding(t), [t.pending], size);
    assert SplitAll([t.pending], size) == Split(t.pending, size) + SplitAll([], size);
  }

  // What was pushed before, and what a pass moves, together.
  lemma PushMore(shift: seq<Word>, words: seq<Word>, ws: seq<Word>, pushed: seq<TxPiece>, moved: seq<TxPiece>)
    requires CarriesAll(shift + words, Datas(pushed)) && CarriesAll(ws, Datas(moved))
    ensures CarriesAll(shift + (words + ws), Datas(pushed + moved))
    ensures Lengths(pushed + moved) == Lengths(pushed) + Lengths(moved)
  {
    hide *;
    DatasAppend(pushed, moved);
    CarriesAllAppend(shift + words, Datas(pushed), ws, Datas(moved));
    assert shift + words + ws == shift + (words + ws);
    LengthsAppend(pushed, moved);
  }

  lemma PassPushes(t: Tx, size: nat, fc: nat, bc: nat, ws: seq<Word>, pushed: seq<TxPiece>)
    requires PushedIs(t, size, pushed) && CanPass(t, fc, bc, ws)
    ensures PushedIs(Pass(t, fc, bc, ws), size, pushed + t.queue[..FillCount(t.queue, fc, bc)])
  {
    hide FillCount, SplitAll, CarriesAll, Split, Lengths, Datas;
    var k := FillCount(t.queue, fc, bc);
    FillSmall(t.queue, fc, bc);
    PushMore(t.shift, t.words, ws, pushed, t.queue[..k]);
    assert pushed + t.queue == (pushed + t.queue[..k]) + t.queue[k..];
  }

  lemma PassOk(t: Tx, num: nat, size: nat, fc: nat, bc: nat, ws: seq<Word>)
    requires TxOk(t, num, size) && CanPass(t, fc, bc, ws)
    ensures TxOk(Pass(t, fc, bc, ws), num, size)
  {
    hide FillCount, PushedIs, Lengths, Datas, RoomOk, CarriesAll;
    PassRoom(t, num, size, fc, bc, ws);
    var k := FillCount(t.queue, fc, bc);
    var pushed :| PushedIs(t, size, pushed);
    PassPushes(t, size, fc, bc, ws, pushed);
    QueueFits(t, size, pushed, k);
    LengthsPositive(t.queue[..k], size);
  }

  lemma PassRoom(t: Tx, num: nat, size: nat, fc: nat, bc: nat, ws: seq<Word>)
    requires TxOk(t, num, size) && CanPass(t, fc, bc, ws)
    ensures RoomOk(Pass(t, fc, bc, ws), num, size)
  {
    hide SplitAll, CarriesAll, Split, FillCount, Lengths, Datas, ShowsFrames, ShowsBytes;
    var k := FillCount(t.queue, fc, bc);
    var pushed :| PushedIs(t, size, pushed);
    QueueFits(t, size, pushed, k);
    var frames :| |t.lengths| <= frames && ShowsFrames(fc, frames);
    var bytes :| 4 * |t.words| <= bytes && ShowsBytes(bc, bytes);
    FillBound(t.queue, size, fc, bc, frames, bytes);
    CarriesAllLength(ws, Datas(t.queue[..k]));
    NothingMoved(t.queue);
    MoreRoom(num - |t.queue|, num - |t.queue[k..]|, size);
  }

  lemma NothingMoved(q: seq<TxPiece>)
    ensures Lengths(q[..0]) == [] && TotalWords(Datas(q[..0])) == 0
  {
  }

  lemma QueueFits(t: Tx, size: nat, pushed: seq<TxPiece>, k: nat)
    requires PushedIs(t, size, pushed) && k <= |t.queue|
    ensures AllFit(t.queue, size) && AllFit(t.queue[..k], size) && AllFit(pushed, size)
  {
    var all := SplitAll(Outstanding(t), size);
    assert AllFit(all, size);
    assert forall p :: p in t.queue ==> p in all;
    assert forall p :: p in pushed ==> p in all;
  }

  lemma {:induction false} LengthsPositive(q: seq<TxPiece>, size: nat)
    requires AllFit(q, size)
    ensures forall i :: 0 <= i < |Lengths(q)| ==> Lengths(q)[i] > 0
  {
    if q != [] {
      assert q[0] in q;
      LengthsPositive(q[1..], size);
    }
  }

  // A strict prefix of a frame's descriptors needs fewer words than the frame.
  lemma PrefixIsShorter(frame: seq<byte>, size: nat, k: nat, ws: seq<Word>)
    requires size > 0 && size % 4 == 0 && frame != [] && k < |Split(frame, size)|
    requires CarriesAll(ws, Datas(Split(frame, size)[..k]))
    ensures |ws| < WordCount(|frame|)
  {
    hide Split, CarriesAll, TotalWords, WordCount;
    var q := Split(frame, size);
    var rest := Datas(q[k..]);
    assert q == q[..k] + q[k..];
    assert q[k] in q && PieceFits(q[k], size);
    var vs := SomeWords(rest);
    CarriesAllAppend(ws, Datas(q[..k]), vs, rest);
    assert Datas(q) == Datas(q[..k]) + rest;
    SplitCarries(ws + vs, frame, size);
    CarriesAllLength(vs, rest);
    assert rest[0] == q[k].data;
    NeedsAWord(rest);
  }

  lemma NeedsAWord(parts: seq<seq<byte>>)
    requires parts != [] && parts[0] != []
    ensures TotalWords(parts) > 0
  {
  }

  // A frame's descriptors at the head of what is pushed: either all of them, or too few words.
  lemma HeadFrame(t: Tx, size: nat, pushed: seq<TxPiece>)
    requires size % 4 == 0 && PushedIs(t, size, pushed) && pushed != []
    ensures var g := Outstanding(t);
      && g != [] && g[0] != []
      && pushed[0].first && pushed[0].cnt == |g[0]|
      && (if |pushed| < |Split(g[0], size)| then |t.shift + t.words| < WordCount(|g[0]|)
          else
            var rest := pushed[|Split(g[0], size)|..];
            && pushed == Split(g[0], size) + rest
            && NonEmpty(g[1..]) && SplitAll(g[1..], size) == rest + t.queue)
  {
    var g := Outstanding(t);
    var all := SplitAll(g, size);
    assert g != [] && |g[0]| > 0;
    var head, others := Split(g[0], size), SplitAll(g[1..], size);
    assert all == head + others;
    assert pushed[0] == all[0];
    if |pushed| < |head| {
      assert pushed == all[..|pushed|] == head[..|pushed|];
      PrefixIsShorter(g[0], size, |pushed|, t.shift + t.words);
    } else {
      assert head == all[..|head|] == pushed[..|head|];
      assert others == all[|head|..] == pushed[|head|..] + t.queue;
    }
  }

  // Words that carry a whole frame and more: the first ones carry the frame.
  lemma FirstFrame(ws: seq<Word>, frame: seq<byte>, rest: seq<TxPiece>, size: nat)
    requires size > 0 && size % 4 == 0 && frame != []
    requires CarriesAll(ws, Datas(Split(frame, size) + rest))
    ensures WordCount(|frame|) <= |ws| && Carries(ws[..WordCount(|frame|)], frame)
    ensures CarriesAll(ws[WordCount(|frame|)..], Datas(rest))
  {
    DatasAppend(Split(frame, size), rest);
    CarriesAllSplit(ws, Datas(Split(frame, size)), Datas(rest));
    var n := TotalWords(Datas(Split(frame, size)));
    SplitCarries(ws[..n], frame, size);
  }

  // The word sent completes the first outstanding frame.
  lemma SendLast(t: Tx, size: nat, pushed: seq<TxPiece>) returns (rest: seq<TxPiece>)
    requires size % 4 == 0 && PushedIs(t, size, pushed) && CanSend(t) && t.sent <= t.accepted
    requires AllSendable(t.sent, size)
    requires |t.shift| + 1 == WordCount(t.lengths[0])
    ensures Send(t).sent <= t.accepted && PushedIs(Send(t), size, rest) && AllSendable(Send(t).sent, size)
  {
    hide CarriesAll, Carries, SplitAll, Split, Flatten, Lengths, Datas, SizeInFifo, WordCount;
    var g := Outstanding(t);
    var shift := t.shift + [t.words[0]];
    LengthsOfHead(pushed);
    HeadFrame(t, size, pushed);
    var head := Split(g[0], size);
    rest := pushed[|head|..];
    assert AllSmall(head) by { assert head == pushed[..|head|]; }
    SplitSmall(g[0], size);
    assert t.shift + t.words == shift + t.words[1..];
    FirstFrame(t.shift + t.words, g[0], rest, size);
    LengthsAppend(head, rest);
    SplitLengths(g[0], size);
    FrameSent(t, shift, g[0]);
    assert (shift + t.words[1..])[|shift|..] == [] + t.words[1..];
    assert t.lengths[1..] == Lengths(rest);
  }

  // The words shifted out carry the frame, so it is the frame that is sent.
  lemma FrameSent(t: Tx, shift: seq<Word>, frame: seq<byte>)
    requires t.sent <= t.accepted && Outstanding(t) != [] && frame == Outstanding(t)[0]
    requires Carries(shift, frame)
    ensures var sent := t.sent + [Flatten(shift)[..|frame|]];
      sent <= t.accepted && t.accepted[|sent|..] == Outstanding(t)[1..]
  {
    assert t.accepted[|t.sent|] == frame;
    assert Flatten(shift)[..|frame|] == frame;
  }

  lemma LengthsOfHead(q: seq<TxPiece>)
    ensures Lengths(q) != [] ==> q != []
    ensures q != [] && q[0].first ==> Lengths(q) != [] && Lengths(q)[0] == q[0].cnt
  {
  }

  /** What the transmitter puts on the line is the next accepted frame, without the padding. */
  lemma SendOkStep(t: Tx, num: nat, size: nat)
    requires TxOk(t, num, size) && CanSend(t)
    ensures TxOk(Send(t), num, size)
  {
    hide CarriesAll, SplitAll, Split, Flatten, Lengths, Datas;
    var t' := Send(t);
    var pushed :| PushedIs(t, size, pushed);
    assert |t'.words| < |t.words|;
    if |t.shift| + 1 == WordCount(t.lengths[0]) {
      var rest := SendLast(t, size, pushed);
      QueueFits(t', size, rest, 0);
      LengthsPositive(rest, size);
    } else {
      assert t'.shift + t'.words == t.shift + t.words;
      assert PushedIs(t', size, pushed);
    }
  }
}
