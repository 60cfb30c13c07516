/** Answering tracked interrupts: the scan of waiting requests that starts over after every answer,
    while requests may join the queue and be cancelled under it. */
module InterruptScan {

  datatype Request = Request(id: nat, mask: bv32)
  datatype Answer = Answer(id: nat, matches: bv32)

  datatype FindStatus = Found(tag: Request) | NoMoreEntries | NotFound

  /** What others do during one turn of the scan: interrupts that are raised (0 for none), requests that join
      the queue, and requests that are cancelled before the search and before the retrieval. */
  datatype Turn = Turn(raised: bv32, joining: seq<Request>, beforeFind: set<nat>, beforeRetrieve: set<nat>)

  function Raised(turns: seq<Turn>): (values: seq<bv32>)
    ensures |values| == |turns|
  {
    seq(|turns|, i requires 0 <= i < |turns| => turns[i].raised)
  }

  function Joined(turns: seq<Turn>): (q: seq<Request>) {
    if turns == [] then [] else Joined(turns[..|turns| - 1]) + turns[|turns| - 1].joining
  }

  function Cancelled(turns: seq<Turn>): (ids: set<nat>) {
    if turns == [] then {}
    else
      var last := turns[|turns| - 1];
      Cancelled(turns[..|turns| - 1]) + last.beforeFind + last.beforeRetrieve
  }

  lemma OneMoreTurn(script: seq<Turn>, n: nat)
    requires n < |script|
    ensures Joined(script[..n + 1]) == Joined(script[..n]) + script[n].joining
    ensures Cancelled(script[..n + 1]) == Cancelled(script[..n]) + script[n].beforeFind + script[n].beforeRetrieve
  {
    assert script[..n + 1][..n] == script[..n];
  }

  lemma OneMoreRaised(script: seq<Turn>, n: nat)
    requires n < |script|
    ensures Accumulated(Raised(script[..n + 1])) == Either(Accumulated(Raised(script[..n])), script[n].raised)
  {
    hide Either;
    assert Raised(script[..n + 1])[..n] == Raised(script[..n]);
  }

  lemma {:induction false} JoinedPrefix(script: seq<Turn>, n: nat)
    requires n <= |script|
    ensures Joined(script[..n]) <= Joined(script)
  {
    if n < |script| {
      JoinedPrefix(script[..|script| - 1], n);
      assert script[..|script| - 1][..n] == script[..n];
    } else {
      assert script[..n] == script;
    }
  }

  predicate Meets(isr: bv32, r: Request) {
    isr & r.mask != 0
  }

  // An interrupt concerns the requests whose masks share a bit with it.
  lemma MeetsMeans(isr: bv32, id: nat, mask: bv32)
    ensures Meets(isr, Request(id, mask)) <==> isr & mask != 0
  {
  }

  ghost predicate Distinct(q: seq<Request>) {
    forall i, j :: 0 <= i < j < |q| ==> q[i].id != q[j].id
  }

  function AnswerTo(r: Request, isr: bv32): (a: seq<Answer>) {
    if Meets(isr, r) then [Answer(r.id, isr & r.mask)] else []
  }

  function Stays(r: Request, isr: bv32): (q: seq<Request>) {
    if Meets(isr, r) then [] else [r]
  }

  // The requests the interrupt does not concern, in their order.
  function Unanswered(q: seq<Request>, isr: bv32): (r: seq<Request>) {
    if q == [] then []
    else Stays(q[0], isr) + Unanswered(q[1..], isr)
  }

  // The answers to those it does, in their order.
  function Answers(q: seq<Request>, isr: bv32): (r: seq<Answer>) {
    if q == [] then []
    else AnswerTo(q[0], isr) + Answers(q[1..], isr)
  }

  function Without(q: seq<Request>, ids: set<nat>): (r: seq<Request>)
    ensures |r| <= |q|
    ensures forall x :: x in r <==> x in q && x.id !in ids
  {
    if q == [] then []
    else (if q[0].id in ids then [] else [q[0]]) + Without(q[1..], ids)
  }

  function Drop(as': seq<Answer>, ids: set<nat>): seq<Answer> {
    if as' == [] then []
    else (if as'[0].id in ids then [] else [as'[0]]) + Drop(as'[1..], ids)
  }

  function Ids(q: seq<Request>): (s: set<nat>)
    ensures forall n :: n in s <==> exists r :: r in q && r.id == n
  {
    set r | r in q :: r.id
  }

  /** Every request is answered with the bits it shares with the interrupt, or stays, and not both. */
  lemma {:induction false} AnswersAre(q: seq<Request>, isr: bv32, r: Request)
    ensures r in q && Meets(isr, r) ==> Answer(r.id, isr & r.mask) in Answers(q, isr)
    ensures r in Unanswered(q, isr) <==> r in q && !Meets(isr, r)
    ensures |Answers(q, isr)| + |Unanswered(q, isr)| == |q|
  {
    hide Meets, AnswerTo, Stays;
    if q != [] {
      AnswersAre(q[1..], isr, r);
      EitherWay(q[0], isr, r);
      assert r in q <==> r == q[0] || r in q[1..];
    }
  }

  // ---------- interrupts that have accumulated ----------

  // What is pending after a sequence of interrupts, when nothing was before.
  function Accumulated(values: seq<bv32>): (isr: bv32) {
    if values == [] then 0 else Either(Accumulated(values[..|values| - 1]), values[|values| - 1])
  }

  // One more call of Isr.
  lemma AccumulatedMore(values: seq<bv32>, value: bv32)
    ensures Accumulated(values + [value]) == Either(Accumulated(values), value)
  {
    hide Either;
    assert (values + [value])[..|values|] == values;
  }

  lemma {:induction false} AccumulatedMeets(values: seq<bv32>, r: Request)
    ensures Meets(Accumulated(values), r) <==> exists i :: 0 <= i < |values| && Meets(values[i], r)
  {
    hide Meets, Either;
    if values != [] {
      var before, last := values[..|values| - 1], values[|values| - 1];
      AccumulatedMeets(before, r);
      EitherMeets(Accumulated(before), last, r);
      assert forall i :: 0 <= i < |before| ==> before[i] == values[i];
    } else {
      NothingMeets(r);
    }
  }

  function Either(a: bv32, b: bv32): bv32 {
    a | b
  }

  function Common(a: bv32, mask: bv32): bv32 {
    a & mask
  }

  lemma EitherMeets(a: bv32, b: bv32, r: Request)
    ensures Meets(Either(a, b), r) <==> Meets(a, r) || Meets(b, r)
  {
    hide *;
    MeetsIs(a, r);
    MeetsIs(b, r);
    MeetsIs(Either(a, b), r);
    MaskedEither(a, b, r.mask);
    EitherIsZero(Common(a, r.mask), Common(b, r.mask));
  }

  lemma MeetsIs(a: bv32, r: Request)
    ensures Meets(a, r) <==> Common(a, r.mask) != 0
  {
  }

  lemma MaskedEither(a: bv32, b: bv32, m: bv32)
    ensures Common(Either(a, b), m) == Either(Common(a, m), Common(b, m))
  {
  }

  lemma EitherIsZero(a: bv32, b: bv32)
    ensures Either(a, b) == 0 <==> a == 0 && b == 0
  {
  }

  lemma NothingMeets(r: Request)
    ensures !Meets(0, r)
  {
  }

  /** What the worker has done when it is through, given the queue it started with, what others did in the
      turns it took, and which requests were cancelled before they were answered. */
  ghost predicate Scanned(q: seq<Request>, turns: seq<Turn>, gone: set<nat>, isr: bv32,
                          answers: seq<Answer>, left: seq<Request>) {
    var live := Without(q + Joined(turns), gone);
    && gone <= Ids(q + Joined(turns)) && gone <= Cancelled(turns)
    && answers == Answers(live, isr) && left == Unanswered(live, isr)
  }

  /** However many interrupts come before the worker runs, a request that waits or joins during the scan, and is
      not cancelled, is answered exactly when one of them concerns it, and is still waiting exactly when none
      does: no interrupt is lost to those that came after, and none concerns a request by accident. */
  lemma AnsweredIff(values: seq<bv32>, q: seq<Request>, turns: seq<Turn>, gone: set<nat>,
                    answers: seq<Answer>, left: seq<Request>, r: Request)
    requires Distinct(q + Joined(turns)) && r in q + Joined(turns)
    requires Scanned(q, turns, gone, Accumulated(values), answers, left)
    ensures (exists a :: a in answers && a.id == r.id)
      <==> r.id !in gone && exists i :: 0 <= i < |values| && Meets(values[i], r)
    ensures r in left <==> r.id !in gone && !exists i :: 0 <= i < |values| && Meets(values[i], r)
  {
    hide Distinct, Joined, Meets, Accumulated, Answers, Unanswered, Without, Ids, Cancelled;
    var live := Without(q + Joined(turns), gone);
    WithoutKeepsDistinct(q + Joined(turns), gone);
    if r in live {
      LiveAnsweredIff(values, live, r);
    } else {
      forall a | a in answers ensures a.id != r.id {
        var x := Asker(live, Accumulated(values), a);
      }
      AnswersAre(live, Accumulated(values), r);
    }
  }

  lemma LiveAnsweredIff(values: seq<bv32>, q: seq<Request>, r: Request)
    requires r in q && Distinct(q)
    ensures (exists a :: a in Answers(q, Accumulated(values)) && a.id == r.id)
      <==> (exists i :: 0 <= i < |values| && Meets(values[i], r))
    ensures r in Unanswered(q, Accumulated(values)) <==> !(exists i :: 0 <= i < |values| && Meets(values[i], r))
  {
    hide *;
    var isr := Accumulated(values);
    AccumulatedMeets(values, r);
    AnswersAre(q, isr, r);
    if Meets(isr, r) {
      assert Answer(r.id, isr & r.mask).id == r.id;
    }
    forall a | a in Answers(q, isr) && a.id == r.id ensures Meets(isr, r) {
      var x := Asker(q, isr, a);
      SameId(q, x, r);
    }
  }

  // Every answer goes to a request that the interrupt concerns.
  lemma {:induction false} Asker(q: seq<Request>, isr: bv32, a: Answer) returns (r: Request)
    requires a in Answers(q, isr)
    ensures r in q && r.id == a.id && Meets(isr, r)
  {
    if a in AnswerTo(q[0], isr) {
      r := q[0];
    } else {
      r := Asker(q[1..], isr, a);
    }
  }

  lemma SameId(q: seq<Request>, x: Request, y: Request)
    requires Distinct(q) && x in q && y in q && x.id == y.id
    ensures x == y
  {
  }

  lemma EitherWay(x: Request, isr: bv32, r: Request)
    ensures r == x && Meets(isr, r) ==> Answer(r.id, isr & r.mask) in AnswerTo(x, isr)
    ensures r in Stays(x, isr) <==> r == x && !Meets(isr, r)
    ensures |AnswerTo(x, isr)| + |Stays(x, isr)| == 1
  {
  }

  // ---------- how the pieces compose ----------

  lemma {:induction false} ScanAppend(a: seq<Request>, b: seq<Request>, isr: bv32)
    ensures Answers(a + b, isr) == Answers(a, isr) + Answers(b, isr)
    ensures Unanswered(a + b, isr) == Unanswered(a, isr) + Unanswered(b, isr)
  {
    hide Stays, AnswerTo;
    if a == [] {
      assert a + b == b;
    } else {
      assert (a + b)[1..] == a[1..] + b;
      ScanAppend(a[1..], b, isr);
    }
  }

  lemma {:induction false} NoMatches(q: seq<Request>, isr: bv32)
    requires forall r :: r in q ==> !Meets(isr, r)
    ensures Answers(q, isr) == [] && Unanswered(q, isr) == q
  {
    if q != [] {
      assert q[0] in q;
      NoMatches(q[1..], isr);
    }
  }

  lemma {:induction false} WithoutScan(q: seq<Request>, isr: bv32, ids: set<nat>)
    ensures Answers(Without(q, ids), isr) == Drop(Answers(q, isr), ids)
    ensures Unanswered(Without(q, ids), isr) == Without(Unanswered(q, isr), ids)
  {
    hide Meets;
    if q != [] {
      WithoutScan(q[1..], isr, ids);
      ScanAppend(if q[0].id in ids then [] else [q[0]], Without(q[1..], ids), isr);
      DropAppend(AnswerTo(q[0], isr), Answers(q[1..], isr), ids);
      WithoutAppend(Stays(q[0], isr), Unanswered(q[1..], isr), ids);
    }
  }

  lemma {:induction false} DropAppend(a: seq<Answer>, b: seq<Answer>, ids: set<nat>)
    ensures Drop(a + b, ids) == Drop(a, ids) + Drop(b, ids)
  {
    if a == [] {
      assert a + b == b;
    } else {
      assert (a + b)[1..] == a[1..] + b;
      DropAppend(a[1..], b, ids);
    }
  }

  lemma {:induction false} WithoutAppend(a: seq<Request>, b: seq<Request>, ids: set<nat>)
    ensures Without(a + b, ids) == Without(a, ids) + Without(b, ids)
  {
    if a == [] {
      assert a + b == b;
    } else {
      assert (a + b)[1..] == a[1..] + b;
      WithoutAppend(a[1..], b, ids);
    }
  }

  lemma {:induction false} DropNone(a: seq<Answer>, ids: set<nat>)
    requires forall x :: x in a ==> x.id !in ids
    ensures Drop(a, ids) == a
  {
    if a != [] {
      assert a[0] in a;
      DropNone(a[1..], ids);
    }
  }

  lemma {:induction false} WithoutTwice(q: seq<Request>, a: set<nat>, b: set<nat>)
    ensures Without(Without(q, a), b) == Without(q, a + b)
  {
    if q != [] {
      WithoutTwice(q[1..], a, b);
      WithoutAppend(if q[0].id in a then [] else [q[0]], Without(q[1..], a), b);
    }
  }

  lemma {:induction false} WithoutKeepsDistinct(q: seq<Request>, ids: set<nat>)
    requires Distinct(q)
    ensures Distinct(Without(q, ids))
  {
    if q != [] {
      WithoutKeepsDistinct(q[1..], ids);
      var rest := Without(q[1..], ids);
      if q[0].id !in ids {
        forall j | 0 <= j < |rest| ensures rest[j].id != q[0].id {
          assert rest[j] in q[1..];
        }
      }
    }
  }

  // ---------- the cursor ----------

  // The queue up to and including r, and what follows it.
  function Through(q: seq<Request>, r: Request): (a: seq<Request>) {
    if q == [] then [] else if q[0] == r then [r] else [q[0]] + Through(q[1..], r)
  }

  function Beyond(q: seq<Request>, r: Request): (b: seq<Request>) {
    if q == [] then [] else if q[0] == r then q[1..] else Beyond(q[1..], r)
  }

  lemma {:induction false} Cut(q: seq<Request>, r: Request)
    requires r in q
    ensures q == Through(q, r) + Beyond(q, r)
    ensures |Beyond(q, r)| < |q|
  {
    if q[0] != r {
      Cut(q[1..], r);
    }
  }

  lemma {:induction false} Advance(q: seq<Request>, r: Request)
    requires Distinct(q) && r in q && Beyond(q, r) != []
    ensures var next := Beyond(q, r)[0];
      next in q && Through(q, next) == Through(q, r) + [next] && Beyond(q, next) == Beyond(q, r)[1..]
  {
    var next := Beyond(q, r)[0];
    if q[0] == r {
      assert next == q[1];
    } else {
      assert r in q[1..];
      Advance(q[1..], r);
    }
  }

  lemma {:induction false} WithoutThrough(q: seq<Request>, r: Request, ids: set<nat>)
    requires r in q && r.id !in ids
    ensures forall x :: x in Through(Without(q, ids), r) ==> x in Through(q, r)
    ensures |Beyond(Without(q, ids), r)| <= |Beyond(q, r)|
  {
    if q[0] == r {
      assert Without(q, ids) == [r] + Without(q[1..], ids);
    } else {
      WithoutThrough(q[1..], r, ids);
      var rest := Without(q[1..], ids);
      if q[0].id in ids {
        assert Without(q, ids) == rest;
      } else {
        assert Without(q, ids)[1..] == rest;
      }
    }
  }

  lemma {:induction false} WithoutShorter(q: seq<Request>, r: Request, ids: set<nat>)
    requires r in q && r.id in ids
    ensures |Without(q, ids)| < |q|
  {
    if q[0] != r {
      WithoutShorter(q[1..], r, ids);
    }
  }

  lemma {:induction false} ThroughEnds(q: seq<Request>, r: Request)
    requires r in q
    ensures |Through(q, r)| > 0 && Through(q, r)[|Through(q, r)| - 1] == r
  {
    if q[0] != r {
      ThroughEnds(q[1..], r);
    }
  }

  // One request, wherever it stands, taken out.
  lemma WithoutOne(q: seq<Request>, r: Request)
    requires Distinct(q) && r in q
    ensures Without(q, {r.id}) == Through(q, r)[..|Through(q, r)| - 1] + Beyond(q, r)
    ensures |Through(q, r)| > 0 && Through(q, r)[|Through(q, r)| - 1] == r
  {
    hide *;
    ThroughEnds(q, r);
    Cut(q, r);
    var before, after := Through(q, r)[..|Through(q, r)| - 1], Beyond(q, r);
    assert Through(q, r) == before + [r];
    OneBetween(q, before, r, after);
  }

  lemma OneBetween(q: seq<Request>, before: seq<Request>, r: Request, after: seq<Request>)
    requires Distinct(q) && q == before + [r] + after
    ensures Without(q, {r.id}) == before + after
  {
    hide *;
    WithoutAppend(before + [r], after, {r.id});
    WithoutAppend(before, [r], {r.id});
    WithoutItself(r);
    OthersDiffer(q, before, r, after);
    WithoutNone(before, {r.id});
    WithoutNone(after, {r.id});
  }

  lemma WithoutItself(r: Request)
    ensures Without([r], {r.id}) == []
  {
  }

  lemma OthersDiffer(q: seq<Request>, before: seq<Request>, r: Request, after: seq<Request>)
    requires Distinct(q) && q == before + [r] + after
    ensures forall i :: 0 <= i < |before| ==> before[i].id != r.id
    ensures forall i :: 0 <= i < |after| ==> after[i].id != r.id
  {
    forall i | 0 <= i < |before| ensures before[i].id != r.id {
      assert q[i] == before[i] && q[|before|] == r;
    }
    forall i | 0 <= i < |after| ensures after[i].id != r.id {
      assert q[|before| + 1 + i] == after[i] && q[|before|] == r;
    }
  }

  lemma {:induction false} WithoutNone(q: seq<Request>, ids: set<nat>)
    requires forall i :: 0 <= i < |q| ==> q[i].id !in ids
    ensures Without(q, ids) == q
  {
    if q != [] {
      WithoutNone(q[1..], ids);
    }
  }

  datatype Cursor = Start | At(r: Request)

  // Nothing up to the cursor is concerned by the interrupt.
  ghost predicate SeenThrough(q: seq<Request>, isr: bv32, prev: Cursor) {
    prev.At? ==> prev.r in q && forall x :: x in Through(q, prev.r) ==> !Meets(isr, x)
  }

  function Remaining(q: seq<Request>, prev: Cursor): nat {
    if prev.Start? then |q| else |Beyond(q, prev.r)|
  }

  /** How far the scan has come: what has been answered and what still will be are the answers owed to the
      requests that were not cancelled, and likewise for the ones left in the queue. */
  ghost predicate Progress(live: seq<Request>, q: seq<Request>, isr: bv32, answers: seq<Answer>) {
    && Distinct(q)
    && answers + Answers(q, isr) == Answers(live, isr)
    && Unanswered(q, isr) == Unanswered(live, isr)
    && (forall a :: a in answers ==> forall r :: r in q ==> r.id != a.id)
  }

  lemma CancelProgress(live: seq<Request>, q: seq<Request>, isr: bv32, answers: seq<Answer>, ids: set<nat>)
    requires Progress(live, q, isr, answers) && ids <= Ids(q)
    ensures Progress(Without(live, ids), Without(q, ids), isr, answers)
  {
    WithoutScan(live, isr, ids);
    WithoutScan(q, isr, ids);
    DropAppend(answers, Answers(q, isr), ids);
    DropNone(answers, ids);
    WithoutKeepsDistinct(q, ids);
  }

  // Requests that join the queue join what is owed an answer.
  lemma JoinProgress(q0: seq<Request>, gone: set<nat>, q: seq<Request>, isr: bv32,
                     answers: seq<Answer>, more: seq<Request>)
    requires Progress(Without(q0, gone), q, isr, answers) && Distinct(q0 + more) && gone <= Ids(q0)
    requires forall r :: r in q ==> r in q0
    ensures Progress(Without(q0 + more, gone), q + more, isr, answers)
  {
    hide Answers, Unanswered, Without;
    WithoutAppend(q0, more, gone);
    Fresh(q0, more);
    WithoutNone(more, gone);
    ScanAppend(Without(q0, gone), more, isr);
    ScanAppend(q, more, isr);
    assert answers + (Answers(q, isr) + Answers(more, isr)) == answers + Answers(q, isr) + Answers(more, isr);
    StillApart(q0, q, more);
    forall a, r | a in answers && r in q + more ensures r.id != a.id {
      if r in more {
        var x := Asker(Without(q0, gone), isr, a);
      }
    }
  }

  lemma StillApart(q0: seq<Request>, q: seq<Request>, more: seq<Request>)
    requires Distinct(q) && Distinct(q0 + more) && forall r :: r in q ==> r in q0
    ensures Distinct(q + more)
  {
    Fresh(q0, more);
    forall i, j | 0 <= i < j < |q + more| ensures (q + more)[i].id != (q + more)[j].id {
      if i >= |q| {
        assert (q0 + more)[|q0| + i - |q|] == more[i - |q|] && (q0 + more)[|q0| + j - |q|] == more[j - |q|];
      } else if j >= |q| {
        assert q[i] in q0 && more[j - |q|].id !in Ids(q0);
      }
    }
  }

  lemma Fresh(q: seq<Request>, more: seq<Request>)
    requires Distinct(q + more)
    ensures forall i :: 0 <= i < |more| ==> more[i].id !in Ids(q)
  {
    forall i | 0 <= i < |more| ensures more[i].id !in Ids(q) {
      forall r | r in q ensures r.id != more[i].id {
        var k :| 0 <= k < |q| && q[k] == r;
        assert (q + more)[k] == r && (q + more)[|q| + i] == more[i];
      }
    }
  }

  lemma {:induction false} ThroughMore(q: seq<Request>, more: seq<Request>, r: Request)
    requires r in q
    ensures Through(q + more, r) == Through(q, r)
  {
    if q[0] != r {
      assert (q + more)[1..] == q[1..] + more;
      ThroughMore(q[1..], more, r);
    }
  }

  lemma JoinStep(q0: seq<Request>, gone: set<nat>, q: seq<Request>, isr: bv32,
                 answers: seq<Answer>, prev: Cursor, more: seq<Request>)
    requires Progress(Without(q0, gone), q, isr, answers) && SeenThrough(q, isr, prev)
    requires Distinct(q0 + more) && gone <= Ids(q0) && forall r :: r in q ==> r in q0
    ensures Progress(Without(q0 + more, gone), q + more, isr, answers) && SeenThrough(q + more, isr, prev)
    ensures gone <= Ids(q0 + more) && forall r :: r in q + more ==> r in q0 + more
    ensures more == [] ==> q + more == q
  {
    hide Progress, Without, Through, Distinct;
    JoinProgress(q0, gone, q, isr, answers, more);
    if prev.At? && prev.r in q {
      ThroughMore(q, more, prev.r);
    }
  }

  // The first request the interrupt concerns is the first answer owed.
  lemma FirstAnswer(before: seq<Request>, r: Request, after: seq<Request>, isr: bv32)
    requires Meets(isr, r) && forall x :: x in before ==> !Meets(isr, x)
    ensures Answers(before + ([r] + after), isr) == [Answer(r.id, isr & r.mask)] + Answers(before + after, isr)
    ensures Unanswered(before + ([r] + after), isr) == Unanswered(before + after, isr)
  {
    hide *;
    HeadAnswer(r, after, isr);
    NoMatches(before, isr);
    ScanAppend(before, [r] + after, isr);
    ScanAppend(before, after, isr);
  }

  lemma HeadAnswer(r: Request, after: seq<Request>, isr: bv32)
    requires Meets(isr, r)
    ensures Answers([r] + after, isr) == [Answer(r.id, isr & r.mask)] + Answers(after, isr)
    ensures Unanswered([r] + after, isr) == Unanswered(after, isr)
  {
    assert ([r] + after)[1..] == after;
  }

  lemma AnswerProgress(live: seq<Request>, q: seq<Request>, isr: bv32, answers: seq<Answer>, r: Request)
    requires Progress(live, q, isr, answers) && r in q && Meets(isr, r)
    requires forall x :: x in Through(q, r) && x != r ==> !Meets(isr, x)
    ensures Progress(live, Without(q, {r.id}), isr, answers + [Answer(r.id, isr & r.mask)])
  {
    hide Answers, Unanswered, Without, Through, Beyond, Meets;
    WithoutOne(q, r);
    Cut(q, r);
    var before, after := Through(q, r)[..|Through(q, r)| - 1], Beyond(q, r);
    assert Through(q, r) == before + [r];
    assert q == before + ([r] + after);
    BeforeIsOther(q, r, before, after);
    FirstAnswer(before, r, after, isr);
    WithoutKeepsDistinct(q, {r.id});
    var answer := Answer(r.id, isr & r.mask);
    assert answers + ([answer] + Answers(before + after, isr)) == answers + [answer] + Answers(before + after, isr);
  }

  lemma BeforeIsOther(q: seq<Request>, r: Request, before: seq<Request>, after: seq<Request>)
    requires Distinct(q) && q == before + ([r] + after)
    ensures r !in before
  {
    forall i | 0 <= i < |before| ensures before[i] != r {
      assert q[i] == before[i] && q[|before|] == r;
    }
  }

  // ---------- one turn of the scan ----------

  lemma StartProgress(q: seq<Request>, isr: bv32)
    requires Distinct(q)
    ensures Progress(Without(q, {}), q, isr, [])
  {
    WithoutNone(q, {});
  }

  lemma CancelStep(q0: seq<Request>, gone: set<nat>, q: seq<Request>, isr: bv32,
                   answers: seq<Answer>, prev: Cursor, ids: set<nat>)
    requires Progress(Without(q0, gone), q, isr, answers) && SeenThrough(q, isr, prev) && ids <= Ids(q)
    ensures var q' := Without(q, ids);
      && Progress(Without(q0, gone + ids), q', isr, answers)
      && |q'| <= |q|
      && (prev.At? && prev.r !in q' ==> |q'| < |q|)
      && (prev.At? && prev.r in q' ==> SeenThrough(q', isr, prev))
      && (prev.Start? || prev.r in q' ==> Remaining(q', prev) <= Remaining(q, prev))
  {
    WithoutTwice(q0, gone, ids);
    CancelProgress(Without(q0, gone), q, isr, answers, ids);
    if prev.At? {
      if prev.r.id in ids {
        WithoutShorter(q, prev.r, ids);
      } else {
        WithoutThrough(q, prev.r, ids);
      }
    }
  }

  lemma FoundNext(live: seq<Request>, q: seq<Request>, isr: bv32, answers: seq<Answer>, prev: Cursor, tag: Request)
    requires Progress(live, q, isr, answers) && SeenThrough(q, isr, prev)
    requires var rest := if prev.Start? then q else Beyond(q, prev.r); rest != [] && tag == rest[0]
    ensures tag in q && (forall x :: x in Through(q, tag) && x != tag ==> !Meets(isr, x))
    ensures !Meets(isr, tag) ==> SeenThrough(q, isr, At(tag))
    ensures Remaining(q, At(tag)) < Remaining(q, prev)
  {
    if prev.At? {
      Advance(q, prev.r);
    }
  }

  lemma AnswerStep(live: seq<Request>, q: seq<Request>, isr: bv32, answers: seq<Answer>, tag: Request, ids: set<nat>)
    requires tag in q && Meets(isr, tag)
    requires forall x :: x in Through(q, tag) && x != tag ==> !Meets(isr, x)
    requires Progress(live, Without(q, ids), isr, answers)
    ensures var q' := Without(q, ids);
      && |q'| <= |q|
      && (tag in q' ==>
            Progress(live, Without(q', {tag.id}), isr, answers + [Answer(tag.id, isr & tag.mask)])
            && |Without(q', {tag.id})| < |q|)
      && (tag !in q' ==> |q'| < |q|)
  {
    if tag.id in ids {
      WithoutShorter(q, tag, ids);
    } else {
      WithoutThrough(q, tag, ids);
      AnswerProgress(live, Without(q, ids), isr, answers, tag);
      WithoutShorter(Without(q, ids), tag, {tag.id});
    }
  }

  lemma ScanDone(live: seq<Request>, q: seq<Request>, isr: bv32, answers: seq<Answer>, prev: Cursor)
    requires Progress(live, q, isr, answers) && SeenThrough(q, isr, prev) && Remaining(q, prev) == 0
    ensures answers == Answers(live, isr) && q == Unanswered(live, isr)
  {
    if prev.At? {
      Cut(q, prev.r);
      assert q == Through(q, prev.r);
    }
    NoMatches(q, isr);
  }

  /** The requests that wait for interrupts, and the interrupts they will be answered with. */
  class IsrQueue {
    var queue: seq<Request>
    var lastIsrValue: bv32

    constructor (queue: seq<Request>)
      ensures this.queue == queue && lastIsrValue == 0
    {
      this.queue, lastIsrValue := queue, 0;
    }

    /** fscc_isr: interrupts accumulate until the worker runs. */
    method Isr(value: bv32)
      modifies this`lastIsrValue
      ensures lastIsrValue == Either(old(lastIsrValue), value)
    {
      lastIsrValue := lastIsrValue | value;
    }

    // WdfIoQueueFindRequest
    method Find(prev: Cursor) returns (s: FindStatus)
      ensures s == if prev.At? && prev.r !in queue then NotFound
                   else
                     var rest := if prev.Start? then queue else Beyond(queue, prev.r);
                     if rest == [] then NoMoreEntries else Found(rest[0])
    {
      if prev.At? && prev.r !in queue {
        return NotFound;
      }
      var rest := if prev.Start? then queue else Beyond(queue, prev.r);
      return if rest == [] then NoMoreEntries else Found(rest[0]);
    }

    // WdfIoQueueRetrieveFoundRequest
    method Retrieve(tag: Request) returns (found: bool)
      modifies this`queue
      ensures found <==> tag in old(queue)
      ensures queue == if found then Without(old(queue), {tag.id}) else old(queue)
    {
      found := tag in queue;
      if found {
        queue := Without(queue, {tag.id});
      }
    }

    // Some requests disappear from the queue.
    method Cancel(ids: set<nat>, ghost gone: set<nat>) returns (ghost now: set<nat>)
      modifies this`queue
      ensures queue == Without(old(queue), ids * Ids(old(queue)))
      ensures now == gone + ids * Ids(old(queue))
    {
      now := gone + ids * Ids(queue);
      queue := Without(queue, ids * Ids(queue));
    }

    // Requests join the queue, and then some disappear from it.
    method Interfere(joining: seq<Request>, ids: set<nat>, ghost q0: seq<Request>, ghost gone: set<nat>,
                     ghost isr: bv32, ghost answers: seq<Answer>, ghost prev: Cursor) returns (ghost now: set<nat>)
      requires Progress(Without(q0, gone), queue, isr, answers) && SeenThrough(queue, isr, prev)
      requires Distinct(q0 + joining) && gone <= Ids(q0) && forall r :: r in queue ==> r in q0
      modifies this`queue
      ensures Progress(Without(q0 + joining, now), queue, isr, answers)
      ensures now <= Ids(q0 + joining) && now <= gone + ids && forall r :: r in queue ==> r in q0 + joining
      ensures prev.Start? || prev.r in queue ==> SeenThrough(queue, isr, prev)
      ensures joining == [] ==>
        && |queue| <= |old(queue)|
        && (prev.At? && prev.r !in queue ==> |queue| < |old(queue)|)
        && (prev.Start? || prev.r in queue ==> Remaining(queue, prev) <= Remaining(old(queue), prev))
    {
      hide *;
      JoinStep(q0, gone, queue, isr, answers, prev, joining);
      queue := queue + joining;
      StillThere(q0 + joining, queue);
      CancelStep(q0 + joining, gone, queue, isr, answers, prev, ids * Ids(queue));
      SeenStart(Without(queue, ids * Ids(queue)), isr);
      now := Cancel(ids, gone);
    }

    // Some requests disappear, and then the one found is taken from the queue, if it is still there.
    method RetrieveMatch(tag: Request, ids: set<nat>, ghost q0: seq<Request>, ghost gone: set<nat>,
                         ghost isr: bv32, ghost answers: seq<Answer>) returns (found: bool, ghost now: set<nat>)
      requires Progress(Without(q0, gone), queue, isr, answers) && gone <= Ids(q0) && forall r :: r in queue ==> r in q0
      requires tag in queue && Meets(isr, tag) && forall x :: x in Through(queue, tag) && x != tag ==> !Meets(isr, x)
      modifies this`queue
      ensures var given := if found then answers + [Answer(tag.id, isr & tag.mask)] else answers;
        Progress(Without(q0, now), queue, isr, given)
      ensures now <= Ids(q0) && now <= gone + ids && forall r :: r in queue ==> r in q0
      ensures |queue| < |old(queue)|
    {
      hide *;
      StillThere(q0, queue);
      SeenStart(queue, isr);
      CancelStep(q0, gone, queue, isr, answers, Start, ids * Ids(queue));
      AnswerStep(Without(q0, gone + ids * Ids(queue)), queue, isr, answers, tag, ids * Ids(queue));
      now := Cancel(ids, gone);
      found := Retrieve(tag);
    }

    /** isr_alert_worker: answers exactly the waiting requests that the accumulated interrupts concern, each
        once with the bits it asked for and in queue order, and leaves the others waiting in their order.
        At any moment interrupts may be raised, which are left for the next run, and requests may join and be
        cancelled; the scan ends after `turns` of the scripted turns, and `gone` are those cancelled by then
        before they were answered. */
    method IsrAlertWorker(script: seq<Turn>) returns (answers: seq<Answer>, ghost turns: nat, ghost gone: set<nat>)
      requires Distinct(queue + Joined(script))
      modifies this
      ensures turns <= |script|
      ensures Scanned(old(queue), script[..turns], gone, old(lastIsrValue), answers, queue)
      ensures lastIsrValue == Accumulated(Raised(script[..turns]))
    {
      hide Without, Answers, Unanswered, Through, Beyond, Meets, SeenThrough, Ids, Progress, Distinct, Joined,
        Cancelled, Accumulated, Raised, Either;
      var isr := lastIsrValue;
      lastIsrValue := 0;
      ghost var q0 := queue;
      answers, gone, turns := [], {}, 0;
      StartScan(q0, script, isr);
      NothingRaised(script);
      var prev := Start;
      SeenStart(queue, isr);
      var t := 0;
      while true
        invariant turns == if t < |script| then t else |script|
        invariant q0 == old(queue) + Joined(script[..turns])
        invariant Progress(Without(q0, gone), queue, isr, answers)
        invariant SeenThrough(queue, isr, prev)
        invariant gone <= Ids(q0) && (forall r :: r in queue ==> r in q0)
        invariant gone <= Cancelled(script[..turns])
        invariant lastIsrValue == Accumulated(Raised(script[..turns]))
        decreases |script| - turns, |queue|, Remaining(queue, prev)
      {
        var turn := Turn(0, [], {}, {});
        if t < |script| {
          turn := script[t];
          turns := t + 1;
          OneMoreTurn(script, t);
          OneMoreRaised(script, t);
          Isr(turn.raised);
        }
        t := t + 1;
        assert q0 + turn.joining == old(queue) + Joined(script[..turns]);
        StillDistinct(old(queue), script, turns);
        gone := Interfere(turn.joining, turn.beforeFind, q0, gone, isr, answers, prev);
        q0 := q0 + turn.joining;
        var status := Find(prev);
        if status.NoMoreEntries? {
          SeenStart(queue, isr);
          ScanDone(Without(q0, gone), queue, isr, answers, prev);
          break;
        }
        if status.NotFound? {
          prev := Start;
          SeenStart(queue, isr);
          continue;
        }
        var tag := status.tag;
        SeenStart(queue, isr);
        FoundNext(Without(q0, gone), queue, isr, answers, prev, tag);
        if Meets(isr, tag) {
          var found;
          found, gone := RetrieveMatch(tag, turn.beforeRetrieve, q0, gone, isr, answers);
          prev := Start;
          SeenStart(queue, isr);
          if !found {
            continue;
          }
          answers := answers + [Answer(tag.id, isr & tag.mask)];
        } else {
          prev := At(tag);
        }
      }
    }

    lemma NothingRaised(script: seq<Turn>)
      ensures Accumulated(Raised(script[..0])) == 0
    {
    }

    lemma StartScan(q: seq<Request>, script: seq<Turn>, isr: bv32)
      requires Distinct(q + Joined(script))
      ensures Joined(script[..0]) == [] && q + [] == q
      ensures Progress(Without(q, {}), q, isr, [])
    {
      assert forall i :: 0 <= i < |q| ==> (q + Joined(script))[i] == q[i];
      StartProgress(q, isr);
    }

    lemma StillDistinct(q: seq<Request>, script: seq<Turn>, n: nat)
      requires n <= |script| && Distinct(q + Joined(script))
      ensures Distinct(q + Joined(script[..n]))
    {
      JoinedPrefix(script, n);
      var all, some := q + Joined(script), q + Joined(script[..n]);
      assert some == all[..|some|];
    }

    lemma StillThere(q0: seq<Request>, q: seq<Request>)
      requires forall r :: r in q ==> r in q0
      ensures Ids(q) <= Ids(q0)
    {
    }

    lemma SeenStart(q: seq<Request>, isr: bv32)
      ensures SeenThrough(q, isr, Start)
    {
    }
  }
}
