/** The queue of outstanding requests of a session: sending, responses, reports that ask for a
    retry, and timeouts (Api.c). The log says what happened to which request, in order. */
module Requests {
  import opened Bytes
  import opened MessageIds

  class Request {
    var nextRequest: Request?
    const requestId: int
    var messageId: int
    var retries: int
    const hasCallback: bool
    const timeout: int
    var expireM: int
    ghost var transmissions: nat
    ghost var draw: nat // which draw of the message ids gave messageId

    constructor (requestId: int, messageId: int, hasCallback: bool, timeout: int, now: int, ghost draw: nat)
      ensures nextRequest == null && retries == 0 && this.requestId == requestId && this.messageId == messageId
      ensures expireM == now + timeout && transmissions == 1 && this.draw == draw
    {
      nextRequest, retries := null, 0;
      this.requestId, this.messageId, this.hasCallback, this.timeout := requestId, messageId, hasCallback, timeout;
      expireM := now + timeout;
      transmissions, this.draw := 1, draw;
    }
  }

  datatype Op = ReceivedMessage | TimedOut

  /** Sent carries which transmission of the request it was. */
  datatype Event = Sent(r: Request, n: nat) | Called(r: Request, op: Op) | Left(r: Request)

  /** Nothing happens to a request once it has left the queue. */
  ghost predicate Quiet(log: seq<Event>) {
    forall i, j :: 0 <= i < j < |log| && log[i].Left? ==> log[j].r != log[i].r
  }

  /** Transmissions of a request are numbered upwards, and no number is above `limit`. */
  ghost predicate Bounded(log: seq<Event>, limit: int) {
    && (forall i :: 0 <= i < |log| && log[i].Sent? ==> 1 <= log[i].n <= limit)
    && (forall i, j :: 0 <= i < j < |log| && log[i].Sent? && log[j].Sent? && log[i].r == log[j].r ==>
          log[i].n < log[j].n)
  }

  /** The log has nothing against more happening to r, and knows of n transmissions at most. */
  ghost predicate Open(log: seq<Event>, r: Request, n: nat) {
    forall i :: 0 <= i < |log| && log[i].r == r ==> !log[i].Left? && (log[i].Sent? ==> log[i].n <= n)
  }

  lemma LogStep(log: seq<Event>, e: Event, limit: int, n: nat)
    requires Quiet(log) && Bounded(log, limit) && Open(log, e.r, n)
    requires e.Sent? ==> n < e.n <= limit
    ensures Quiet(log + [e]) && Bounded(log + [e], limit)
    ensures !e.Left? ==> Open(log + [e], e.r, if e.Sent? then e.n else n)
  {
  }

  lemma OpenElsewhere(log: seq<Event>, e: Event, r: Request, n: nat)
    requires Open(log, r, n) && e.r != r
    ensures Open(log + [e], r, n)
  {
  }

  /** `queue` are the requests reached from `head`; `end` is the last of them, NULL when none. */
  ghost predicate IsQueue(head: Request?, end: Request?, queue: seq<Request>)
    reads queue`nextRequest
  {
    && head == (if queue == [] then null else queue[0])
    && end == (if queue == [] then null else queue[|queue| - 1])
    && (forall i {:trigger queue[i].nextRequest} :: 0 <= i < |queue| ==>
          queue[i].nextRequest == if i + 1 < |queue| then queue[i + 1] else null)
    && (forall i, j :: 0 <= i < j < |queue| ==> queue[i] != queue[j])
  }

  /** The calls a response leads to, where the search for its request stopped, whether it is to be
      settled there, and whether any request was found. */
  datatype Found = Found(calls: seq<Event>, at: nat, settle: bool, handled: bool)

  /** What the timeout loop is to do: the requests that are outstanding, which of them are to leave,
      what is to happen about each and the retries it is to end with, given the time, which
      packets can be built, and the log at the start. */
  datatype Schedule = Schedule(all: seq<Request>, marked: seq<bool>, plan: seq<seq<Event>>, targets: seq<int>,
                               now: int, built: nat -> bool, start: seq<Event>)

  class Session {
    var requests: Request?
    var requestsEnd: Request?
    const retries: int
    const hasCallback: bool
    const ids: Ids
    ghost var queue: seq<Request>
    ghost var log: seq<Event>

    /** A report may use up one retry more than the session allows for timeouts. */
    ghost function MaxRetries(): int {
      if retries < 0 then 0 else retries + 1
    }

    /** Counts and ids of one outstanding request. */
    ghost predicate Fits(r: Request)
      reads this, ids, r`retries, r`transmissions, r`draw, r`messageId
    {
      && 0 <= r.retries <= MaxRetries() && 1 <= r.transmissions <= r.retries + 1
      && Open(log, r, r.transmissions)
      && r.draw < ids.draws && r.messageId == ids.At(r.draw)
    }

    ghost predicate Valid()
      reads this, ids, queue
    {
      && IsQueue(requests, requestsEnd, queue)
      && Quiet(log) && Bounded(log, MaxRetries() + 1)
      && ids.Valid()
      && (forall i :: 0 <= i < |queue| ==> Fits(queue[i]))
      && DrawsDistinct(queue)
    }

    constructor (retries: int, hasCallback: bool, ids: Ids)
      requires ids.Valid()
      ensures Valid() && queue == [] && log == []
    {
      requests, requestsEnd := null, null;
      this.retries, this.hasCallback, this.ids := retries, hasCallback, ids;
      queue, log := [], [];
    }

    lemma EndInQueue()
      requires IsQueue(requests, requestsEnd, queue)
      ensures requestsEnd != null ==> requestsEnd in queue
    {
    }

    /** Putting a request behind the last one. */
    method Enqueue(rp: Request)
      requires IsQueue(requests, requestsEnd, queue) && rp !in queue && rp.nextRequest == null
      modifies this`requests, this`requestsEnd, this`queue, rp`nextRequest
      modifies (if requestsEnd == null then {} else {requestsEnd})`nextRequest
      ensures queue == old(queue) + [rp] && IsQueue(requests, requestsEnd, queue)
    {
      ghost var before := queue;
      if requestsEnd != null {
        assert before[|before| - 1].nextRequest == null;
        rp.nextRequest := requestsEnd.nextRequest;
        requestsEnd.nextRequest := rp;
        requestsEnd := rp;
      } else {
        rp.nextRequest := requests;
        requests := rp;
        requestsEnd := rp;
      }
      queue := before + [rp];
      forall i | 0 <= i < |queue|
        ensures queue[i].nextRequest == if i + 1 < |queue| then queue[i + 1] else null
      {
        if i < |before| {
          assert queue[i] == before[i] != rp;
          assert old(before[i].nextRequest) == if i + 1 < |before| then before[i + 1] else null;
        }
      }
    }

    /** Taking the request at index k out; `orp` is the one before it. */
    method Unlink(rp: Request, orp: Request?, ghost k: nat)
      requires IsQueue(requests, requestsEnd, queue) && k < |queue| && rp == queue[k]
      requires orp == if k == 0 then null else queue[k - 1]
      modifies this`requests, this`requestsEnd, this`queue
      modifies (if orp == null then {} else {orp})`nextRequest
      ensures queue == old(queue)[..k] + old(queue)[k + 1..] && IsQueue(requests, requestsEnd, queue)
    {
      ghost var before := queue;
      assert rp.nextRequest == if k + 1 < |before| then before[k + 1] else null;
      if orp != null {
        orp.nextRequest := rp.nextRequest;
      } else {
        requests := rp.nextRequest;
      }
      if requestsEnd == rp {
        requestsEnd := orp;
      }
      queue := before[..k] + before[k + 1..];
      ChainWithout(before, queue, k);
    }

    /** Another request was logged about, or a new one queued; this one still fits. */
    twostate lemma StillFits(r: Request)
      requires old(Fits(r)) && ids.first == old(ids.first) && ids.draws >= old(ids.draws)
      requires r.retries == old(r.retries) && r.transmissions == old(r.transmissions)
      requires r.draw == old(r.draw) && r.messageId == old(r.messageId)
      requires Open(log, r, r.transmissions)
      ensures Fits(r)
    {
    }

    /** The end of _Api_sessAsyncSend, for a PDU with the ids of its creation. Building, the size
        checks and sending may fail; the request is queued when a response is expected. */
    method AsyncSend(reqid: int, msgid: int, built: bool, fitsMaximum: bool, sent: bool, expectResponse: bool,
                     hasCallback: bool, timeout: int, now: int, ghost draw: nat) returns (r: int)
      requires Valid() && draw < ids.draws && msgid == ids.At(draw)
      requires forall i :: 0 <= i < |queue| ==> queue[i].draw != draw
      modifies this, queue
      ensures Valid()
      ensures r == if built && fitsMaximum && sent then reqid else 0
      ensures if built && fitsMaximum && sent && expectResponse
              then
                && |queue| == |old(queue)| + 1 && queue[..|old(queue)|] == old(queue)
                && var rp := queue[|old(queue)|];
                && fresh(rp) && rp.requestId == reqid && rp.messageId == msgid && rp.retries == 0
                && log == old(log) + [Sent(rp, 1)]
              else queue == old(queue) && log == old(log)
    {
      if !built || !fitsMaximum || !sent {
        return 0;
      }
      if expectResponse {
        Remember(reqid, msgid, hasCallback, timeout, now, draw);
      }
      return reqid;
    }

    /** The new request that stands for what was sent. */
    method Remember(reqid: int, msgid: int, hasCallback: bool, timeout: int, now: int, ghost draw: nat)
      requires Valid() && draw < ids.draws && msgid == ids.At(draw)
      requires forall i :: 0 <= i < |queue| ==> queue[i].draw != draw
      modifies this, queue
      ensures Valid() && |queue| == |old(queue)| + 1 && queue[..|old(queue)|] == old(queue)
      ensures var rp := queue[|old(queue)|];
              && fresh(rp) && rp.requestId == reqid && rp.messageId == msgid && rp.retries == 0
              && log == old(log) + [Sent(rp, 1)]
    {
      hide Quiet, Bounded, Open, IsQueue, DrawsDistinct, Fits;
      var rp := new Request(reqid, msgid, hasCallback, timeout, now, draw);
      NewIsOpen(log, rp);
      LogStep(log, Sent(rp, 1), MaxRetries() + 1, 0);
      DrawsAppend(queue, rp);
      EndInQueue();
      Enqueue(rp);
      log := log + [Sent(rp, 1)];
      OthersFit(rp, Sent(rp, 1));
      NewFits(rp);
      forall i | 0 <= i < |queue|
        ensures Fits(queue[i])
      {
        assert i < |old(queue)| ==> queue[i] in old(queue);
      }
    }

    lemma NewFits(r: Request)
      requires r.retries == 0 && r.transmissions == 1 && Open(log, r, 1)
      requires r.draw < ids.draws && r.messageId == ids.At(r.draw)
      ensures Fits(r)
    {
    }

    /** Logging about one outstanding request leaves the others as they were. */
    twostate lemma OthersFit(new rp: Request, new e: Event)
      requires old(Valid()) && e.r == rp && log == old(log) + [e]
      requires ids.first == old(ids.first) && ids.draws >= old(ids.draws)
      requires forall r :: r in old(queue) && r != rp ==>
                 && r.retries == old(r.retries) && r.transmissions == old(r.transmissions)
                 && r.draw == old(r.draw) && r.messageId == old(r.messageId)
      ensures forall r :: r in old(queue) && r != rp ==> Fits(r)
    {
      hide Quiet, Bounded, Open, IsQueue, DrawsDistinct;
      forall r | r in old(queue) && r != rp
        ensures Fits(r)
      {
        assert old(Fits(r));
        FitsIsOpen(r);
        OpenElsewhere(old(log), e, r, r.transmissions);
        StillFits(r);
      }
    }

    /** So does drawing a new id for it. */
    twostate lemma OthersStillFit(rp: Request)
      requires old(Valid()) && log == old(log)
      requires ids.first == old(ids.first) && ids.draws >= old(ids.draws)
      requires forall r :: r in old(queue) && r != rp ==>
                 && r.retries == old(r.retries) && r.transmissions == old(r.transmissions)
                 && r.draw == old(r.draw) && r.messageId == old(r.messageId)
      ensures forall r :: r in old(queue) && r != rp ==> Fits(r)
    {
      hide Quiet, Bounded, Open, IsQueue, DrawsDistinct;
      forall r | r in old(queue) && r != rp
        ensures Fits(r)
      {
        assert old(Fits(r));
        FitsIsOpen(r);
        StillFits(r);
      }
    }

    twostate lemma FitsIsOpen(r: Request)
      requires old(Fits(r))
      ensures Open(old(log), r, old(r.transmissions))
    {
    }

    /** A callback for an outstanding request. */
    method Call(rp: Request, op: Op)
      requires Valid() && rp in queue
      modifies this`log
      ensures Valid() && log == old(log) + [Called(rp, op)]
    {
      hide Quiet, Bounded, Open, IsQueue, DrawsDistinct;
      assert Fits(rp);
      LogStep(log, Called(rp, op), MaxRetries() + 1, rp.transmissions);
      log := log + [Called(rp, op)];
      OthersFit(rp, Called(rp, op));
      forall i | 0 <= i < |queue|
        ensures Fits(queue[i])
      {
        assert queue[i] in old(queue);
      }
    }

    /** Taking an outstanding request out of the queue for good. */
    method Remove(rp: Request, orp: Request?, ghost k: nat)
      requires Valid() && k < |queue| && rp == queue[k]
      requires orp == if k == 0 then null else queue[k - 1]
      modifies this`requests, this`requestsEnd, this`queue, this`log
      modifies (if orp == null then {} else {orp})`nextRequest
      ensures Valid() && queue == old(queue)[..k] + old(queue)[k + 1..]
      ensures log == old(log) + [Left(rp)]
    {
      hide Quiet, Bounded, Open, IsQueue, DrawsDistinct;
      assert Fits(rp);
      LogStep(log, Left(rp), MaxRetries() + 1, rp.transmissions);
      DistinctAt(k);
      DrawsWithout(queue, k);
      Unlink(rp, orp, k);
      log := log + [Left(rp)];
      OthersFit(rp, Left(rp));
      OthersAreLeft(old(queue), queue, k);
    }

    lemma OthersAreLeft(before: seq<Request>, after: seq<Request>, k: nat)
      requires k < |before| && (forall i :: 0 <= i < |before| && i != k ==> before[i] != before[k])
      requires after == before[..k] + before[k + 1..] && forall r :: r in before && r != before[k] ==> Fits(r)
      ensures forall i :: 0 <= i < |after| ==> Fits(after[i])
    {
      hide Open;
      forall i | 0 <= i < |after|
        ensures Fits(after[i])
      {
        assert after[i] == before[if i < k then i else i + 1];
      }
    }

    lemma DistinctAt(k: nat)
      requires IsQueue(requests, requestsEnd, queue) && k < |queue|
      ensures forall i :: 0 <= i < |queue| && i != k ==> queue[i] != queue[k]
    {
    }

    /** One more retry, under a fresh message id. */
    method Redraw(rp: Request)
      requires Valid() && rp in queue && rp.retries < MaxRetries()
      modifies ids, rp`retries, rp`messageId, rp`draw
      ensures Valid() && rp.retries == old(rp.retries) + 1
      ensures ids.draws == old(ids.draws) + 1 && rp.draw == old(ids.draws)
    {
      hide Quiet, Bounded, Open, IsQueue, DrawsDistinct;
      assert Fits(rp);
      rp.retries := rp.retries + 1;
      rp.messageId := ids.GetNextMsgid();
      rp.draw := ids.draws - 1;
      OthersStillFit(rp);
      DrawsRenewed(queue, rp);
      forall i | 0 <= i < |queue|
        ensures Fits(queue[i])
      {
        assert queue[i] in old(queue);
      }
    }

    /** The packet of a request goes out again. */
    method Transmit(rp: Request)
      requires Valid() && rp in queue && rp.transmissions <= rp.retries
      modifies this`log, rp`transmissions
      ensures Valid() && log == old(log) + [Sent(rp, old(rp.transmissions) + 1)]
    {
      hide Quiet, Bounded, Open, IsQueue, DrawsDistinct;
      assert Fits(rp);
      ghost var e := Sent(rp, rp.transmissions + 1);
      LogStep(log, e, MaxRetries() + 1, rp.transmissions);
      rp.transmissions := rp.transmissions + 1;
      log := log + [e];
      OthersFit(rp, e);
      forall i | 0 <= i < |queue|
        ensures Fits(queue[i])
      {
        assert queue[i] in old(queue);
      }
    }

    /** _Api_resendRequest, counting the retry. The packet goes out when it could be built, whatever
        the transport then says. */
    method ResendRequest(rp: Request, built: bool, sent: bool, now: int) returns (rc: int)
      requires Valid() && rp in queue && rp.retries < MaxRetries()
      modifies this`log, ids, rp`retries, rp`messageId, rp`expireM, rp`transmissions, rp`draw
      ensures Valid() && rp.retries == old(rp.retries) + 1
      ensures ids.draws == old(ids.draws) + 1 && rp.draw == old(ids.draws)
      ensures rc == 0 <==> built && sent
      ensures rp.expireM == if rc == 0 then now + rp.timeout else old(rp.expireM)
      ensures log == old(log) + if built then [Sent(rp, old(rp.transmissions) + 1)] else []
    {
      hide Quiet, Bounded, Open, IsQueue, DrawsDistinct;
      assert Fits(rp);
      Redraw(rp);
      if !built {
        return -1;
      }
      Transmit(rp);
      if !sent {
        return -1;
      }
      rp.expireM := now + rp.timeout;
      return 0;
    }

    lemma NoneTwice()
      requires Valid()
      ensures forall i, j :: 0 <= i < j < |queue| ==> queue[i] != queue[j]
    {
    }

    lemma NextAt(k: nat)
      requires Valid() && k <= |queue|
      ensures k < |queue| ==> queue[k].nextRequest == if k + 1 < |queue| then queue[k + 1] else null
      ensures k < |queue| ==> forall i :: 0 <= i < |queue| && i != k ==> queue[i] != queue[k]
      ensures k == 0 ==> requests == if queue == [] then null else queue[0]
    {
    }

    /** No more chances: the callback, if there is one, and out of the queue. */
    method GiveUp(rp: Request, orp: Request?, ghost k: nat)
      requires Valid() && k < |queue| && rp == queue[k]
      requires orp == if k == 0 then null else queue[k - 1]
      modifies this`requests, this`requestsEnd, this`queue, this`log
      modifies (if orp == null then {} else {orp})`nextRequest
      ensures Valid() && queue == old(queue)[..k] + old(queue)[k + 1..] && rp.nextRequest == old(rp.nextRequest)
      ensures log == old(log) + (if rp.hasCallback || hasCallback then [Called(rp, TimedOut)] else []) + [Left(rp)]
    {
      hide Valid;
      NextAt(k);
      if rp.hasCallback || hasCallback {
        Call(rp, TimedOut);
      }
      Remove(rp, orp, k);
    }

    /** What the timeout loop does about one request: nothing, a resend, or the end of it. */
    ghost function TimeoutEvents(r: Request, now: int, built: bool): seq<Event>
      reads r`expireM, r`retries, r`transmissions
    {
      if !(r.expireM < now) then []
      else if r.retries >= retries then (if r.hasCallback || hasCallback then [Called(r, TimedOut)] else []) + [Left(r)]
      else if built then [Sent(r, r.transmissions + 1)] else []
    }

    /** The retries of a request after the timeout loop has dealt with it. */
    ghost function NextRetries(r: Request, now: int): int
      reads r`expireM, r`retries
    {
      if r.expireM < now && r.retries < retries then r.retries + 1 else r.retries
    }

    /** One turn of the timeout loop; `stop` when a resend failed. */
    method Visit(rp: Request, orp: Request?, now: int, built: bool, sent: bool, ghost k: nat)
      returns (removed: bool, stop: bool)
      requires Valid() && k < |queue| && rp == queue[k]
      requires orp == if k == 0 then null else queue[k - 1]
      modifies this`requests, this`requestsEnd, this`queue, this`log, ids
      modifies rp`retries, rp`messageId, rp`expireM, rp`transmissions, rp`draw
      modifies (if orp == null then {} else {orp})`nextRequest
      ensures Valid() && rp.nextRequest == old(rp.nextRequest)
      ensures removed == (old(rp.expireM) < now && old(rp.retries) >= retries)
      ensures queue == if removed then old(queue)[..k] + old(queue)[k + 1..] else old(queue)
      ensures log == old(log) + old(TimeoutEvents(rp, now, built))
      ensures rp.retries == old(NextRetries(rp, now))
      ensures rp.retries != old(rp.retries) ==> rp.draw == old(ids.draws)
      ensures stop ==> !removed && !(built && sent)
    {
      hide Valid;
      NextAt(k);
      removed, stop := false, false;
      if rp.expireM < now {
        if rp.retries >= retries {
          GiveUp(rp, orp, k);
          Assoc(old(log), if rp.hasCallback || hasCallback then [Called(rp, TimedOut)] else [], [Left(rp)]);
          removed := true;
        } else {
          var rc := ResendRequest(rp, built, sent, now);
          stop := rc != 0;
        }
      }
    }

    /** What the timeout loop is to do about each outstanding request. */
    ghost function Plan(q: seq<Request>, now: int, built: nat -> bool): (p: seq<seq<Event>>)
      reads q
      ensures |p| == |q|
      ensures forall i :: 0 <= i < |q| ==> p[i] == TimeoutEvents(q[i], now, built(i))
    {
      seq(|q|, i requires 0 <= i < |q| reads q => TimeoutEvents(q[i], now, built(i)))
    }

    ghost function Targets(q: seq<Request>, now: int): (t: seq<int>)
      reads q
      ensures |t| == |q|
      ensures forall i :: 0 <= i < |q| ==> t[i] == NextRetries(q[i], now)
    {
      seq(|q|, i requires 0 <= i < |q| reads q => NextRetries(q[i], now))
    }

    ghost function ScheduleFor(now: int, built: nat -> bool): Schedule
      reads this, queue
    {
      Schedule(queue, Exhausted(queue, retries, now), Plan(queue, now, built), Targets(queue, now), now, built, log)
    }

    /** The schedule fits the requests not yet visited, and the others have the retries it says. */
    ghost predicate OnSchedule(todo: Schedule, visited: nat)
      reads todo.all
    {
      && |todo.all| == |todo.marked| == |todo.plan| == |todo.targets| && visited <= |todo.all|
      && (forall i :: visited <= i < |todo.all| ==>
            && todo.marked[i] == (todo.all[i].expireM < todo.now && todo.all[i].retries >= retries)
            && todo.plan[i] == TimeoutEvents(todo.all[i], todo.now, todo.built(i))
            && todo.targets[i] == NextRetries(todo.all[i], todo.now))
      && (forall i :: 0 <= i < visited ==> todo.all[i].retries == todo.targets[i])
      && (forall i, j :: 0 <= i < j < |todo.all| ==> todo.all[i] != todo.all[j])
    }

    /** A position in the timeout loop: `visited` of the requests have been dealt with, and k of them
        are still there. */
    ghost predicate Position(todo: Schedule, k: nat, visited: nat, rp: Request?, orp: Request?)
      reads this, ids, queue, todo.all
    {
      && Valid() && OnSchedule(todo, visited) && visited <= |todo.all| && k <= |queue|
      && rp == (if k < |queue| then queue[k] else null)
      && orp == (if k == 0 then null else queue[k - 1]) && (orp != null ==> orp in todo.all)
      && queue[..k] == Keep(todo.all[..visited], todo.marked) && queue[k..] == todo.all[visited..]
      && log == todo.start + Flat(todo.plan[..visited])
    }

    /** The position behind a turn, from the queue before it. */
    lemma NextPosition(todo: Schedule, before: seq<Request>, k: nat, visited: nat, orp: Request?)
      requires Valid() && k < |before| && OnSchedule(todo, visited + 1)
      requires before[..k] == Keep(todo.all[..visited], todo.marked) && before[k..] == todo.all[visited..]
      requires queue == if todo.marked[visited] then before[..k] + before[k + 1..] else before
      requires orp == (if k == 0 then null else before[k - 1]) && (orp != null ==> orp in todo.all)
      requires log == todo.start + Flat(todo.plan[..visited]) + todo.plan[visited]
      ensures var removed, next := todo.marked[visited], if k + 1 < |before| then before[k + 1] else null;
              Position(todo, if removed then k else k + 1, visited + 1, next, if removed then orp else before[k])
    {
      hide Valid, Keep, Flat, TimeoutEvents, NextRetries;
      SameAt(before, k, todo.all, visited);
      KeepTurn(before, queue, todo.all, todo.marked, k, visited, todo.marked[visited]);
      FlatNext(todo.plan, visited);
      Assoc(todo.start, Flat(todo.plan[..visited]), todo.plan[visited]);
    }

    /** What is due for the next request. */
    lemma DueAt(todo: Schedule, n: nat)
      requires OnSchedule(todo, n) && n < |todo.all|
      ensures var r := todo.all[n];
              && |todo.marked| == |todo.plan| == |todo.targets| == |todo.all|
              && todo.marked[n] == (r.expireM < todo.now && r.retries >= retries)
              && todo.plan[n] == TimeoutEvents(r, todo.now, todo.built(n)) && todo.targets[n] == NextRetries(r, todo.now)
    {
    }

    /** It has been done, and the other requests are as they were. */
    twostate lemma StillOnSchedule(todo: Schedule, new n: nat)
      requires old(OnSchedule(todo, n)) && n < |todo.all| && todo.all[n].retries == todo.targets[n]
      requires forall r :: r in todo.all && r != todo.all[n] ==>
                 r.expireM == old(r.expireM) && r.retries == old(r.retries) && r.transmissions == old(r.transmissions)
      ensures OnSchedule(todo, n + 1)
    {
    }

    /** One turn of the timeout loop. */
    method Turn(rp: Request, orp: Request?, now: int, built: nat -> bool, sent: bool, ghost todo: Schedule,
                ghost k: nat, n: nat)
      returns (next: Request?, last: Request?, stop: bool, ghost m: nat)
      requires Position(todo, k, n, rp, orp) && todo.now == now && todo.built == built
      modifies this`requests, this`requestsEnd, this`queue, this`log, ids, todo.all
      ensures n < |todo.all|
      ensures stop ==> !(built(n) && sent)
      ensures Position(todo, m, n + 1, next, last)
    {
      hide Valid, Keep, TimeoutEvents, NextRetries, Flat, OnSchedule;
      NextAt(k);
      ghost var before := queue;
      SameAt(before, k, todo.all, n);
      DueAt(todo, n);
      var removed;
      removed, stop := Visit(rp, orp, now, built(n), sent, k);
      StillOnSchedule(todo, n);
      next, last, m := rp.nextRequest, orp, k;
      NextPosition(todo, before, k, n, orp);
      if !removed {
        last, m := rp, k + 1;
      }
    }

    /** Api_sessTimeout: goes through the queue until a resend fails. What has expired is removed when
        it has no retry left, after its callback, and resent otherwise. */
    method Timeout(now: int, built: nat -> bool, sent: nat -> bool) returns (visited: nat)
      requires Valid()
      modifies this`requests, this`requestsEnd, this`queue, this`log, ids, queue
      ensures Valid() && visited <= |old(queue)|
      ensures (forall i :: built(i) && sent(i)) ==> visited == |old(queue)|
      ensures queue == Keep(old(queue)[..visited], old(Exhausted(queue, retries, now))) + old(queue)[visited..]
      ensures log == old(log) + Flat(old(Plan(queue, now, built))[..visited])
      ensures forall i :: 0 <= i < visited ==> old(queue)[i].retries == old(Targets(queue, now))[i]
    {
      hide Valid, Position, Keep, Exhausted, Plan, Targets, Flat;
      ghost var todo, k := ScheduleFor(now, built), 0;
      var rp: Request?, orp: Request? := requests, null;
      visited := 0;
      StartPosition(now, built);
      var stop := false;
      while rp != null && !stop
        invariant Position(todo, k, visited, rp, orp)
        invariant stop ==> exists i: nat :: !(built(i) && sent(i))
        decreases |todo.all| - visited
      {
        rp, orp, stop, k := Turn(rp, orp, now, built, sent(visited), todo, k, visited);
        visited := visited + 1;
      }
      EndPosition(todo, k, visited, rp, orp);
    }

    lemma StartPosition(now: int, built: nat -> bool)
      requires Valid()
      ensures Position(ScheduleFor(now, built), 0, 0, requests, null)
    {
      hide Valid, TimeoutEvents, NextRetries;
      NextAt(0);
      NoneTwice();
      assert queue[..0] == [] && queue[0..] == queue;
      assert Plan(queue, now, built)[..0] == [] && log + [] == log;
    }

    lemma EndPosition(todo: Schedule, k: nat, visited: nat, rp: Request?, orp: Request?)
      requires Position(todo, k, visited, rp, orp)
      ensures Valid() && visited <= |todo.all| == |todo.marked| == |todo.plan| && (rp == null ==> visited == |todo.all|)
      ensures queue == Keep(todo.all[..visited], todo.marked) + todo.all[visited..]
      ensures log == todo.start + Flat(todo.plan[..visited])
      ensures |todo.targets| == |todo.all| && forall i :: 0 <= i < visited ==> todo.all[i].retries == todo.targets[i]
    {
      hide Valid, Keep, TimeoutEvents, NextRetries, Flat;
      assert queue == queue[..k] + queue[k..];
      assert |queue[k..]| == |todo.all[visited..]|;
    }

    /** What follows an accepted response: a report that the message was not in the time window is
        answered by an immediate retry while there is one, everything else ends the request. */
    method Settle(rp: Request, orp: Request?, report: bool, notInTime: bool, built: bool, sent: bool, now: int,
            ghost k: nat)
      returns (removed: bool)
      requires Valid() && k < |queue| && rp == queue[k]
      requires orp == if k == 0 then null else queue[k - 1]
      modifies this`requests, this`requestsEnd, this`queue, this`log, ids
      modifies rp`retries, rp`messageId, rp`expireM, rp`transmissions, rp`draw
      modifies (if orp == null then {} else {orp})`nextRequest
      ensures Valid() && removed == !(report && notInTime && old(rp.retries) <= retries)
      ensures queue == if removed then old(queue)[..k] + old(queue)[k + 1..] else old(queue)
      ensures !removed ==> rp.retries == old(rp.retries) + 1 && rp.draw == old(ids.draws)
      ensures log == old(log) + if removed then [Left(rp)] else if built then [Sent(rp, old(rp.transmissions) + 1)] else []
    {
      hide Valid;
      FitsAt(k);
      if report && notInTime && rp.retries <= retries {
        var rc := ResendRequest(rp, built, sent, now);
        return false;
      }
      Remove(rp, orp, k);
      return true;
    }

    lemma FitsAt(k: nat)
      requires Valid() && k < |queue|
      ensures Fits(queue[k])
    {
    }

    /** Whether a response is for r, and whether there is a callback to tell. */
    predicate IsFor(r: Request, v3: bool, msgid: int, reqid: int)
      reads r`messageId
    {
      if v3 then r.messageId == msgid else r.requestId == reqid
    }

    predicate Present(r: Request) {
      r.hasCallback || hasCallback
    }

    /** What the search from index k on does: it tells every request the response is for, until one
        does not decline; a v3 response that fails verification ends it. */
    ghost function Search(v3: bool, msgid: int, reqid: int, verified: nat -> bool, accepted: nat -> bool,
                          q: seq<Request>, k: nat): (f: Found)
      reads q`messageId
      requires k <= |q|
      ensures f.at <= |q| && (f.settle ==> f.at < |q|)
      decreases |q| - k
    {
      if k == |q| then Found([], k, false, false)
      else if !IsFor(q[k], v3, msgid, reqid) then Search(v3, msgid, reqid, verified, accepted, q, k + 1)
      else if v3 && !verified(k) then Found([], k, false, false)
      else
        var call := if Present(q[k]) then [Called(q[k], ReceivedMessage)] else [];
        if !Present(q[k]) || accepted(k) then Found(call, k, true, true)
        else
          var rest := Search(v3, msgid, reqid, verified, accepted, q, k + 1);
          Found(call + rest.calls, rest.at, rest.settle, true)
    }

    /** The request that is settled is the first one the response is for that does not decline, and
        only requests it is for are told. */
    lemma {:induction false} SearchExact(v3: bool, msgid: int, reqid: int, verified: nat -> bool, accepted: nat -> bool,
                                         q: seq<Request>, k: nat)
      requires k <= |q|
      ensures var f := Search(v3, msgid, reqid, verified, accepted, q, k);
              && k <= f.at
              && (forall i :: k <= i < f.at && IsFor(q[i], v3, msgid, reqid) ==>
                    (v3 ==> verified(i)) && Present(q[i]) && !accepted(i))
              && (f.settle ==>
                    IsFor(q[f.at], v3, msgid, reqid) && (v3 ==> verified(f.at)) && (Present(q[f.at]) ==> accepted(f.at)))
              && (!f.settle && f.at < |q| ==> IsFor(q[f.at], v3, msgid, reqid) && v3 && !verified(f.at))
              && (forall i :: 0 <= i < |f.calls| ==>
                    f.calls[i].Called? && IsFor(f.calls[i].r, v3, msgid, reqid) && f.calls[i].op == ReceivedMessage)
      decreases |q| - k
    {
      if k < |q| {
        SearchExact(v3, msgid, reqid, verified, accepted, q, k + 1);
      }
    }

    /** What is known after the calls so far, from what the rest of the search will do. */
    ghost function Joined(calls: seq<Event>, handled: bool, f: Found): Found {
      Found(calls + f.calls, f.at, f.settle, handled || f.handled)
    }

    /** What the search does about one request: whether it counts as found, is to be settled, ends the
        search, and which calls it leads to. */
    ghost predicate Told(r: Request, v3: bool, msgid: int, reqid: int, verified: bool, accepted: bool,
                         took: bool, settle: bool, stop: bool, more: seq<Event>)
      reads r`messageId
    {
      if !IsFor(r, v3, msgid, reqid) then !took && !settle && !stop && more == []
      else if v3 && !verified then !took && !settle && stop && more == []
      else
        && took && settle == stop == (!Present(r) || accepted)
        && more == if Present(r) then [Called(r, ReceivedMessage)] else []
    }

    lemma SearchStep(v3: bool, msgid: int, reqid: int, verified: nat -> bool, accepted: nat -> bool,
                     q: seq<Request>, k: nat, calls: seq<Event>, handled: bool, took: bool, settle: bool, stop: bool, more: seq<Event>)
      requires k < |q| && Told(q[k], v3, msgid, reqid, verified(k), accepted(k), took, settle, stop, more)
      ensures Joined(calls, handled, Search(v3, msgid, reqid, verified, accepted, q, k)) ==
              if stop then Found(calls + more, k, settle, handled || took)
              else Joined(calls + more, handled || took, Search(v3, msgid, reqid, verified, accepted, q, k + 1))
    {
      Assoc(calls, more, Search(v3, msgid, reqid, verified, accepted, q, k + 1).calls);
      assert calls + [] == calls;
    }

    lemma SearchEnds(v3: bool, msgid: int, reqid: int, verified: nat -> bool, accepted: nat -> bool,
                     q: seq<Request>, calls: seq<Event>, handled: bool)
      ensures Joined(calls, handled, Search(v3, msgid, reqid, verified, accepted, q, |q|))
              == Found(calls, |q|, false, handled)
    {
      assert calls + [] == calls;
    }

    lemma SearchBegins(f: Found)
      ensures Joined([], false, f) == f
    {
      assert [] + f.calls == f.calls;
    }

    /** One turn of the search. */
    method Tell(rp: Request, v3: bool, msgid: int, reqid: int, verified: bool, accepted: bool)
      returns (took: bool, settle: bool, stop: bool, ghost more: seq<Event>)
      requires Valid() && rp in queue
      modifies this`log
      ensures Valid() && log == old(log) + more && (settle ==> stop)
      ensures Told(rp, v3, msgid, reqid, verified, accepted, took, settle, stop, more)
    {
      hide Valid;
      took, settle, stop, more := false, false, false, [];
      if IsFor(rp, v3, msgid, reqid) {
        if v3 && !verified {
          stop := true;
        } else {
          took := true;
          if Present(rp) {
            Call(rp, ReceivedMessage);
            more := [Called(rp, ReceivedMessage)];
          }
          settle := !Present(rp) || accepted;
          stop := settle;
        }
      }
    }

    /** The search through the queue; `orp` is in front of `rp`, and rp is to be settled when there is
        something to settle. */
    method FindRequest(v3: bool, msgid: int, reqid: int, verified: nat -> bool, accepted: nat -> bool)
      returns (rp: Request?, orp: Request?, handled: bool, settle: bool, ghost found: Found)
      requires Valid()
      modifies this`log
      ensures Valid() && found == old(Search(v3, msgid, reqid, verified, accepted, queue, 0))
      ensures log == old(log) + found.calls && handled == found.handled && settle == found.settle
      ensures settle ==> found.at < |queue| && rp == queue[found.at] && orp == if found.at == 0 then null else queue[found.at - 1]
    {
      hide Valid, Search, Joined, Told, IsFor;
      ghost var q, calls := queue, [];
      rp, orp, handled, settle := requests, null, false, false;
      var i, stop := 0, false;
      found := Search(v3, msgid, reqid, verified, accepted, q, 0);
      NextAt(0);
      SearchBegins(found);
      while rp != null && !stop
        modifies this`log
        invariant Valid() && i <= |queue| && (stop ==> rp != null)
        invariant rp == if i < |queue| then queue[i] else null
        invariant orp == if i == 0 then null else queue[i - 1]
        invariant log == old(log) + calls && (settle ==> stop)
        invariant found == if stop then Found(calls, i, settle, handled)
                           else Joined(calls, handled, Search(v3, msgid, reqid, verified, accepted, q, i))
        decreases |queue| - i, !stop
      {
        NextAt(i);
        var took;
        ghost var more;
        took, settle, stop, more := Tell(rp, v3, msgid, reqid, verified(i), accepted(i));
        SearchStep(v3, msgid, reqid, verified, accepted, q, i, calls, handled, took, settle, stop, more);
        Assoc(old(log), calls, more);
        handled, calls := handled || took, calls + more;
        if !stop {
          orp := rp;
          rp := rp.nextRequest;
          i := i + 1;
        }
      }
      if !stop {
        SearchEnds(v3, msgid, reqid, verified, accepted, q, calls, handled);
      }
    }

    /** The part of _Api_sessProcessPacket for a response. The callback of a matching request may
        decline, and then the search goes on; at most one request leaves the queue. */
    method ProcessResponse(v3: bool, msgid: int, reqid: int, report: bool, notInTime: bool,
                           verified: nat -> bool, accepted: nat -> bool, built: bool, sent: bool, now: int)
      returns (handled: bool, ghost found: Found, ghost removed: bool)
      requires Valid()
      modifies this`requests, this`requestsEnd, this`queue, this`log, ids, queue
      ensures Valid() && found == old(Search(v3, msgid, reqid, verified, accepted, queue, 0)) && handled == found.handled
      ensures removed == (found.settle && !(report && notInTime && old(queue[found.at].retries) <= retries))
      ensures queue == if removed then old(queue)[..found.at] + old(queue)[found.at + 1..] else old(queue)
      ensures found.settle && !removed ==>
                var rp := old(queue)[found.at];
                rp.retries == old(queue[found.at].retries) + 1 && rp.draw == old(ids.draws)
      ensures log == old(log) + found.calls +
                if removed then [Left(old(queue)[found.at])]
                else if found.settle && built then [Sent(old(queue)[found.at], old(queue[found.at].transmissions) + 1)]
                else []
    {
      hide Valid, Search;
      var rp, orp, settle;
      rp, orp, handled, settle, found := FindRequest(v3, msgid, reqid, verified, accepted);
      removed := false;
      if settle {
        removed := Settle(rp, orp, report, notInTime, built, sent, now, found.at);
      }
    }

    /** The part of Client_pduCreate that matters here: a PDU gets the next message id. */
    method CreatePdu() returns (msgid: int, ghost draw: nat)
      requires Valid()
      modifies ids
      ensures Valid() && draw == old(ids.draws) < ids.draws && msgid == ids.At(draw)
      ensures forall i :: 0 <= i < |queue| ==> queue[i].draw != draw
    {
      hide Quiet, Bounded, Open, IsQueue, DrawsDistinct;
      draw := ids.draws;
      msgid := ids.GetNextMsgid();
      forall i | 0 <= i < |queue|
        ensures Fits(queue[i]) && queue[i].draw != draw
      {
        assert old(Fits(queue[i]));
        FitsIsOpen(queue[i]);
        StillFits(queue[i]);
      }
    }

    /** Fewer than Period draws apart, the ids of two outstanding requests differ: a v3 response is
        for one of them at most. */
    lemma IdsDiffer(i: nat, j: nat, msgid: int)
      requires Valid() && i < |queue| && j < |queue| && i != j
      requires queue[i].draw < queue[j].draw + Period(ids.bits16) && queue[j].draw < queue[i].draw + Period(ids.bits16)
      ensures queue[i].messageId != queue[j].messageId
      ensures !(IsFor(queue[i], true, msgid, 0) && IsFor(queue[j], true, msgid, 0))
    {
      hide Quiet, Bounded, Open, IsQueue, DrawsDistinct;
      FitsAt(i);
      FitsAt(j);
      var a, b := queue[i].draw, queue[j].draw;
      if a < b {
        Distinct(ids.first, a, b, ids.bits16);
      } else {
        DrawsDiffer(i, j);
        Distinct(ids.first, b, a, ids.bits16);
      }
    }

    lemma DrawsDiffer(i: nat, j: nat)
      requires Valid() && i < |queue| && j < |queue| && i != j
      ensures queue[i].draw != queue[j].draw
    {
      var a, b := if i < j then i else j, if i < j then j else i;
      assert queue[a].draw != queue[b].draw;
    }
  }

  /** The links when the request in front of the one at k points to the one behind it. */
  twostate lemma ChainWithout(before: seq<Request>, new after: seq<Request>, new k: nat)
    requires k < |before| && after == before[..k] + before[k + 1..]
    requires forall i {:trigger old(before[i].nextRequest)} :: 0 <= i < |before| ==>
               old(before[i].nextRequest) == if i + 1 < |before| then before[i + 1] else null
    requires forall i {:trigger before[i].nextRequest} :: 0 <= i < |before| && i + 1 != k ==>
               before[i].nextRequest == old(before[i].nextRequest)
    requires k > 0 ==> before[k - 1].nextRequest == old(before[k].nextRequest)
    ensures forall i {:trigger after[i].nextRequest} :: 0 <= i < |after| ==>
              after[i].nextRequest == if i + 1 < |after| then after[i + 1] else null
  {
    forall i | 0 <= i < |after|
      ensures after[i].nextRequest == if i + 1 < |after| then after[i + 1] else null
    {
      var j := if i < k then i else i + 1;
      assert after[i] == before[j];
      assert i + 1 < |after| ==> after[i + 1] == before[if i + 1 < k then i + 1 else i + 2];
    }
  }

  ghost predicate DrawsDistinct(q: seq<Request>)
    reads q`draw
  {
    forall i, j :: 0 <= i < j < |q| ==> q[i].draw != q[j].draw
  }

  lemma DrawsWithout(q: seq<Request>, k: nat)
    requires DrawsDistinct(q) && k < |q|
    ensures DrawsDistinct(q[..k] + q[k + 1..])
  {
  }

  /** One of them got a later draw than the others. */
  twostate lemma DrawsRenewed(q: seq<Request>, new rp: Request)
    requires old(DrawsDistinct(q)) && forall r :: r in q && r != rp ==> r.draw == old(r.draw) && r.draw < rp.draw
    ensures DrawsDistinct(q)
  {
    forall i, j | 0 <= i < j < |q|
      ensures q[i].draw != q[j].draw
    {
      assert old(q[i].draw) != old(q[j].draw);
      assert q[i] in q && q[j] in q;
    }
  }

  lemma DrawsAppend(q: seq<Request>, r: Request)
    requires DrawsDistinct(q) && forall i :: 0 <= i < |q| ==> q[i].draw != r.draw
    ensures DrawsDistinct(q + [r])
  {
  }

  twostate lemma NewIsOpen(log: seq<Event>, new r: Request)
    requires fresh(r)
    ensures Open(log, r, 0)
  {
  }

  /** Which requests have expired with no retry left. */
  ghost function Exhausted(q: seq<Request>, retries: int, now: int): (e: seq<bool>)
    reads q
    ensures |e| == |q|
    ensures forall i :: 0 <= i < |q| ==> e[i] == (q[i].expireM < now && q[i].retries >= retries)
  {
    seq(|q|, i requires 0 <= i < |q| reads q => q[i].expireM < now && q[i].retries >= retries)
  }

  /** The requests that are not marked. */
  ghost function Keep(q: seq<Request>, marked: seq<bool>): seq<Request>
    requires |q| <= |marked|
  {
    if q == [] then []
    else if marked[|q| - 1] then Keep(q[..|q| - 1], marked)
    else Keep(q[..|q| - 1], marked) + [q[|q| - 1]]
  }

  lemma KeepNext(q: seq<Request>, marked: seq<bool>, i: nat)
    requires i < |q| == |marked|
    ensures Keep(q[..i + 1], marked) == if marked[i] then Keep(q[..i], marked) else Keep(q[..i], marked) + [q[i]]
  {
    assert q[..i + 1][..i] == q[..i];
  }

  /** Lists of events put behind one another. */
  ghost function Flat(plan: seq<seq<Event>>): seq<Event> {
    if plan == [] then [] else Flat(plan[..|plan| - 1]) + plan[|plan| - 1]
  }

  lemma FlatNext(plan: seq<seq<Event>>, i: nat)
    requires i < |plan|
    ensures Flat(plan[..i + 1]) == Flat(plan[..i]) + plan[i]
  {
    assert plan[..i + 1][..i] == plan[..i];
  }

  lemma SameAt(q: seq<Request>, k: nat, all: seq<Request>, i: nat)
    requires k < |q| && i <= |all| && q[k..] == all[i..]
    ensures i < |all| && q[k] == all[i]
  {
    assert q[k] == q[k..][0];
    assert |all[i..]| > 0;
    assert all[i] == all[i..][0];
  }

  /** The queue on both sides of the position, after one turn of the timeout loop. */
  lemma KeepTurn(q: seq<Request>, r: seq<Request>, all: seq<Request>, marked: seq<bool>, k: nat, i: nat, removed: bool)
    requires k < |q| && i < |all| == |marked| && removed == marked[i]
    requires q[..k] == Keep(all[..i], marked) && q[k..] == all[i..]
    requires r == if removed then q[..k] + q[k + 1..] else q
    ensures var m := if removed then k else k + 1;
            && m <= |r| && r[..m] == Keep(all[..i + 1], marked) && r[m..] == all[i + 1..]
            && (m < |r| <==> k + 1 < |q|) && (m < |r| ==> r[m] == q[k + 1])
            && (m > 0 ==> r[m - 1] == q[if removed then k - 1 else k])
  {
    hide Keep;
    KeepNext(all, marked, i);
    SameAt(q, k, all, i);
    SameBehind(q, k, all, i);
    if removed {
      WithoutAt(q, k);
    } else {
      assert q[..k + 1] == q[..k] + [q[k]];
    }
  }

  lemma SameBehind(q: seq<Request>, k: nat, all: seq<Request>, i: nat)
    requires k < |q| && i < |all| && q[k..] == all[i..]
    ensures q[k + 1..] == all[i + 1..]
  {
    assert q[k..][1..] == q[k + 1..] && all[i..][1..] == all[i + 1..];
  }

  lemma WithoutAt(q: seq<Request>, k: nat)
    requires k < |q|
    ensures var r := q[..k] + q[k + 1..];
            && r[..k] == q[..k] && r[k..] == q[k + 1..] && |r| == |q| - 1
            && (k < |r| ==> r[k] == q[k + 1]) && (k > 0 ==> r[k - 1] == q[k - 1])
  {
  }

  // ----- counting in the log, over whole runs --------------------------------------------

  ghost function Transmissions(log: seq<Event>, r: Request): nat {
    if log == [] then 0
    else Transmissions(log[..|log| - 1], r) + if log[|log| - 1].Sent? && log[|log| - 1].r == r then 1 else 0
  }

  ghost function Departures(log: seq<Event>, r: Request): nat {
    if log == [] then 0
    else Departures(log[..|log| - 1], r) + if log[|log| - 1] == Left(r) then 1 else 0
  }

  lemma {:induction false} TransmissionsBounded(log: seq<Event>, r: Request, limit: int, top: int)
    requires Bounded(log, limit) && top >= 0
    requires forall i :: 0 <= i < |log| && log[i].Sent? && log[i].r == r ==> log[i].n <= top
    ensures Transmissions(log, r) <= top
    decreases |log|
  {
    if log != [] {
      var p, e := log[..|log| - 1], log[|log| - 1];
      assert Bounded(p, limit);
      TransmissionsBounded(p, r, limit, if e.Sent? && e.r == r then e.n - 1 else top);
    }
  }

  /** A request that has not left is not counted, and one that has, once. */
  lemma {:induction false} LeavesOnce(log: seq<Event>, r: Request)
    requires Quiet(log)
    ensures Departures(log, r) <= 1
    ensures Departures(log, r) == 0 <==> forall i :: 0 <= i < |log| ==> log[i] != Left(r)
  {
    if log != [] {
      var p, e := log[..|log| - 1], log[|log| - 1];
      assert Quiet(p);
      LeavesOnce(p, r);
      assert forall i :: 0 <= i < |p| ==> p[i] == log[i];
    }
  }

  /** What the program does, or what happens to it. */
  datatype Step =
    | Send(reqid: int, built: bool, fitsMaximum: bool, sent: bool, expectResponse: bool, hasCallback: bool, timeout: int)
    | Response(v3: bool, msgid: int, reqid: int, report: bool, notInTime: bool,
               verified: nat -> bool, accepted: nat -> bool, built: bool, sent: bool)
    | Expiry(builtAt: nat -> bool, sentAt: nat -> bool)

  lemma {:induction false} KeepWithin(q: seq<Request>, marked: seq<bool>)
    requires |q| <= |marked|
    ensures forall r :: r in Keep(q, marked) ==> r in q
  {
    if q != [] {
      KeepWithin(q[..|q| - 1], marked);
    }
  }

  method Perform(s: Session, step: Step, now: int)
    requires s.Valid()
    modifies s, s.ids, s.queue
    ensures s.Valid() && forall r :: r in s.queue ==> r in old(s.queue) || fresh(r)
  {
    hide Session.Valid, Keep;
    match step {
      case Send(reqid, built, fitsMaximum, sent, expectResponse, hasCallback, timeout) =>
        var msgid, draw := s.CreatePdu();
        var _ := s.AsyncSend(reqid, msgid, built, fitsMaximum, sent, expectResponse, hasCallback, timeout, now, draw);
        forall r | r in s.queue
          ensures r in old(s.queue) || fresh(r)
        {
          var i :| 0 <= i < |s.queue| && s.queue[i] == r;
          assert i < |old(s.queue)| ==> s.queue[..|old(s.queue)|][i] == r;
        }
      case Response(v3, msgid, reqid, report, notInTime, verified, accepted, built, sent) =>
        var _, _, _ := s.ProcessResponse(v3, msgid, reqid, report, notInTime, verified, accepted, built, sent, now);
      case Expiry(built, sent) =>
        ghost var marked := Exhausted(s.queue, s.retries, now);
        var visited := s.Timeout(now, built, sent);
        KeepWithin(old(s.queue)[..visited], marked);
    }
  }

  /** Over any run, no request is transmitted more than two times more often than the session's
      retries say, and none leaves the queue twice or has anything happen to it afterwards. */
  method Run(s: Session, steps: seq<(Step, int)>)
    requires s.Valid() && s.queue == [] && s.log == []
    modifies s, s.ids
    ensures s.Valid() && Quiet(s.log)
    ensures forall i :: 0 <= i < |s.log| ==>
              && Transmissions(s.log, s.log[i].r) <= s.MaxRetries() + 1
              && Departures(s.log, s.log[i].r) <= 1
  {
    hide Session.Valid, Quiet;
    var k := 0;
    while k < |steps|
      invariant 0 <= k <= |steps| && s.Valid() && fresh(s.queue)
    {
      ghost var before := s.queue;
      Perform(s, steps[k].0, steps[k].1);
      forall i | 0 <= i < |s.queue|
        ensures fresh(s.queue[i])
      {
        assert s.queue[i] in s.queue;
        assert s.queue[i] in before ==> fresh(s.queue[i]);
      }
      k := k + 1;
    }
    RunCounts(s);
  }

  lemma RunCounts(s: Session)
    requires s.Valid()
    ensures Quiet(s.log)
    ensures forall i :: 0 <= i < |s.log| ==>
              && Transmissions(s.log, s.log[i].r) <= s.MaxRetries() + 1
              && Departures(s.log, s.log[i].r) <= 1
  {
    forall i | 0 <= i < |s.log|
      ensures Transmissions(s.log, s.log[i].r) <= s.MaxRetries() + 1 && Departures(s.log, s.log[i].r) <= 1
    {
      TransmissionsBounded(s.log, s.log[i].r, s.MaxRetries() + 1, s.MaxRetries() + 1);
      LeavesOnce(s.log, s.log[i].r);
    }
  }
}
