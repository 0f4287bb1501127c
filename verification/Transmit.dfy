/** Sending what is queued: the oldest message first, until the queue is empty or the network asks to wait. */
module Transmit {
  import opened Bytes
  import opened QueueSteps
  import opened QueueLayout
  import opened QueueReading
  import opened QueueFifo
  import opened Queue

  datatype NetworkResult = OK | ErrorRetryLater | ErrorNoRetry

  /** A reboot event to post, a core dump to upload, plain or compressed, or attributes to patch. */
  datatype Kind = EventPost | PlainUpload | GzipUpload | AttributesPatch

  /** A request, with the entry's bytes behind its type. */
  datatype Request = Request(kind: Kind, body: seq<byte>)

  const REBOOT_EVENT: byte := 'R' as int
  const CORE_UPLOAD: byte := 'C' as int
  const CORE_UPLOAD_WITH_GZIP: byte := 'c' as int
  const ATTRIBUTES: byte := 'A' as int

  /** What an entry is asked to be sent as: at most one request, by its first byte. */
  function RequestsFor(entry: seq<byte>): (requests: seq<Request>)
    ensures |requests| <= 1
  {
    if entry == [] then []
    else if entry[0] == REBOOT_EVENT then [Request(EventPost, entry[1..])]
    else if entry[0] == CORE_UPLOAD then [Request(PlainUpload, entry[1..])]
    else if entry[0] == CORE_UPLOAD_WITH_GZIP then [Request(GzipUpload, entry[1..])]
    else if entry[0] == ATTRIBUTES then [Request(AttributesPatch, entry[1..])]
    else []
  }

  /** The network as the daemon sees it: some answer to each request in turn. */
  class Network {
    const answers: nat -> NetworkResult
    var requests: seq<Request>

    method Send(request: Request) returns (result: NetworkResult)
      modifies this
      ensures requests == old(requests) + [request]
      ensures result == answers(|old(requests)|)
    {
      result := answers(|requests|);
      requests := requests + [request];
    }
  }

  /** Sends an entry as its type asks for; an entry of no known type counts as not worth repeating. */
  method SendEntry(net: Network, entry: seq<byte>) returns (result: NetworkResult)
    modifies net
    ensures net.requests == old(net.requests) + RequestsFor(entry)
    ensures result == if RequestsFor(entry) == [] then ErrorNoRetry else net.answers(|old(net.requests)|)
  {
    result := ErrorNoRetry;
    if entry == [] {
      return;
    }
    var kind := entry[0];
    if kind == REBOOT_EVENT {
      result := net.Send(Request(EventPost, entry[1..]));
    } else if kind == CORE_UPLOAD || kind == CORE_UPLOAD_WITH_GZIP {
      var gzipped := kind == CORE_UPLOAD_WITH_GZIP;
      result := net.Send(Request(if gzipped then GzipUpload else PlainUpload, entry[1..]));
    } else if kind == ATTRIBUTES {
      result := net.Send(Request(AttributesPatch, entry[1..]));
    }
  }

  // ---------- what one call does ----------

  /** The requests made, and how many entries from the front are then gone. */
  datatype Report = Report(requests: seq<Request>, gone: nat)

  /** Serving the entries `q` in order when the next request is the `k`-th. */
  function Serve(q: seq<seq<byte>>, answers: nat -> NetworkResult, k: nat): (r: Report)
    ensures r.gone <= |q|
  {
    if q == [] then Report([], 0)
    else
      var asked := RequestsFor(q[0]);
      if asked != [] && answers(k) == ErrorRetryLater then Report(asked, 0)
      else
        var r := Serve(q[1..], answers, k + |asked|);
        Report(asked + r.requests, 1 + r.gone)
  }

  method TakeHead(queue: Queue, ghost l: Layout) returns (head: Head)
    requires queue.Valid() && Good(queue.Abs(), l)
    modifies queue`canCompleteRead
    ensures queue.Valid() && Good(queue.Abs(), l)
    ensures head == if l.Unread() == [] then Nothing else Message(l.Unread()[0].payload)
    ensures l.Unread() != [] ==> queue.canCompleteRead && l.upper != []
    ensures l.Unread() == [] ==> queue.Abs() == old(queue.Abs())
  {
    hide Good, Clean, Shape;
    PeekFacts(queue.Abs(), l);
    StepKeepsGood(queue.Abs(), l, Peek);
    head := queue.ReadHeadMessage();
  }

  method DropHead(queue: Queue, ghost l: Layout)
    requires queue.Valid() && Good(queue.Abs(), l) && queue.canCompleteRead && l.upper != []
    modifies queue, queue.buf
    ensures queue.Valid() && Good(queue.Abs(), AfterTake(l))
  {
    hide Good, Clean, Shape;
    StepKeepsGood(queue.Abs(), l, Complete);
    CompleteFacts(queue.Abs());
    var done := queue.CompleteReadMessage();
  }

  /** How serving from the `gone`-th entry on goes: it ends, waits, or moves on by one. */
  lemma ServeStep(q: seq<seq<byte>>, gone: nat, answers: nat -> NetworkResult, requests: seq<Request>)
    requires gone <= |q|
    ensures var r := Serve(q[gone..], answers, |requests|);
            if gone == |q| then r == Report([], 0)
            else
              var asked := RequestsFor(q[gone]);
              if asked != [] && answers(|requests|) == ErrorRetryLater then r == Report(asked, 0)
              else var r' := Serve(q[gone + 1..], answers, |requests + asked|);
                   r.gone == 1 + r'.gone && requests + r.requests == requests + asked + r'.requests
  {
    hide RequestsFor;
    if gone < |q| {
      assert q[gone..][0] == q[gone] && q[gone..][1..] == q[gone + 1..];
    }
  }

  method ProcessTxQueue(queue: Queue, net: Network, enabled: bool, ghost l: Layout) returns (ok: bool, ghost l': Layout)
    requires queue.Valid() && Good(queue.Abs(), l)
    modifies queue, queue.buf, net
    ensures queue.Valid() && Good(queue.Abs(), l')
    ensures !enabled ==> ok && l' == l && queue.Abs() == old(queue.Abs()) && net.requests == old(net.requests)
    ensures enabled ==>
              var q := Payloads(l.Unread());
              var r := Serve(q, net.answers, |old(net.requests)|);
              && net.requests == old(net.requests) + r.requests
              && Payloads(l'.Unread()) == q[r.gone..]
              && (ok <==> r.gone == |q|)
  {
    hide Good, AfterTake, RequestsFor, IsState, Serve;
    l' := l;
    if !enabled {
      return true, l;
    }
    ghost var q := Payloads(l.Unread());
    ghost var all := Serve(q, net.answers, |old(net.requests)|);
    ghost var gone := 0;
    while true
      invariant queue.Valid() && Good(queue.Abs(), l')
      invariant gone <= |q| && Payloads(l'.Unread()) == q[gone..]
      invariant var r := Serve(q[gone..], net.answers, |net.requests|);
                all.gone == gone + r.gone && old(net.requests) + all.requests == net.requests + r.requests
      decreases |q| - gone
    {
      ServeStep(q, gone, net.answers, net.requests);
      var head := TakeHead(queue, l');
      if head == Nothing {
        return true, l';
      }
      assert q[gone..][0] == q[gone] == head.payload && q[gone..][1..] == q[gone + 1..];
      var rc := SendEntry(net, head.payload);
      if rc == ErrorRetryLater {
        return false, l';
      }
      DropHead(queue, l');
      l' := AfterTake(l');
      gone := gone + 1;
    }
  }

  // ---------- what any number of calls do ----------

  /** The requests that were answered with something other than "later", the first being the `k`-th. */
  function Settled(requests: seq<Request>, answers: nat -> NetworkResult, k: nat): seq<Request> {
    if requests == [] then []
    else (if answers(k) == ErrorRetryLater then [] else [requests[0]]) + Settled(requests[1..], answers, k + 1)
  }

  /** The requests that the entries call for, in order. */
  function Wanted(q: seq<seq<byte>>): seq<Request> {
    if q == [] then [] else RequestsFor(q[0]) + Wanted(q[1..])
  }

  /** `n` calls one after the other, with nothing written in between. */
  function Calls(q: seq<seq<byte>>, answers: nat -> NetworkResult, k: nat, n: nat): (r: Report)
    ensures r.gone <= |q|
    decreases n
  {
    if n == 0 then Report([], 0)
    else
      var first := Serve(q, answers, k);
      var rest := Calls(q[first.gone..], answers, k + |first.requests|, n - 1);
      Report(first.requests + rest.requests, first.gone + rest.gone)
  }

  lemma {:induction false} SettledConcat(a: seq<Request>, b: seq<Request>, answers: nat -> NetworkResult, k: nat)
    ensures Settled(a + b, answers, k) == Settled(a, answers, k) + Settled(b, answers, k + |a|)
    decreases |a|
  {
    if a == [] {
      assert a + b == b;
    } else {
      assert (a + b)[1..] == a[1..] + b;
      SettledConcat(a[1..], b, answers, k + 1);
    }
  }

  lemma {:induction false} WantedConcat(a: seq<seq<byte>>, b: seq<seq<byte>>)
    ensures Wanted(a + b) == Wanted(a) + Wanted(b)
    decreases |a|
  {
    if a == [] {
      assert a + b == b;
    } else {
      assert (a + b)[1..] == a[1..] + b;
      WantedConcat(a[1..], b);
    }
  }

  lemma WantedFirst(q: seq<seq<byte>>, n: nat)
    requires 0 < n <= |q|
    ensures Wanted(q[..n]) == RequestsFor(q[0]) + Wanted(q[1..][..n - 1])
  {
    assert q[..n][1..] == q[1..][..n - 1];
  }

  /** The request a call stopped at, if it did not empty the queue. */
  function Waiting(q: seq<seq<byte>>, gone: nat): seq<Request> {
    if gone < |q| then RequestsFor(q[gone]) else []
  }

  /**
   * One call makes the entries' requests in order. It stops early exactly at an entry whose request is answered "later",
   * which stays at the head; all requests before that were settled, and exactly their entries, and those that call for
   * no request, are gone.
   */
  lemma {:induction false} ServeInOrder(q: seq<seq<byte>>, answers: nat -> NetworkResult, k: nat)
    ensures var r := Serve(q, answers, k);
            && r.requests == Wanted(q[..r.gone]) + Waiting(q, r.gone)
            && Settled(r.requests, answers, k) == Wanted(q[..r.gone])
            && (r.gone < |q| ==>
                  RequestsFor(q[r.gone]) != [] && answers(k + |r.requests| - 1) == ErrorRetryLater)
    decreases |q|
  {
    hide RequestsFor, Wanted, Settled, Serve, Waiting;
    SettledNothing(answers, k);
    ServeUnfolds(q, answers, k);
    if q == [] {
      WaitingNothing(q, 0);
    } else {
      var asked := RequestsFor(q[0]);
      if asked != [] && answers(k) == ErrorRetryLater {
        SettledFirst(asked, answers, k);
        SettledNothing(answers, k + 1);
        WaitingNothing(q, 0);
        assert q[..0] == [] && asked[1..] == [];
      } else {
        var r' := Serve(q[1..], answers, k + |asked|);
        ServeInOrder(q[1..], answers, k + |asked|);
        WantedFirst(q, 1 + r'.gone);
        WaitingRest(q, 1 + r'.gone);
        if asked == [] {
          assert asked + r'.requests == r'.requests;
        } else {
          SettledFirst(asked + r'.requests, answers, k);
          assert (asked + r'.requests)[1..] == r'.requests && asked == [asked[0]];
        }
      }
    }
  }

  lemma ServeUnfolds(q: seq<seq<byte>>, answers: nat -> NetworkResult, k: nat)
    ensures Serve(q, answers, k) ==
            if q == [] then Report([], 0)
            else
              var asked := RequestsFor(q[0]);
              if asked != [] && answers(k) == ErrorRetryLater then Report(asked, 0)
              else Report(asked + Serve(q[1..], answers, k + |asked|).requests, 1 + Serve(q[1..], answers, k + |asked|).gone)
  {
    hide RequestsFor;
  }

  lemma WaitingNothing(q: seq<seq<byte>>, gone: nat)
    ensures gone >= |q| ==> Waiting(q, gone) == []
    ensures gone < |q| ==> Waiting(q, gone) == RequestsFor(q[gone])
  {
  }

  lemma WaitingRest(q: seq<seq<byte>>, gone: nat)
    requires 0 < gone <= |q|
    ensures Waiting(q, gone) == Waiting(q[1..], gone - 1)
  {
  }

  lemma SettledNothing(answers: nat -> NetworkResult, k: nat)
    ensures Settled([], answers, k) == [] && Wanted([]) == []
  {
  }

  lemma SettledFirst(requests: seq<Request>, answers: nat -> NetworkResult, k: nat)
    requires requests != []
    ensures Settled(requests, answers, k)
            == (if answers(k) == ErrorRetryLater then [] else [requests[0]]) + Settled(requests[1..], answers, k + 1)
  {
  }

  /**
   * An entry of one of the four types in front causes exactly one request, of its kind, and leaves exactly when that is
   * not answered "later"; any other entry causes none and leaves.
   */
  lemma EntryInFront(entry: seq<byte>, q: seq<seq<byte>>, answers: nat -> NetworkResult, k: nat)
    ensures var r := Serve([entry] + q, answers, k);
            if entry != [] && entry[0] in {0x52, 0x43, 0x63, 0x41} then
              var kind := if entry[0] == 0x52 then EventPost else if entry[0] == 0x43 then PlainUpload
                          else if entry[0] == 0x63 then GzipUpload else AttributesPatch;
              var request := Request(kind, entry[1..]);
              if answers(k) == ErrorRetryLater then r == Report([request], 0)
              else r == Report([request] + Serve(q, answers, k + 1).requests, 1 + Serve(q, answers, k + 1).gone)
            else r == Report(Serve(q, answers, k).requests, 1 + Serve(q, answers, k).gone)
  {
    hide Serve;
    ServeUnfolds([entry] + q, answers, k);
    assert ([entry] + q)[1..] == q;
    assert [] + Serve(q, answers, k).requests == Serve(q, answers, k).requests;
  }

  /**
   * Over any number of calls and any answers: the settled requests are exactly, in order and once each, those that the
   * entries that have left the queue call for, so nothing is lost while the network says "later".
   */
  lemma {:induction false} AtLeastOnce(q: seq<seq<byte>>, answers: nat -> NetworkResult, k: nat, n: nat)
    ensures var r := Calls(q, answers, k, n);
            Settled(r.requests, answers, k) == Wanted(q[..r.gone])
    decreases n
  {
    hide RequestsFor, Wanted, Settled, Serve;
    if n == 0 {
      SettledNothing(answers, k);
      assert q[..0] == [];
    } else {
      var first := Serve(q, answers, k);
      var left := q[first.gone..];
      var rest := Calls(left, answers, k + |first.requests|, n - 1);
      ServeInOrder(q, answers, k);
      AtLeastOnce(left, answers, k + |first.requests|, n - 1);
      SettledConcat(first.requests, rest.requests, answers, k);
      WantedConcat(q[..first.gone], left[..rest.gone]);
      assert q[..first.gone] + left[..rest.gone] == q[..first.gone + rest.gone];
    }
  }
}
