/** The many-producer, one-consumer channel through which the walk's visitors
    hand their outputs to the collecting thread. Each producer's messages are
    a queue; the order in which the consumer receives them is an arbitrary
    schedule of producer indices, after which every producer has dropped its
    sender and the rest of the queued messages are received. */
module Channel {

  function Flatten<T>(parts: seq<seq<T>>): seq<T> {
    if parts == [] then [] else parts[0] + Flatten(parts[1..])
  }

  lemma {:induction false} FlattenAppend<T>(xs: seq<seq<T>>, ys: seq<seq<T>>)
    ensures Flatten(xs + ys) == Flatten(xs) + Flatten(ys)
    decreases |xs|
  {
    if xs == [] {
      assert xs + ys == ys;
    } else {
      assert (xs + ys)[1..] == xs[1..] + ys;
      FlattenAppend(xs[1..], ys);
    }
  }

  /** Receiving the head of queue `s` moves exactly that message out of the
      queued contents. */
  lemma TakeHead<T>(queues: seq<seq<T>>, s: nat)
    requires s < |queues| && |queues[s]| > 0
    ensures multiset(Flatten(queues))
      == multiset(Flatten(queues[s := queues[s][1..]])) + multiset{queues[s][0]}
  {
    var q' := queues[s := queues[s][1..]];
    assert queues == queues[..s] + [queues[s]] + queues[s + 1..];
    assert q' == queues[..s] + [queues[s][1..]] + queues[s + 1..];
    FlattenAppend(queues[..s] + [queues[s]], queues[s + 1..]);
    FlattenAppend(queues[..s], [queues[s]]);
    FlattenAppend(queues[..s] + [queues[s][1..]], queues[s + 1..]);
    FlattenAppend(queues[..s], [queues[s][1..]]);
    assert Flatten([queues[s]]) == queues[s];
    assert Flatten([queues[s][1..]]) == queues[s][1..];
    assert queues[s] == [queues[s][0]] + queues[s][1..];
  }

  /** The consumer loop, which appends each received message to the output
      until every sender is gone: whatever the arrival schedule, it receives
      exactly the messages the producers sent, each once. */
  method Drain<T>(parts: seq<seq<T>>, schedule: seq<nat>) returns (received: seq<T>)
    ensures multiset(received) == multiset(Flatten(parts))
  {
    var queues := parts;
    received := [];
    var k := 0;
    while k < |schedule|
      invariant 0 <= k <= |schedule|
      invariant multiset(received) + multiset(Flatten(queues)) == multiset(Flatten(parts))
    {
      var s := schedule[k];
      if s < |queues| && |queues[s]| > 0 {
        TakeHead(queues, s);
        received := received + [queues[s][0]];
        queues := queues[s := queues[s][1..]];
      }
      k := k + 1;
    }
    received := received + Flatten(queues);
  }
}
