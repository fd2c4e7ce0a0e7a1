/** The sending side of an unbounded crossbeam channel between two pipeline
    stages. A send fails once the receiving stage has gone away; the receiver
    hangs up after taking `hangUpAfter` messages, or never when that is `None`. */
module Channels {
  import opened Wrappers
  import opened Errors

  class Sender<T> {
    /** Every message delivered so far, in order. */
    var sent: seq<T>
    const hangUpAfter: Option<nat>

    /** A send made after `n` delivered messages still reaches the receiver. */
    predicate OpenAt(n: nat) {
      hangUpAfter.None? || n < hangUpAfter.value
    }

    /** How many of `n` further messages reach the receiver when `count` have
        already been delivered: the sender stops at the first failed send. */
    function Delivered(count: nat, n: nat): (k: nat)
      ensures k <= n
      ensures k == n <==> hangUpAfter.None? || count + n <= hangUpAfter.value || n == 0
    {
      if hangUpAfter.None? || count + n <= hangUpAfter.value then n
      else if count <= hangUpAfter.value then hangUpAfter.value - count
      else 0
    }

    /** A send that is delivered keeps every earlier one delivered. */
    lemma DeliveredNext(count: nat, m: nat)
      requires Delivered(count, m) == m && OpenAt(count + m)
      ensures Delivered(count, m + 1) == m + 1
    {
    }

    /** The first failed send fixes how many of any longer stream are delivered. */
    lemma DeliveredStops(count: nat, m: nat, n: nat)
      requires Delivered(count, m) == m && !OpenAt(count + m) && m < n
      ensures Delivered(count, n) == m
    {
    }

    /** The channel after sending the messages `out` in order, starting from
        `sent0`, with result `r`: the delivered prefix of `out` was added, and the
        result is the send error exactly when not all of `out` was delivered. */
    ghost predicate SentInOrder(sent0: seq<T>, out: seq<T>, r: Result<()>)
      reads this
    {
      var k := Delivered(|sent0|, |out|);
      && sent == sent0 + out[..k]
      && (k == |out| ==> r == Ok(()))
      && (k < |out| ==> r == Err(SendError))
    }

    constructor (hangUpAfter: Option<nat>)
      ensures sent == [] && this.hangUpAfter == hangUpAfter
    {
      sent := [];
      this.hangUpAfter := hangUpAfter;
    }

    /** `Sender::send`, with its error already converted by `From<SendError<T>>`. */
    method Send(x: T) returns (r: Result<()>)
      modifies this
      ensures OpenAt(|old(sent)|) ==> r == Ok(()) && sent == old(sent) + [x]
      ensures !OpenAt(|old(sent)|) ==> r == Err(FromSendError(x)) && sent == old(sent)
    {
      if OpenAt(|sent|) {
        sent := sent + [x];
        r := Ok(());
      } else {
        r := Err(FromSendError(x));
      }
    }
  }
}
