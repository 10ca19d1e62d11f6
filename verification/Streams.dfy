/** Sequences of words moved by valid/ready handshakes. */
module Streams {

  function Flatten<T>(xss: seq<seq<T>>): seq<T> {
    if xss == [] then [] else Flatten(xss[..|xss| - 1]) + xss[|xss| - 1]
  }

  lemma FlattenPush<T>(xss: seq<seq<T>>, xs: seq<T>)
    ensures Flatten(xss + [xs]) == Flatten(xss) + xs
  {
    assert (xss + [xs])[..|xss|] == xss;
  }

  lemma Regroup<T>(a: seq<T>, b: seq<T>, c: seq<T>)
    ensures (a + b) + c == a + (b + c)
  {
  }

  lemma {:induction false} FlattenLength<T>(xss: seq<seq<T>>, u: nat)
    requires forall k :: 0 <= k < |xss| ==> |xss[k]| == u
    ensures |Flatten(xss)| == |xss| * u
  {
    if xss != [] {
      FlattenLength(xss[..|xss| - 1], u);
      assert |xss| * u == (|xss| - 1) * u + u;
    }
  }

  lemma FlattenMoved<T>(xss: seq<seq<T>>, fires: bool, xs: seq<T>)
    ensures Flatten(xss + Moved(fires, xs)) == Flatten(xss) + if fires then xs else []
  {
    if fires {
      FlattenPush(xss, xs);
    } else {
      assert xss + [] == xss;
    }
  }

  /** What moves from the front of a queue to a log, and what is added behind. */
  lemma MovesFront<T>(log: seq<T>, queue: seq<T>, pushed: seq<T>, n: nat)
    requires n <= |queue|
    ensures (log + queue) + pushed == (log + queue[..n]) + (queue[n..] + pushed)
  {
    assert queue[..n] + queue[n..] == queue;
  }

  /** One more place of a sequence replaced by that of another. */
  lemma Splice<T>(next: seq<T>, before: seq<T>, j: nat)
    requires |next| == |before| && j < |next|
    ensures (next[..j] + before[j..])[j := next[j]] == next[..j + 1] + before[j + 1..]
  {
  }

  /** The word moved in one cycle, if the handshake completes. */
  function Moved<T>(fires: bool, word: T): seq<T> {
    if fires then [word] else []
  }

  /** What holds of every cycle of a device holds of the whole run: what was
      stored at first, followed by everything accepted, is everything delivered
      followed by what is stored in the end. */
  lemma {:induction false} RunConserves<T>(stored: seq<seq<T>>, accepted: seq<seq<T>>, delivered: seq<seq<T>>)
    requires |accepted| == |delivered| == |stored| - 1
    requires forall i :: 0 <= i < |accepted| ==> stored[i] + accepted[i] == delivered[i] + stored[i + 1]
    ensures stored[0] + Flatten(accepted) == Flatten(delivered) + stored[|accepted|]
  {
    var n := |accepted|;
    if n > 0 {
      RunConserves(stored[..n], accepted[..n - 1], delivered[..n - 1]);
      assert stored[n - 1] + accepted[n - 1] == delivered[n - 1] + stored[n];
      calc {
        stored[0] + Flatten(accepted);
        (stored[0] + Flatten(accepted[..n - 1])) + accepted[n - 1];
        Flatten(delivered[..n - 1]) + (stored[n - 1] + accepted[n - 1]);
        Flatten(delivered) + stored[n];
      }
    }
  }
}
