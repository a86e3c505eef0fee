// The scatter and gather of the aggregating server (thrift/contrib/async-test/test-server.cpp).
module Aggregator {
  // The loop of getValues sends to the next leaf, or a leaf that was sent to answers: with values,
  // or with an exception.
  datatype Event = Dispatch | Reply(leaf: nat, answer: Answer)
  datatype Answer = Values(values: seq<int>) | Exception

  // What can happen with n leaves: each is sent to once, in order, and answers at most once after
  // that, be it while the loop still runs.
  ghost predicate Possible(n: nat, events: seq<Event>) {
    forall i :: 0 <= i < |events| ==>
      match events[i]
      case Dispatch => Dispatched(events[..i]) < n
      case Reply(leaf, _) => leaf < Dispatched(events[..i]) && !Replied(events[..i], leaf)
  }

  function Dispatched(events: seq<Event>): nat {
    if events == [] then 0 else Dispatched(events[..|events| - 1]) + if events[|events| - 1].Dispatch? then 1 else 0
  }

  ghost predicate Replied(events: seq<Event>, leaf: nat) {
    exists i :: 0 <= i < |events| && events[i].Reply? && events[i].leaf == leaf
  }

  function Replies(events: seq<Event>): nat {
    if events == [] then 0 else Replies(events[..|events| - 1]) + if events[|events| - 1].Reply? then 1 else 0
  }

  // The values that came, in the order in which they came.
  function Gathered(events: seq<Event>): seq<int> {
    if events == [] then []
    else
      var last := events[|events| - 1];
      Gathered(events[..|events| - 1]) + if last.Reply? && last.answer.Values? then last.answer.values else []
  }

  // RequestContext, with what was done with it.
  class RequestContext {
    var ret: seq<int>
    var pendingCalls: int
    ghost var answered: seq<seq<int>>
    ghost var deleted: bool

    constructor (n: nat)
      ensures ret == [] && pendingCalls == n && answered == [] && !deleted
    {
      ret, pendingCalls, answered, deleted := [], n, [], false;
    }

    // clientReturn; a context that was deleted must not be touched.
    method ClientReturn(answer: Answer)
      requires !deleted
      modifies this
      ensures pendingCalls == old(pendingCalls) - 1
      ensures ret == old(ret) + (if answer.Values? then answer.values else [])
      ensures answered == old(answered) + (if pendingCalls == 0 then [ret] else []) && deleted == (pendingCalls == 0)
    {
      pendingCalls := pendingCalls - 1;
      match answer {
        case Values(subret) => ret := ret + subret;
        case Exception =>
      }
      if pendingCalls == 0 {
        answered := answered + [ret];
        deleted := true;
      }
    }
  }

  // Replies are of different leaves that were sent to, so there are no more than those.
  ghost function Leaves(events: seq<Event>): set<nat> {
    set i | 0 <= i < |events| && events[i].Reply? :: events[i].leaf
  }

  lemma {:induction false} PossiblePrefix(n: nat, events: seq<Event>, i: nat)
    requires Possible(n, events) && i <= |events|
    ensures Possible(n, events[..i])
  {
    assert forall j :: 0 <= j <= i ==> events[..i][..j] == events[..j];
  }

  lemma {:induction false} RepliesBounded(n: nat, events: seq<Event>)
    requires Possible(n, events)
    ensures |Leaves(events)| == Replies(events) && Dispatched(events) <= n
    ensures forall leaf :: leaf in Leaves(events) ==> leaf < Dispatched(events)
  {
    if events != [] {
      var before, last := events[..|events| - 1], events[|events| - 1];
      PossiblePrefix(n, events, |events| - 1);
      RepliesBounded(n, before);
      assert events == before + [last];
      if last.Reply? {
        assert last.leaf !in Leaves(before);
        assert Leaves(events) == Leaves(before) + {last.leaf};
      } else {
        assert Leaves(events) == Leaves(before);
      }
    }
  }

  lemma {:induction false} Below(s: set<nat>, n: nat)
    requires forall x :: x in s ==> x < n
    ensures |s| <= n
  {
    if n > 0 {
      Below(s - {n - 1}, n - 1);
    } else {
      assert s == {};
    }
  }

  // The context is answered and deleted when the last leaf has replied, and never before or after:
  // once, and if there is a leaf at all.
  method GetValues(n: nat, events: seq<Event>) returns (ctx: RequestContext)
    requires Possible(n, events)
    ensures ctx.answered == if 1 <= n && Replies(events) == n then [Gathered(events)] else []
    ensures ctx.deleted <==> 1 <= n && Replies(events) == n
  {
    ctx := new RequestContext(n);
    for i := 0 to |events|
      invariant ctx.pendingCalls == n - Replies(events[..i]) && ctx.ret == Gathered(events[..i])
      invariant ctx.answered == if 1 <= n && Replies(events[..i]) == n then [Gathered(events[..i])] else []
      invariant ctx.deleted <==> 1 <= n && Replies(events[..i]) == n
    {
      assert events[..i + 1][..i] == events[..i];
      if events[i].Reply? {
        NotAllYet(n, events, i);
        ctx.ClientReturn(events[i].answer);
      }
    }
    assert events[..|events|] == events;
  }

  // While a leaf is still to reply, fewer than n have.
  lemma {:induction false} NotAllYet(n: nat, events: seq<Event>, i: nat)
    requires Possible(n, events) && i < |events| && events[i].Reply?
    ensures Replies(events[..i]) < n
  {
    var before := events[..i];
    PossiblePrefix(n, events, i);
    RepliesBounded(n, before);
    assert events[i].leaf !in Leaves(before);
    Below(Leaves(before) + {events[i].leaf}, n);
  }
}
