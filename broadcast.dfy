/**
 Broadcast fan-out: one push per distinct non-empty known id, each outcome
 counted, a failed push never stopping the loop. `accepts` stands for the
 messaging API: `accepts(u)` is whether the push to `u` succeeded.
 */
module Broadcast {
  import opened Registry

  /** One outbound push message. */
  datatype Push = Push(to: UserId, text: string)

  /** `success_count` and `fail_count`. */
  datatype Tally = Tally(success: nat, failure: nat)

  /** What `send_startup_broadcast` ends with: the early return on an empty
      recipient set, or the counts of a finished loop. */
  datatype Outcome = NoRecipients | Completed(tally: Tally)

  ghost function Delivered(targets: set<UserId>, accepts: UserId -> bool): set<UserId>
  {
    set u | u in targets && accepts(u)
  }

  ghost function Undelivered(targets: set<UserId>, accepts: UserId -> bool): set<UserId>
  {
    set u | u in targets && !accepts(u)
  }

  /** The counts a fan-out over `targets` must report. */
  ghost function ExpectedTally(targets: set<UserId>, accepts: UserId -> bool): Tally
  {
    Tally(|Delivered(targets, accepts)|, |Undelivered(targets, accepts)|)
  }

  /** Every target is counted exactly once, as a success or as a failure. */
  lemma TallyCoversTargets(targets: set<UserId>, accepts: UserId -> bool)
    ensures ExpectedTally(targets, accepts).success + ExpectedTally(targets, accepts).failure == |targets|
  {
    assert targets == Delivered(targets, accepts) + Undelivered(targets, accepts);
  }

  /** The ids `pushes` went to. */
  ghost function RecipientsOf(pushes: seq<Push>): set<UserId>
  {
    if pushes == [] then {} else RecipientsOf(pushes[..|pushes| - 1]) + {pushes[|pushes| - 1].to}
  }

  /** `pushes` is one push of `text` to each target and to nothing else: it
      reaches every target and is no longer than the set of targets. */
  ghost predicate OnePushEach(pushes: seq<Push>, targets: set<UserId>, text: string)
  {
    && RecipientsOf(pushes) == targets
    && |pushes| == |targets|
    && (forall i :: 0 <= i < |pushes| ==> pushes[i].text == text)
  }

  lemma {:induction false} RecipientsAt(pushes: seq<Push>, i: nat)
    requires i < |pushes|
    ensures pushes[i].to in RecipientsOf(pushes)
  {
    if i < |pushes| - 1 {
      RecipientsAt(pushes[..|pushes| - 1], i);
    }
  }

  lemma {:induction false} RecipientsAtMost(pushes: seq<Push>)
    ensures |RecipientsOf(pushes)| <= |pushes|
  {
    if pushes != [] {
      RecipientsAtMost(pushes[..|pushes| - 1]);
    }
  }

  /** No target is pushed to twice. */
  lemma {:induction false} PushesDistinct(pushes: seq<Push>, targets: set<UserId>, text: string)
    requires OnePushEach(pushes, targets, text)
    ensures forall i, j :: 0 <= i < j < |pushes| ==> pushes[i].to != pushes[j].to
  {
    if pushes != [] {
      var n := |pushes| - 1;
      DropLastPush(pushes, targets, text);
      PushesDistinct(pushes[..n], targets - {pushes[n].to}, text);
      forall i | 0 <= i < n ensures pushes[i].to != pushes[n].to {
        RecipientsAt(pushes[..n], i);
      }
    }
  }

  /** How many of `pushes` went through. */
  function Accepted(pushes: seq<Push>, accepts: UserId -> bool): (n: nat)
    ensures n <= |pushes|
  {
    if pushes == [] then 0
    else Accepted(pushes[..|pushes| - 1], accepts) + (if accepts(pushes[|pushes| - 1].to) then 1 else 0)
  }

  /** An iteration order of `users`: every id once, in an order nobody
      chooses (Python's iteration over a `set`). */
  method Enumerate(users: set<UserId>) returns (order: seq<UserId>)
    ensures Ids(order) == users && |order| == |users|
  {
    order := [];
    var remaining := users;
    while remaining != {}
      invariant Ids(order) !! remaining && Ids(order) + remaining == users
      invariant |order| == |Ids(order)|
      decreases remaining
    {
      var u :| u in remaining;
      assert (order + [u])[..|order|] == order;
      IdsSnoc(order + [u]);
      order := order + [u];
      remaining := remaining - {u};
    }
  }

  /** The pushes of the loop body, visiting `order` and skipping "". */
  ghost function PushesFor(order: seq<UserId>, text: string): seq<Push>
  {
    if order == [] then []
    else
      var u := order[|order| - 1];
      PushesFor(order[..|order| - 1], text) + (if u != "" then [Push(u, text)] else [])
  }

  /** Visiting an order that repeats no id pushes once to each of its
      non-empty ids. */
  lemma {:induction false} PushesForCovers(order: seq<UserId>, text: string)
    requires |Ids(order)| == |order|
    ensures OnePushEach(PushesFor(order, text), Ids(order) - {""}, text)
  {
    if order != [] {
      var n := |order| - 1;
      var init, u := order[..n], order[n];
      LastIsNew(order);
      IdsSnoc(order);
      PushesForCovers(init, text);
      if u != "" {
        assert Ids(order) - {""} == (Ids(init) - {""}) + {u};
        PushOneMore(PushesFor(init, text), Ids(init) - {""}, u, text);
      } else {
        assert PushesFor(order, text) == PushesFor(init, text);
        assert Ids(order) - {""} == Ids(init) - {""};
      }
    }
  }

  /** In an order that repeats no id, the last id is new. */
  lemma LastIsNew(order: seq<UserId>)
    requires |Ids(order)| == |order| && order != []
    ensures order[|order| - 1] !in Ids(order[..|order| - 1])
    ensures |Ids(order[..|order| - 1])| == |order| - 1
  {
    IdsAtMost(order[..|order| - 1]);
    IdsSnoc(order);
  }

  /** The loop of `send_startup_broadcast` and of the admin broadcast: visit
      every id of `users` once, in no particular order, skip "", push `text`
      to the rest and count the outcomes. */
  method FanOut(users: set<UserId>, text: string, accepts: UserId -> bool)
    returns (tally: Tally, pushes: seq<Push>)
    ensures OnePushEach(pushes, users - {""}, text)
    ensures tally.success == Accepted(pushes, accepts) && tally.success + tally.failure == |pushes|
    ensures tally == ExpectedTally(users - {""}, accepts)
  {
    var order := Enumerate(users);
    tally := Tally(0, 0);
    pushes := [];
    for k := 0 to |order|
      invariant pushes == PushesFor(order[..k], text)
      invariant tally.success == Accepted(pushes, accepts) && tally.success + tally.failure == |pushes|
    {
      var u := order[k];
      assert order[..k + 1][..k] == order[..k];
      if u != "" {
        var before := pushes;
        pushes := pushes + [Push(u, text)];
        assert pushes[..|before|] == before;
        if accepts(u) {
          tally := tally.(success := tally.success + 1);
        } else {
          tally := tally.(failure := tally.failure + 1);
        }
      }
    }
    assert order[..|order|] == order;
    PushesForCovers(order, text);
    AcceptedCountsDelivered(pushes, users - {""}, text, accepts);
  }

  /** Counting the pushes that went through counts the targets the API
      accepted. */
  lemma {:induction false} AcceptedCountsDelivered(pushes: seq<Push>, targets: set<UserId>, text: string,
                                                   accepts: UserId -> bool)
    requires OnePushEach(pushes, targets, text)
    ensures Accepted(pushes, accepts) == |Delivered(targets, accepts)|
    ensures |pushes| - Accepted(pushes, accepts) == |Undelivered(targets, accepts)|
  {
    if pushes == [] {
      assert targets == {};
      assert Delivered(targets, accepts) == {} && Undelivered(targets, accepts) == {};
    } else {
      var n := |pushes| - 1;
      var last := pushes[n].to;
      DropLastPush(pushes, targets, text);
      AcceptedCountsDelivered(pushes[..n], targets - {last}, text, accepts);
      VisitTarget(targets - {last}, last, accepts);
      assert targets - {last} + {last} == targets;
    }
  }

  /** Visiting one more target adds one to exactly one of the counts. */
  lemma VisitTarget(done: set<UserId>, u: UserId, accepts: UserId -> bool)
    requires u !in done
    ensures ExpectedTally(done + {u}, accepts)
         == if accepts(u) then ExpectedTally(done, accepts).(success := ExpectedTally(done, accepts).success + 1)
            else ExpectedTally(done, accepts).(failure := ExpectedTally(done, accepts).failure + 1)
  {
    if accepts(u) {
      assert Delivered(done + {u}, accepts) == Delivered(done, accepts) + {u};
      assert Undelivered(done + {u}, accepts) == Undelivered(done, accepts);
    } else {
      assert Delivered(done + {u}, accepts) == Delivered(done, accepts);
      assert Undelivered(done + {u}, accepts) == Undelivered(done, accepts) + {u};
    }
  }

  /** Pushing to one more, new, target keeps one push per target. */
  lemma PushOneMore(pushes: seq<Push>, targets: set<UserId>, u: UserId, text: string)
    requires OnePushEach(pushes, targets, text) && u !in targets
    ensures OnePushEach(pushes + [Push(u, text)], targets + {u}, text)
  {
    assert (pushes + [Push(u, text)])[..|pushes|] == pushes;
  }

  /** Without its last push, the log covers the other targets once each. */
  lemma DropLastPush(pushes: seq<Push>, targets: set<UserId>, text: string)
    requires OnePushEach(pushes, targets, text) && pushes != []
    ensures pushes[|pushes| - 1].to !in RecipientsOf(pushes[..|pushes| - 1])
    ensures OnePushEach(pushes[..|pushes| - 1], targets - {pushes[|pushes| - 1].to}, text)
  {
    RecipientsAtMost(pushes[..|pushes| - 1]);
  }

  /** What `send_startup_broadcast(msg)` promises: no push at all when no
      id is known, and otherwise one push of `msg` to each known non-empty id
      with the counts of the oracle's answers. */
  ghost predicate BroadcastSent(outcome: Outcome, pushes: seq<Push>, configured: seq<UserId>,
                                collected: set<UserId>, msg: string, accepts: UserId -> bool)
  {
    && (outcome.NoRecipients? <==> AllUsers(configured, collected) == {})
    && (outcome.NoRecipients? ==> pushes == [])
    && (outcome.Completed? ==>
          && outcome.tally == ExpectedTally(Targets(configured, collected), accepts)
          && OnePushEach(pushes, Targets(configured, collected), msg))
  }

  /** `send_startup_broadcast(msg)`: early return when no id is known at all;
      otherwise the fan-out over every known id. */
  method SendStartupBroadcast(configured: seq<UserId>, collected: set<UserId>, msg: string,
                              accepts: UserId -> bool)
    returns (outcome: Outcome, pushes: seq<Push>)
    ensures BroadcastSent(outcome, pushes, configured, collected, msg, accepts)
  {
    var allUsers := AllUsers(configured, collected);
    if allUsers == {} {
      return NoRecipients, [];
    }
    var tally;
    tally, pushes := FanOut(allUsers, msg, accepts);
    outcome := Completed(tally);
  }

  /** `str.split` never returns an empty list, so whatever the recipient
      setting, the known ids are never empty and the early return is never
      taken; with the setting unset the loop reports 0/0 while nobody but ""
      is known. */
  lemma RecipientsNeverEmpty(raw: string, collected: set<UserId>)
    ensures AllUsers(ParseBroadcastUsers(raw), collected) != {}
    ensures collected <= {""} ==> Targets(ParseBroadcastUsers(""), collected) == {}
  {
    var ids := ParseBroadcastUsers(raw);
    assert ids[0] in AllUsers(ids, collected);
    UnsetBroadcastUsers();
    assert "" in ParseBroadcastUsers("");
  }
}
