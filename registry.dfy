/**
 The bot's user registry: the recipient list read from the configuration
 and the set of sender ids collected from incoming messages, with the
 counts the status endpoint and the status command report.
 */
module Registry {
  import Text

  /** A LINE user id; the configuration may contain the empty string. */
  type UserId = string

  /** The configured recipient list from its comma-separated setting
      (unset means empty, and `"".split(',')` is `[""]`). */
  function ParseBroadcastUsers(raw: string): (ids: seq<UserId>)
    ensures |ids| >= 1
    ensures forall i :: 0 <= i < |ids| ==> ',' !in ids[i]
    ensures Text.Join(ids, ',') == raw
  {
    Text.JoinSplit(raw, ',');
    Text.Split(raw, ',')
  }

  /** An unset recipient setting yields one empty id, not an empty list. */
  lemma UnsetBroadcastUsers()
    ensures ParseBroadcastUsers("") == [""]
  {
  }

  /** `set(ids)`: the distinct ids of a list. */
  function Ids(ids: seq<UserId>): set<UserId>
  {
    set u | u in ids
  }

  /** Appending an id to a list adds it to the list's ids. */
  lemma IdsSnoc(ids: seq<UserId>)
    requires ids != []
    ensures Ids(ids) == Ids(ids[..|ids| - 1]) + {ids[|ids| - 1]}
  {
    assert ids == ids[..|ids| - 1] + [ids[|ids| - 1]];
  }

  /** A list has no more distinct ids than entries. */
  lemma {:induction false} IdsAtMost(ids: seq<UserId>)
    ensures |Ids(ids)| <= |ids|
  {
    if ids != [] {
      IdsAtMost(ids[..|ids| - 1]);
      IdsSnoc(ids);
    }
  }

  /** `set(configured) | collected`: every id known from either source. */
  function AllUsers(configured: seq<UserId>, collected: set<UserId>): (all: set<UserId>)
    ensures forall u :: u in all <==> u in configured || u in collected
  {
    Ids(configured) + collected
  }

  /** The ids a broadcast actually sends to: every known id except "". */
  function Targets(configured: seq<UserId>, collected: set<UserId>): (ts: set<UserId>)
    ensures forall u :: u in ts <==> (u in configured || u in collected) && u != ""
    ensures ts <= AllUsers(configured, collected)
  {
    AllUsers(configured, collected) - {""}
  }

  /** `[u for u in configured if u]`. */
  function NonEmptyEntries(configured: seq<UserId>): (r: seq<UserId>)
    ensures |r| <= |configured|
    ensures forall i :: 0 <= i < |r| ==> r[i] != "" && r[i] in configured
    ensures forall u :: u in configured && u != "" ==> u in r
  {
    if configured == [] then []
    else if configured[0] != "" then [configured[0]] + NonEmptyEntries(configured[1..])
    else NonEmptyEntries(configured[1..])
  }

  /** The three counts of the status endpoint and the status command. */
  datatype StatusReport = StatusReport(collectedUsers: nat, broadcastUsers: nat, totalUsers: nat)

  function Status(configured: seq<UserId>, collected: set<UserId>): (r: StatusReport)
    ensures r.collectedUsers == |collected|
    ensures r.broadcastUsers <= |configured|
    ensures r.totalUsers == |AllUsers(configured, collected)|
  {
    StatusReport(|collected|, |NonEmptyEntries(configured)|, |AllUsers(configured, collected)|)
  }

  /** The configured count is the length of the list less its empty
      entries: a repeated id counts every time it is listed. */
  lemma {:induction false} BroadcastUsersCountsEntries(configured: seq<UserId>, collected: set<UserId>)
    ensures Status(configured, collected).broadcastUsers == |configured| - multiset(configured)[""]
  {
    if configured != [] {
      BroadcastUsersCountsEntries(configured[1..], collected);
      assert configured == [configured[0]] + configured[1..];
      assert multiset(configured) == multiset{configured[0]} + multiset(configured[1..]);
    }
  }

  /** The non-empty entries of the list are counted with their duplicates, so
      the count is at least the number of distinct non-empty ids. */
  lemma BroadcastUsersCountsDuplicates(configured: seq<UserId>, collected: set<UserId>)
    ensures |Ids(configured) - {""}| <= Status(configured, collected).broadcastUsers
  {
    var entries := NonEmptyEntries(configured);
    assert Ids(configured) - {""} == Ids(entries);
    IdsAtMost(entries);
  }

  lemma SubsetCard<T>(a: set<T>, b: set<T>)
    requires a <= b
    ensures |a| <= |b|
  {
    assert b == a + (b - a);
  }

  /** The collected ids are part of the total, and the total counts "" once
      when it is present but never sends to it. */
  lemma TotalUsersBounds(configured: seq<UserId>, collected: set<UserId>)
    ensures Status(configured, collected).collectedUsers <= Status(configured, collected).totalUsers
    ensures Status(configured, collected).totalUsers
         == |Targets(configured, collected)| + (if "" in AllUsers(configured, collected) then 1 else 0)
  {
    SubsetCard(collected, AllUsers(configured, collected));
  }

  /** The explicit list and the collected set; only the set changes, and only
      by growing. */
  class UserRegistry {
    const configured: seq<UserId>
    var collected: set<UserId>

    constructor (configured: seq<UserId>)
      ensures this.configured == configured && collected == {}
    {
      this.configured := configured;
      collected := {};
    }

    /** `collected_user_ids.add(user_id)`: idempotent, never removes. */
    method Collect(id: UserId)
      modifies this
      ensures collected == old(collected) + {id}
      ensures id in collected && old(collected) <= collected
    {
      collected := collected + {id};
    }

  }
}
