/**
 The handler of incoming text messages: it records the sender, then matches
 the text against an ordered command table (the first match wins) and
 answers with exactly one reply; only the administrator's broadcast command
 pushes messages to other users.
 */
module Router {
  import Text
  import opened Registry
  import opened Broadcast

  const MyIdCommand := "我的ID"
  const AllIdsCommand := "所有ID"
  const StatusCommands := ["狀態", "status", "ping"]
  const BroadcastPrefix := "群發:"

  /** The rows of the command table; `raw` is the text after the prefix. */
  datatype Command = MyId | AllIds | Status | Announce(raw: string) | Help

  /** The command table, tried top to bottom. */
  function Classify(text: string): (c: Command)
    ensures c.MyId? <==> text == MyIdCommand
    ensures c.AllIds? <==> text == AllIdsCommand
    ensures c.Status? <==> text in StatusCommands
    ensures c.Announce? <==> BroadcastPrefix <= text
    ensures c.Announce? ==> text == BroadcastPrefix + c.raw
  {
    if text == MyIdCommand then MyId
    else if text == AllIdsCommand then AllIds
    else if text in StatusCommands then
      assert text[0] != BroadcastPrefix[0];
      Status
    else if BroadcastPrefix <= text then Announce(text[|BroadcastPrefix|..])
    else Help
  }

  /** The one reply an event gets; the wording around the data is not
      modelled. */
  datatype Reply =
    | YourId(id: UserId)
    | CollectedIds(ids: set<UserId>, count: nat)
    | NoCollectedIds
    | StatusSummary(report: StatusReport)
    | BroadcastDone(tally: Tally)
    | EmptyBroadcast
    | AdminOnly
    | Welcome(id: UserId)

  /** The text pushed by an admin broadcast with the given body: a
      seven-character notice heading, then the body unchanged. */
  function AnnouncementText(body: string): (t: string)
    ensures |t| == |body| + 7 && t[7..] == body
  {
    "📢 系統通知：" + body
  }

  /** Different bodies are pushed as different texts. */
  lemma AnnouncementTextInjective(body1: string, body2: string)
    ensures AnnouncementText(body1) == AnnouncementText(body2) <==> body1 == body2
  {
    if AnnouncementText(body1) == AnnouncementText(body2) {
      assert body1 == AnnouncementText(body1)[7..];
    }
  }

  /** The reply to `cmd` from `sender`, given the registry after the sender
      was recorded and the push oracle of the admin broadcast. */
  ghost function Respond(cmd: Command, sender: UserId, adminId: UserId, configured: seq<UserId>,
                         collected: set<UserId>, accepts: UserId -> bool): (r: Reply)
    ensures r.YourId? <==> cmd.MyId?
    ensures r.CollectedIds? || r.NoCollectedIds? <==> cmd.AllIds?
    ensures r.StatusSummary? <==> cmd.Status?
    ensures r.AdminOnly? <==> cmd.Announce? && sender != adminId
    ensures r.BroadcastDone? || r.EmptyBroadcast? ==> cmd.Announce? && sender == adminId
    ensures r.Welcome? <==> cmd.Help?
    ensures r.YourId? || r.Welcome? ==> r.id == sender
    ensures r.CollectedIds? ==> r.ids == collected && r.count == |collected| >= 1
  {
    match cmd
    case MyId => YourId(sender)
    case AllIds => if collected != {} then CollectedIds(collected, |collected|) else NoCollectedIds
    case Status => StatusSummary(Registry.Status(configured, collected))
    case Announce(raw) =>
      if sender != adminId then AdminOnly
      else if Text.Strip(raw) == [] then EmptyBroadcast
      else BroadcastDone(ExpectedTally(Targets(configured, collected), accepts))
    case Help => Welcome(sender)
  }

  /** `handle_text_message`: record the sender, then answer. */
  method HandleTextMessage(registry: UserRegistry, adminId: UserId, sender: UserId, text: string,
                           accepts: UserId -> bool)
    returns (reply: Reply, pushes: seq<Push>)
    modifies registry
    ensures registry.collected == old(registry.collected) + {sender}
    ensures reply == Respond(Classify(text), sender, adminId, registry.configured, registry.collected, accepts)
    ensures pushes != [] ==> reply.BroadcastDone?
    ensures reply.BroadcastDone? ==>
              OnePushEach(pushes, Targets(registry.configured, registry.collected),
                          AnnouncementText(Text.Strip(Classify(text).raw)))
  {
    registry.Collect(sender);
    pushes := [];
    if text == MyIdCommand {
      return YourId(sender), [];
    }
    if text == AllIdsCommand {
      if registry.collected != {} {
        reply := CollectedIds(registry.collected, |registry.collected|);
      } else {
        reply := NoCollectedIds;
      }
      return;
    }
    if text in StatusCommands {
      return StatusSummary(Registry.Status(registry.configured, registry.collected)), [];
    }
    if BroadcastPrefix <= text {
      if sender == adminId {
        var body := Text.Strip(text[|BroadcastPrefix|..]);
        if body != [] {
          var allUsers := AllUsers(registry.configured, registry.collected);
          var tally;
          tally, pushes := FanOut(allUsers, AnnouncementText(body), accepts);
          reply := BroadcastDone(tally);
        } else {
          reply := EmptyBroadcast;
        }
      } else {
        reply := AdminOnly;
      }
      return;
    }
    reply := Welcome(sender);
  }

  /** Because the sender is recorded first, the listing of collected ids
      is never the empty-state message and counts at least the sender. */
  lemma AllIdsIncludesSender(sender: UserId, adminId: UserId, configured: seq<UserId>,
                             before: set<UserId>, accepts: UserId -> bool)
    ensures Respond(AllIds, sender, adminId, configured, before + {sender}, accepts)
         == CollectedIds(before + {sender}, |before + {sender}|)
    ensures |before + {sender}| >= 1
  {
  }

  /** The "my id" reply and the default reply both carry the sender's id. */
  lemma RepliesNameSender(text: string, sender: UserId, adminId: UserId, configured: seq<UserId>,
                          collected: set<UserId>, accepts: UserId -> bool)
    requires text == MyIdCommand || Classify(text).Help?
    ensures Respond(Classify(text), sender, adminId, configured, collected, accepts).id == sender
  {
  }

  /** Anyone but the administrator is refused and nothing is broadcast. */
  lemma OnlyAdminBroadcasts(raw: string, sender: UserId, adminId: UserId, configured: seq<UserId>,
                            collected: set<UserId>, accepts: UserId -> bool)
    requires sender != adminId
    ensures Respond(Announce(raw), sender, adminId, configured, collected, accepts) == AdminOnly
  {
  }

  /** The administrator's broadcast is refused exactly when its body is
      whitespace only. */
  lemma BlankBodyRefused(raw: string, adminId: UserId, configured: seq<UserId>,
                         collected: set<UserId>, accepts: UserId -> bool)
    ensures Respond(Announce(raw), adminId, adminId, configured, collected, accepts) == EmptyBroadcast
        <==> Text.Blank(raw)
  {
    Text.StripEmptyIffBlank(raw);
  }

  /** An admin broadcast reports one count per distinct non-empty known id. */
  lemma BroadcastCountsEveryTarget(cmd: Command, sender: UserId, adminId: UserId, configured: seq<UserId>,
                                   collected: set<UserId>, accepts: UserId -> bool)
    requires Respond(cmd, sender, adminId, configured, collected, accepts).BroadcastDone?
    ensures cmd.Announce? && sender == adminId && !Text.Blank(cmd.raw)
    ensures Respond(cmd, sender, adminId, configured, collected, accepts).tally.success
          + Respond(cmd, sender, adminId, configured, collected, accepts).tally.failure
         == |Targets(configured, collected)|
  {
    Text.StripEmptyIffBlank(cmd.raw);
    TallyCoversTargets(Targets(configured, collected), accepts);
  }

  /** Any text after the prefix is the raw body of an admin broadcast. */
  lemma ClassifyAnnounce(raw: string)
    ensures Classify(BroadcastPrefix + raw) == Announce(raw)
  {
    assert (BroadcastPrefix + raw)[..|BroadcastPrefix|] == BroadcastPrefix;
    assert (BroadcastPrefix + raw)[|BroadcastPrefix|..] == raw;
  }

  /** The administrator's broadcast of a body with no surrounding
      whitespace, such as "群發:hello", pushes exactly that body. */
  lemma AdminBroadcastsBody(body: string, adminId: UserId, configured: seq<UserId>,
                            collected: set<UserId>, accepts: UserId -> bool)
    requires body != [] && Text.Stripped(body)
    ensures Text.Strip(Classify(BroadcastPrefix + body).raw) == body
    ensures Respond(Classify(BroadcastPrefix + body), adminId, adminId, configured, collected, accepts)
         == BroadcastDone(ExpectedTally(Targets(configured, collected), accepts))
  {
    ClassifyAnnounce(body);
    Text.StripKeeps(body);
  }

  /** A prefix followed by nothing but spaces is an empty broadcast. */
  lemma AdminSpacesOnly(adminId: UserId, configured: seq<UserId>, collected: set<UserId>,
                        accepts: UserId -> bool)
    ensures Respond(Classify(BroadcastPrefix + "  "), adminId, adminId, configured, collected, accepts)
         == EmptyBroadcast
  {
    ClassifyAnnounce("  ");
    Text.StripEmptyIffBlank("  ");
  }
}
