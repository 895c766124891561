/**
 The relay bot's in-memory registry and its event handlers. Each handler
 updates the registry in place and appends the outbound calls it makes to
 `outbox`; `failing` names the chats and users whose calls fail during the
 event, and the clock and the bot's own identity and status are parameters.
 */
module Bot {
  import opened Wrappers
  import opened PyText
  import opened AdminConfig
  import opened CallbackCodec
  import opened Messages
  import opened Actions
  import opened Routing

  class BotData {
    /** Administrators, in the order they were configured or added. */
    var adminIds: seq<int>
    /** Registered groups, keyed by chat id. */
    var groups: map<int, GroupConfig>
    /** Pending replies: the target each administrator's next reply goes to. */
    var userContext: map<int, ReplyTarget>
    /** Every outbound call made so far, in order. */
    var outbox: seq<Action>

    /**
     Each registered group is filed under its own chat id, so the `/groups`
     listing shows every group with the id it is registered under.
     */
    ghost predicate Valid()
      reads this
    {
      forall id :: id in groups ==> groups[id].chatId == id
    }

    constructor ()
      ensures Valid()
      ensures adminIds == [] && groups == map[] && userContext == map[] && outbox == []
    {
      adminIds := [];
      groups := map[];
      userContext := map[];
      outbox := [];
    }

    /**
     `init_bot_data`: loads the administrator list from the `ADMIN_IDS`
     value. When a field is not an integer the startup fails (`ok` is false)
     and the list is left as it was.
     */
    method InitAdminIds(env: string) returns (ok: bool)
      requires Valid()
      modifies this
      ensures Valid()
      ensures ok == ParseAdminIds(env).Some?
      ensures adminIds == if ok then ParseAdminIds(env).value else old(adminIds)
      ensures groups == old(groups) && userContext == old(userContext) && outbox == old(outbox)
    {
      var parsed := ParseAdminIds(env);
      if parsed.None? {
        return false;
      }
      adminIds := parsed.value;
      return true;
    }

    /**
     `handle_new_chat_members` for `members` joining `chat`: when the bot is
     among them it registers the group (overwriting any earlier entry) if it
     holds administrator status there, and otherwise warns and leaves.
     */
    method HandleNewChatMembers(chat: int, title: string, members: seq<int>, botId: int, botIsAdmin: bool,
                                now: int, failing: set<int>)
      requires Valid()
      modifies this
      ensures Valid()
      ensures adminIds == old(adminIds) && userContext == old(userContext)
      ensures groups == if botIsAdmin && botId in members then old(groups)[chat := GroupConfig(chat, title, now)]
                        else old(groups)
      ensures outbox == old(outbox) + JoinActions(members, botId, chat, title, botIsAdmin, old(adminIds), failing)
    {
      var i := 0;
      while i < |members|
        invariant 0 <= i <= |members|
        invariant Valid()
        invariant adminIds == old(adminIds) && userContext == old(userContext)
        invariant groups == if botIsAdmin && botId in members[..i] then old(groups)[chat := GroupConfig(chat, title, now)]
                            else old(groups)
        invariant old(outbox) + JoinActions(members, botId, chat, title, botIsAdmin, old(adminIds), failing) ==
                  outbox + JoinActions(members[i..], botId, chat, title, botIsAdmin, old(adminIds), failing)
      {
        assert members[..i + 1] == members[..i] + [members[i]];
        var done := JoinMember(members, i, botId, chat, title, botIsAdmin, now, failing);
        if done {
          return;
        }
        i := i + 1;
      }
      assert members[..i] == members;
    }

    /**
     One step of the member walk, for `members[i]`: a member other than the
     bot is skipped; the bot warns and leaves without administrator status,
     and otherwise registers the group. `done` reports that the handler ends
     here, by its `return` or because a call into the group failed.
     */
    method JoinMember(members: seq<int>, i: nat, botId: int, chat: int, title: string, botIsAdmin: bool,
                      now: int, failing: set<int>) returns (done: bool)
      requires Valid() && i < |members|
      modifies this
      ensures Valid()
      ensures adminIds == old(adminIds) && userContext == old(userContext)
      ensures groups == if botIsAdmin && members[i] == botId then old(groups)[chat := GroupConfig(chat, title, now)]
                        else old(groups)
      ensures done ==> members[i] == botId
      ensures old(outbox) + JoinActions(members[i..], botId, chat, title, botIsAdmin, adminIds, failing) ==
                outbox + (if done then [] else JoinActions(members[i + 1..], botId, chat, title, botIsAdmin, adminIds, failing))
    {
      if members[i] != botId {
        JoinSkips(members, i, botId, chat, title, botIsAdmin, adminIds, failing);
        done := false;
      } else if !botIsAdmin {
        JoinRefused(members, i, botId, chat, title, adminIds, failing);
        RefuseGroup(chat, failing);
        done := true;
      } else {
        JoinAccepted(members, i, botId, chat, title, adminIds, failing);
        // a failed greeting raises, which ends the handler
        done := RegisterGroup(chat, title, now, failing);
      }
    }

    /** A group that denies the bot administrator status is warned and then left, unless the warning failed. */
    method RefuseGroup(chat: int, failing: set<int>)
      modifies this
      ensures adminIds == old(adminIds) && groups == old(groups) && userContext == old(userContext)
      ensures outbox == old(outbox) + [SendMessage(chat, Canned(NeedAdminRights), NoThread, None)] +
                        (if chat in failing then [] else [LeaveChat(chat)])
    {
      outbox := outbox + [SendMessage(chat, Canned(NeedAdminRights), NoThread, None)];
      if chat !in failing {
        outbox := outbox + [LeaveChat(chat)];
      }
    }

    /**
     A group granting administrator status is registered (overwriting any
     earlier entry), every administrator is told, and the group is greeted;
     `failed` reports whether the greeting failed.
     */
    method RegisterGroup(chat: int, title: string, now: int, failing: set<int>) returns (failed: bool)
      requires Valid()
      modifies this
      ensures Valid()
      ensures adminIds == old(adminIds) && userContext == old(userContext)
      ensures groups == old(groups)[chat := GroupConfig(chat, title, now)]
      ensures outbox == old(outbox) + NotifyAdmins(adminIds, chat, title) +
                        [SendMessage(chat, Canned(ForwardingActive), NoThread, None)]
      ensures failed <==> chat in failing
    {
      groups := groups[chat := GroupConfig(chat, title, now)];
      NotifyAdminsOfGroup(chat, title);
      outbox := outbox + [SendMessage(chat, Canned(ForwardingActive), NoThread, None)];
      failed := chat in failing;
    }

    /** The loop of `handle_new_chat_members` that tells each administrator about the new group. */
    method NotifyAdminsOfGroup(chat: int, title: string)
      modifies this
      ensures adminIds == old(adminIds) && groups == old(groups) && userContext == old(userContext)
      ensures outbox == old(outbox) + NotifyAdmins(adminIds, chat, title)
    {
      var j := 0;
      while j < |adminIds|
        invariant 0 <= j <= |adminIds|
        invariant adminIds == old(adminIds) && groups == old(groups) && userContext == old(userContext)
        invariant outbox == old(outbox) + NotifyAdmins(adminIds[..j], chat, title)
      {
        assert adminIds[..j + 1][..j] == adminIds[..j];
        outbox := outbox + [SendMessage(adminIds[j], Canned(NewGroup(title, chat)), NoThread, None)];
        j := j + 1;
      }
      assert adminIds[..j] == adminIds;
    }

    /**
     `handle_group_message`: a message in a registered group stamps the
     group's last activity and is copied to every administrator with a reply
     button; a message from an unregistered group changes nothing.
     */
    method HandleGroupMessage(m: Message, now: int, failing: set<int>)
      requires Valid()
      modifies this
      ensures Valid()
      ensures adminIds == old(adminIds) && userContext == old(userContext)
      ensures m.chatId !in old(groups) ==> groups == old(groups) && outbox == old(outbox)
      ensures m.chatId in old(groups) ==>
                && groups == old(groups)[m.chatId := old(groups)[m.chatId].(lastActivity := now)]
                && outbox == old(outbox) +
                             (if m.sender.None? then []
                              else FanOut(old(adminIds), Classify(m), m, old(groups)[m.chatId].title, failing))
    {
      if m.chatId !in groups {
        return;
      }
      groups := groups[m.chatId := groups[m.chatId].(lastActivity := now)];
      var kind := Classify(m);
      if m.sender.None? {
        // building the reply button reads the sender's name and raises
        return;
      }
      CopyToAdmins(m, kind, groups[m.chatId].title, failing);
    }

    /** The loop of `handle_group_message` that sends each administrator their copy, in list order. */
    method CopyToAdmins(m: Message, kind: MessageType, title: string, failing: set<int>)
      modifies this
      ensures adminIds == old(adminIds) && groups == old(groups) && userContext == old(userContext)
      ensures outbox == old(outbox) + FanOut(adminIds, kind, m, title, failing)
    {
      var caption := Canned(FromGroup(title));
      var button := Some(ReplyButton(m.chatId, m.messageId));
      var i := 0;
      while i < |adminIds|
        invariant 0 <= i <= |adminIds|
        invariant adminIds == old(adminIds) && groups == old(groups) && userContext == old(userContext)
        invariant outbox == old(outbox) + FanOut(adminIds[..i], kind, m, title, failing)
      {
        var admin := adminIds[i];
        ghost var before := outbox;
        ghost var copy := CopyForAdmin(admin, kind, m, title, failing);
        assert FanOut(adminIds[..i + 1], kind, m, title, failing) == FanOut(adminIds[..i], kind, m, title, failing) + copy by {
          assert adminIds[..i + 1][..i] == adminIds[..i];
        }
        if kind == Text {
          outbox := outbox + [ForwardMessage(admin, m.chatId, m.messageId)];
          if admin !in failing {
            outbox := outbox + [SendMessage(admin, caption, UnderForwardedCopy, button)];
          }
          assert outbox == before + copy;
        } else if kind != Unknown {
          outbox := outbox + [SendMedia(admin, kind, Some(caption), NoThread, button)];
          assert outbox == before + copy;
        } else {
          assert copy == [];
        }
        i := i + 1;
      }
      assert adminIds[..i] == adminIds;
    }

    /** `process_admin_reply`: relays `m` to its sender's pending target. */
    method ProcessAdminReply(m: Message, failing: set<int>)
      requires Valid()
      modifies this
      ensures Valid()
      ensures adminIds == old(adminIds) && groups == old(groups)
      ensures m.sender.None? ==> userContext == old(userContext) && outbox == old(outbox)
      ensures m.sender.Some? ==>
                var out := AdminReply(m, m.sender.value, old(userContext), old(groups), failing);
                userContext == out.context && outbox == old(outbox) + out.actions
    {
      if m.sender.None? {
        return;
      }
      var admin := m.sender.value;
      if admin !in userContext {
        // the lookup raises KeyError, which is logged
        return;
      }
      var target := userContext[admin];
      if target.groupId !in groups {
        outbox := outbox + [Respond(m.chatId, TargetInvalid)];
        return;
      }
      SendReply(m, target, groups[target.groupId].title, failing);
      userContext := userContext - {admin};
    }

    /**
     The send block of `process_admin_reply`: relays the content to the target
     group under the stored message, then confirms or reports the failure.
     */
    method SendReply(m: Message, target: ReplyTarget, title: string, failing: set<int>)
      modifies this
      ensures adminIds == old(adminIds) && groups == old(groups) && userContext == old(userContext)
      ensures outbox == old(outbox) + RelayActions(m, target, title, failing)
    {
      var relayed := RelayContent(m, target);
      if relayed && target.groupId in failing {
        outbox := outbox + [Respond(m.chatId, SendFailed)];
      } else {
        outbox := outbox + [Respond(m.chatId, SentToGroup(title))];
        if m.chatId in failing {
          outbox := outbox + [Respond(m.chatId, SendFailed)];
        }
      }
    }

    /** The relay itself: text, else a photo with its caption, else a document, threaded under the stored message. */
    method RelayContent(m: Message, target: ReplyTarget) returns (relayed: bool)
      modifies this
      ensures adminIds == old(adminIds) && groups == old(groups) && userContext == old(userContext)
      ensures outbox == old(outbox) + RelayedContent(m, target)
      ensures relayed <==> RelayedContent(m, target) != []
    {
      RelayKind(m);
      relayed := true;
      if m.text != [] {
        outbox := outbox + [SendMessage(target.groupId, Verbatim(m.text), Under(target.messageId), None)];
      } else if m.photoSizes > 0 {
        var caption := match m.caption case None => None case Some(c) => Some(Verbatim(c));
        outbox := outbox + [SendMedia(target.groupId, Photo, caption, Under(target.messageId), None)];
      } else if m.hasDocument {
        outbox := outbox + [SendMedia(target.groupId, Document, None, Under(target.messageId), None)];
      } else {
        relayed := false;
      }
    }

    /** `handle_private_message`: only administrators are served; a reply-gesture with a pending target is relayed. */
    method HandlePrivateMessage(m: Message, failing: set<int>)
      requires Valid()
      modifies this
      ensures Valid()
      ensures adminIds == old(adminIds) && groups == old(groups)
      ensures var out := PrivateMessage(m, old(adminIds), old(userContext), old(groups), failing);
              userContext == out.context && outbox == old(outbox) + out.actions
    {
      if m.sender.None? {
        return;
      }
      var user := m.sender.value;
      if user !in adminIds {
        outbox := outbox + [Respond(m.chatId, PermissionDenied)];
        return;
      }
      if m.isReply && user in userContext {
        ProcessAdminReply(m, failing);
        return;
      }
      outbox := outbox + [Respond(m.chatId, ReplyHint)];
    }

    /** `/groups`: the registered groups, for administrators only. */
    method ListGroups(caller: int, chat: int)
      requires Valid()
      modifies this
      ensures Valid()
      ensures adminIds == old(adminIds) && groups == old(groups) && userContext == old(userContext)
      ensures outbox == old(outbox) + [Respond(chat, GroupsReply(caller, old(adminIds), old(groups)))]
      ensures var n := GroupsReply(caller, old(adminIds), old(groups));
              n.GroupList? ==> forall id :: id in n.groups ==> n.groups[id].chatId == id
    {
      if caller !in adminIds {
        outbox := outbox + [Respond(chat, PermissionDenied)];
      } else if groups == map[] {
        outbox := outbox + [Respond(chat, NoGroups)];
      } else {
        outbox := outbox + [Respond(chat, GroupList(groups))];
      }
    }

    /** `/addadmin <id>`: appends a new administrator when an administrator asks. */
    method AddAdmin(caller: int, chat: int, args: seq<string>)
      requires Valid()
      modifies this
      ensures Valid()
      ensures groups == old(groups) && userContext == old(userContext)
      ensures var out := AddAdminCommand(caller, chat, args, old(adminIds));
              adminIds == out.admins && outbox == old(outbox) + out.actions
    {
      if caller !in adminIds {
        outbox := outbox + [Respond(chat, PermissionDenied)];
        return;
      }
      if args == [] {
        outbox := outbox + [Respond(chat, AddAdminUsage)];
        return;
      }
      var parsed := ParseInt(args[0]);
      if parsed.None? {
        outbox := outbox + [Respond(chat, InvalidUserId)];
        return;
      }
      var id := parsed.value;
      if id !in adminIds {
        adminIds := adminIds + [id];
        outbox := outbox + [Respond(chat, AdminAdded(id))];
      } else {
        outbox := outbox + [Respond(chat, AlreadyAdmin)];
      }
    }

    /** `handle_button_click`: a reply-button click by an administrator records their pending reply. */
    method HandleButtonClick(user: int, data: string, failing: set<int>)
      requires Valid()
      modifies this
      ensures Valid()
      ensures adminIds == old(adminIds) && groups == old(groups)
      ensures var out := ButtonClick(user, data, old(adminIds), old(userContext), failing);
              userContext == out.context && outbox == old(outbox) + out.actions
    {
      if user !in adminIds {
        outbox := outbox + [AnswerQuery(user, PermissionDenied)];
        if user in failing {
          outbox := outbox + [AnswerQuery(user, OperationFailed)];
        }
        return;
      }
      match ParseClick(data)
      case NotReply =>
        outbox := outbox + [DeleteQueryMessage(user)];
        if user in failing {
          outbox := outbox + [AnswerQuery(user, OperationFailed)];
        }
      case Malformed =>
        outbox := outbox + [AnswerQuery(user, OperationFailed)];
      case ReplyTo(g, mid) =>
        userContext := userContext[user := ReplyTarget(g, mid)];
        outbox := outbox + [AnswerQuery(user, EnterReply)];
        if user in failing {
          outbox := outbox + [AnswerQuery(user, OperationFailed)];
        } else {
          outbox := outbox + [DeleteQueryMessage(user)];
        }
    }
  }
}
