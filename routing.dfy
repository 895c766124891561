/**
 What each handler of the relay bot does, as functions of the registry state
 and the event: the outbound calls it makes, in order, and the new pending
 replies or administrator list. A call fails exactly when its recipient is
 in `failing` (an administrator who blocked the bot, a group the bot was
 removed from); the handlers catch those failures as main.py does.
 */
module Routing {
  import opened Wrappers
  import opened PyText
  import opened CallbackCodec
  import opened Messages
  import opened Actions

  // ------------------------------------------------------------ registration

  /** The "new group" note to every administrator, one call each, in list order. */
  function NotifyAdmins(admins: seq<int>, chat: int, title: string): (r: seq<Action>)
    ensures |r| == |admins|
    ensures forall i :: 0 <= i < |admins| ==>
              r[i] == SendMessage(admins[i], Canned(NewGroup(title, chat)), NoThread, None)
  {
    if admins == [] then []
    else
      var init := admins[..|admins| - 1];
      var r := NotifyAdmins(init, chat, title);
      assert forall i :: 0 <= i < |init| ==> init[i] == admins[i];
      r + [SendMessage(admins[|admins| - 1], Canned(NewGroup(title, chat)), NoThread, None)]
  }

  /**
   The calls made while walking the new members of `chat` when the bot
   `botId` may be among them. Without administrator status the bot warns and
   leaves; with it, it notifies every administrator and greets the group. A
   failed call to the group aborts the walk.
   */
  function JoinActions(members: seq<int>, botId: int, chat: int, title: string, botIsAdmin: bool,
                       admins: seq<int>, failing: set<int>): seq<Action>
  {
    if members == [] then []
    else if members[0] != botId then JoinActions(members[1..], botId, chat, title, botIsAdmin, admins, failing)
    else if !botIsAdmin then
      [SendMessage(chat, Canned(NeedAdminRights), NoThread, None)] +
      (if chat in failing then [] else [LeaveChat(chat)])
    else
      NotifyAdmins(admins, chat, title) + [SendMessage(chat, Canned(ForwardingActive), NoThread, None)] +
      (if chat in failing then [] else JoinActions(members[1..], botId, chat, title, botIsAdmin, admins, failing))
  }

  /** A new member other than the bot is skipped. */
  lemma JoinSkips(members: seq<int>, i: nat, botId: int, chat: int, title: string, botIsAdmin: bool,
                  admins: seq<int>, failing: set<int>)
    requires i < |members| && members[i] != botId
    ensures JoinActions(members[i..], botId, chat, title, botIsAdmin, admins, failing) ==
              JoinActions(members[i + 1..], botId, chat, title, botIsAdmin, admins, failing)
  {
    assert members[i..][1..] == members[i + 1..];
  }

  /** The bot without administrator status warns the group, leaves it, and the walk ends. */
  lemma JoinRefused(members: seq<int>, i: nat, botId: int, chat: int, title: string,
                    admins: seq<int>, failing: set<int>)
    requires i < |members| && members[i] == botId
    ensures JoinActions(members[i..], botId, chat, title, false, admins, failing) ==
              [SendMessage(chat, Canned(NeedAdminRights), NoThread, None)] +
              (if chat in failing then [] else [LeaveChat(chat)])
  {
    assert members[i..][0] == members[i];
  }

  /** The bot with administrator status notifies the administrators, greets the group and walks on unless that failed. */
  lemma JoinAccepted(members: seq<int>, i: nat, botId: int, chat: int, title: string,
                     admins: seq<int>, failing: set<int>)
    requires i < |members| && members[i] == botId
    ensures JoinActions(members[i..], botId, chat, title, true, admins, failing) ==
              NotifyAdmins(admins, chat, title) + [SendMessage(chat, Canned(ForwardingActive), NoThread, None)] +
              (if chat in failing then [] else JoinActions(members[i + 1..], botId, chat, title, true, admins, failing))
  {
    assert members[i..][0] == members[i] && members[i..][1..] == members[i + 1..];
  }

  /** A bot without administrator status notifies no administrator: it only warns the group and leaves. */
  lemma {:induction false} JoinWithoutRights(members: seq<int>, botId: int, chat: int, title: string,
                                             admins: seq<int>, failing: set<int>)
    ensures JoinActions(members, botId, chat, title, false, admins, failing) ==
              if botId !in members then []
              else [SendMessage(chat, Canned(NeedAdminRights), NoThread, None)] +
                   (if chat in failing then [] else [LeaveChat(chat)])
  {
    if members != [] && members[0] != botId {
      JoinWithoutRights(members[1..], botId, chat, title, admins, failing);
      assert botId in members <==> botId in members[1..];
    }
  }

  /**
   A bot with administrator status that is among the new members first tells
   every administrator, then greets the group; one that is not among them
   does nothing.
   */
  lemma {:induction false} JoinWithRights(members: seq<int>, botId: int, chat: int, title: string,
                                          admins: seq<int>, failing: set<int>)
    ensures var acts := JoinActions(members, botId, chat, title, true, admins, failing);
            var greeting := NotifyAdmins(admins, chat, title) + [SendMessage(chat, Canned(ForwardingActive), NoThread, None)];
            && (botId !in members ==> acts == [])
            && (botId in members ==> |greeting| <= |acts| && acts[..|greeting|] == greeting)
  {
    if members != [] && members[0] != botId {
      JoinWithRights(members[1..], botId, chat, title, admins, failing);
      assert botId in members <==> botId in members[1..];
    }
  }

  /**
   When greeting the group fails, the handler ends there: the walk's calls
   are exactly the notes to the administrators and the failed greeting,
   however many members follow the bot.
   */
  lemma {:induction false} JoinEndsAtFailedGreeting(members: seq<int>, botId: int, chat: int, title: string,
                                                    admins: seq<int>, failing: set<int>)
    requires botId in members && chat in failing
    ensures JoinActions(members, botId, chat, title, true, admins, failing) ==
              NotifyAdmins(admins, chat, title) + [SendMessage(chat, Canned(ForwardingActive), NoThread, None)]
  {
    if members[0] != botId {
      assert members == [members[0]] + members[1..];
      JoinEndsAtFailedGreeting(members[1..], botId, chat, title, admins, failing);
    }
  }

  /** `n` copies of `acts`, one after the other. */
  function Repeat(acts: seq<Action>, n: nat): (r: seq<Action>)
    ensures |r| == n * |acts|
  {
    if n == 0 then [] else acts + Repeat(acts, n - 1)
  }

  /**
   When greeting the group succeeds, the walk goes on: the group is
   registered, the administrators notified and the group greeted once for
   every occurrence of the bot among the new members.
   */
  lemma {:induction false} JoinRepeatsGreeting(members: seq<int>, botId: int, chat: int, title: string,
                                               admins: seq<int>, failing: set<int>)
    requires chat !in failing
    ensures JoinActions(members, botId, chat, title, true, admins, failing) ==
              Repeat(NotifyAdmins(admins, chat, title) + [SendMessage(chat, Canned(ForwardingActive), NoThread, None)],
                     multiset(members)[botId])
  {
    if members != [] {
      assert members == [members[0]] + members[1..];
      JoinRepeatsGreeting(members[1..], botId, chat, title, admins, failing);
    }
  }

  // ------------------------------------------------------------ group messages

  /** The copy of one group message that one administrator receives, with the reply button. */
  function CopyForAdmin(admin: int, kind: MessageType, m: Message, title: string, failing: set<int>): seq<Action>
  {
    var button := Some(ReplyButton(m.chatId, m.messageId));
    var caption := Canned(FromGroup(title));
    match kind
    case Text =>
      [ForwardMessage(admin, m.chatId, m.messageId)] +
      (if admin in failing then [] else [SendMessage(admin, caption, UnderForwardedCopy, button)])
    case Unknown => []
    case _ => [SendMedia(admin, kind, Some(caption), NoThread, button)]
  }

  /**
   An administrator's copy is addressed to that administrator only, is empty
   exactly for a message of unknown kind, and every message and media send in
   it carries the reply button of the source message.
   */
  lemma CopyShape(admin: int, kind: MessageType, m: Message, title: string, failing: set<int>)
    ensures var acts := CopyForAdmin(admin, kind, m, title, failing);
            && (forall i :: 0 <= i < |acts| ==> acts[i].Recipient() == admin)
            && AllCarry(acts, ReplyButton(m.chatId, m.messageId))
            && (kind == Unknown <==> acts == [])
  {
  }

  /** The copies of a message as a function of the administrator. */
  function CopyFor(kind: MessageType, m: Message, title: string, failing: set<int>): int -> seq<Action>
  {
    admin => CopyForAdmin(admin, kind, m, title, failing)
  }

  /** The calls `f(x)` for every `x` of `xs`, in order. */
  function ConcatMap(xs: seq<int>, f: int -> seq<Action>): seq<Action>
  {
    if xs == [] then [] else ConcatMap(xs[..|xs| - 1], f) + f(xs[|xs| - 1])
  }

  lemma {:induction false} ConcatMapAppend(a: seq<int>, b: seq<int>, f: int -> seq<Action>)
    ensures ConcatMap(a + b, f) == ConcatMap(a, f) + ConcatMap(b, f)
  {
    if b != [] {
      var b' := b[..|b| - 1];
      var ab := a + b;
      assert ab[..|ab| - 1] == a + b';
      assert ab[|ab| - 1] == b[|b| - 1];
      ConcatMapAppend(a, b', f);
    } else {
      assert a + b == a;
    }
  }

  /** The fan-out of one group message: each administrator's copy, in list order. */
  function FanOut(admins: seq<int>, kind: MessageType, m: Message, title: string, failing: set<int>): seq<Action>
  {
    ConcatMap(admins, CopyFor(kind, m, title, failing))
  }

  /** One more administrator at the end of the list adds their copy at the end of the fan-out. */
  lemma FanOutStep(admins: seq<int>, admin: int, kind: MessageType, m: Message, title: string, failing: set<int>)
    ensures FanOut(admins + [admin], kind, m, title, failing) ==
              FanOut(admins, kind, m, title, failing) + CopyForAdmin(admin, kind, m, title, failing)
  {
    assert (admins + [admin])[..|admins|] == admins;
  }

  lemma FanOutAppend(a: seq<int>, b: seq<int>, kind: MessageType, m: Message, title: string, failing: set<int>)
    ensures FanOut(a + b, kind, m, title, failing) == FanOut(a, kind, m, title, failing) + FanOut(b, kind, m, title, failing)
  {
    ConcatMapAppend(a, b, CopyFor(kind, m, title, failing));
  }

  /** A message of unknown kind reaches no administrator. */
  lemma {:induction false} FanOutUnknown(admins: seq<int>, m: Message, title: string, failing: set<int>)
    ensures FanOut(admins, Unknown, m, title, failing) == []
  {
    if admins != [] {
      FanOutUnknown(admins[..|admins| - 1], m, title, failing);
    }
  }

  /** Every message and media send in `acts` carries the button `b`. */
  ghost predicate AllCarry(acts: seq<Action>, b: Button)
  {
    forall i :: 0 <= i < |acts| && (acts[i].SendMessage? || acts[i].SendMedia?) ==> acts[i].button == Some(b)
  }

  /** Every message and media copy in a fan-out carries the reply button for the source message. */
  lemma {:induction false} FanOutButtons(admins: seq<int>, kind: MessageType, m: Message, title: string, failing: set<int>)
    ensures AllCarry(FanOut(admins, kind, m, title, failing), ReplyButton(m.chatId, m.messageId))
  {
    if admins != [] {
      var b := ReplyButton(m.chatId, m.messageId);
      var before := FanOut(admins[..|admins| - 1], kind, m, title, failing);
      var copy := CopyForAdmin(admins[|admins| - 1], kind, m, title, failing);
      FanOutButtons(admins[..|admins| - 1], kind, m, title, failing);
      CopyShape(admins[|admins| - 1], kind, m, title, failing);
      var acts := FanOut(admins, kind, m, title, failing);
      assert acts == before + copy;
      forall i | 0 <= i < |acts| && (acts[i].SendMessage? || acts[i].SendMedia?)
        ensures acts[i].button == Some(b)
      {
        if i < |before| {
          assert acts[i] == before[i];
        } else {
          assert acts[i] == copy[i - |before|];
        }
      }
    }
  }

  /** The administrators a list of calls first contacts: the targets of forwards and media sends. */
  function Contacted(acts: seq<Action>): seq<int>
  {
    if acts == [] then []
    else
      Contacted(acts[..|acts| - 1]) +
      match acts[|acts| - 1]
      case ForwardMessage(c, _, _) => [c]
      case SendMedia(c, _, _, _, _) => [c]
      case _ => []
  }

  lemma {:induction false} ContactedAppend(a: seq<Action>, b: seq<Action>)
    ensures Contacted(a + b) == Contacted(a) + Contacted(b)
  {
    if b != [] {
      var b' := b[..|b| - 1];
      assert (a + b)[..|a + b| - 1] == a + b';
      ContactedAppend(a, b');
    } else {
      assert a + b == a;
    }
  }

  /** One administrator's copy of a message of a known kind is addressed first to that administrator, once. */
  lemma CopyContactsOnce(admin: int, kind: MessageType, m: Message, title: string, failing: set<int>)
    requires kind != Unknown
    ensures Contacted(CopyForAdmin(admin, kind, m, title, failing)) == [admin]
  {
    var copy := CopyForAdmin(admin, kind, m, title, failing);
    if kind == Text {
      var fwd := [ForwardMessage(admin, m.chatId, m.messageId)];
      assert fwd[..0] == [];
      assert Contacted(fwd) == [admin];
      if admin !in failing {
        var note := [SendMessage(admin, Canned(FromGroup(title)), UnderForwardedCopy, Some(ReplyButton(m.chatId, m.messageId)))];
        assert note[..0] == [];
        assert copy == fwd + note;
        ContactedAppend(fwd, note);
      } else {
        assert copy == fwd;
      }
    } else {
      assert copy[..0] == [];
    }
  }

  /**
   A message of a known kind is attempted once for every administrator, in
   the order of the administrator list, whichever of them fail.
   */
  lemma {:induction false} FanOutReachesEveryAdmin(admins: seq<int>, kind: MessageType, m: Message, title: string,
                                                  failing: set<int>)
    requires kind != Unknown
    ensures Contacted(FanOut(admins, kind, m, title, failing)) == admins
  {
    if admins != [] {
      var init := admins[..|admins| - 1];
      var last := admins[|admins| - 1];
      var before := FanOut(init, kind, m, title, failing);
      var copy := CopyForAdmin(last, kind, m, title, failing);
      assert FanOut(admins, kind, m, title, failing) == before + copy;
      FanOutReachesEveryAdmin(init, kind, m, title, failing);
      CopyContactsOnce(last, kind, m, title, failing);
      ContactedAppend(before, copy);
      assert Contacted(before + copy) == init + [last];
      assert admins == init + [last];
    }
  }

  /**
   Failure isolation: inside the fan-out, the copy for the administrator at
   position `i` depends on no other administrator's failure, only on its own.
   */
  lemma FanOutIsolation(admins: seq<int>, i: nat, kind: MessageType, m: Message, title: string, failing: set<int>)
    requires i < |admins|
    ensures FanOut(admins, kind, m, title, failing) ==
              FanOut(admins[..i], kind, m, title, failing) +
              CopyForAdmin(admins[i], kind, m, title, failing * {admins[i]}) +
              FanOut(admins[i + 1..], kind, m, title, failing)
  {
    var a := admins[i];
    assert admins == admins[..i] + [a] + admins[i + 1..];
    FanOutAppend(admins[..i] + [a], admins[i + 1..], kind, m, title, failing);
    FanOutAppend(admins[..i], [a], kind, m, title, failing);
    assert [a][..0] == [];
    assert CopyForAdmin(a, kind, m, title, failing) == CopyForAdmin(a, kind, m, title, failing * {a});
  }

  // ------------------------------------------------------------ administrator replies

  /** Pending replies after a handler, with the calls it made. */
  datatype ReplyOutcome = ReplyOutcome(context: map<int, ReplyTarget>, actions: seq<Action>)

  /** The content kinds relayed back into a group: video is not among them. */
  const RelayOrder: seq<MessageType> := [Text, Photo, Document]

  /** The relayed kind: text first, then photo, then document, otherwise none. */
  lemma RelayKind(m: Message)
    ensures FirstPresent(m, RelayOrder) ==
              if m.text != [] then Text
              else if m.photoSizes > 0 then Photo
              else if m.hasDocument then Document
              else Unknown
  {
    assert RelayOrder[1..] == [Photo, Document];
    assert [Photo, Document][1..] == [Document];
    assert [Document][1..] == [];
    assert FirstPresent(m, [Document]) == if m.hasDocument then Document else Unknown;
    assert FirstPresent(m, [Photo, Document]) == if m.photoSizes > 0 then Photo else FirstPresent(m, [Document]);
  }

  /** The single call that re-emits an administrator's message into the target group, if its kind is relayed. */
  function RelayedContent(m: Message, target: ReplyTarget): seq<Action>
  {
    var thread := Under(target.messageId);
    match FirstPresent(m, RelayOrder)
    case Text => [SendMessage(target.groupId, Verbatim(m.text), thread, None)]
    case Photo =>
      var caption := match m.caption case None => None case Some(c) => Some(Verbatim(c));
      [SendMedia(target.groupId, Photo, caption, thread, None)]
    case Document => [SendMedia(target.groupId, Document, None, thread, None)]
    case _ => []
  }

  /**
   The send block of `process_admin_reply` for a target group that is still
   registered: relay the content, then confirm to the administrator, or report
   the failure when the relay or the confirmation fails.
   */
  function RelayActions(m: Message, target: ReplyTarget, title: string, failing: set<int>): seq<Action>
  {
    var send := RelayedContent(m, target);
    if send != [] && target.groupId in failing then
      send + [Respond(m.chatId, SendFailed)]
    else
      send + [Respond(m.chatId, SentToGroup(title))] +
      (if m.chatId in failing then [Respond(m.chatId, SendFailed)] else [])
  }

  /** `process_admin_reply` for the administrator `admin`, whose message is `m`. */
  function AdminReply(m: Message, admin: int, context: map<int, ReplyTarget>, groups: map<int, GroupConfig>,
                      failing: set<int>): ReplyOutcome
  {
    if admin !in context then ReplyOutcome(context, [])
    else
      var target := context[admin];
      if target.groupId !in groups then ReplyOutcome(context, [Respond(m.chatId, TargetInvalid)])
      else ReplyOutcome(context - {admin}, RelayActions(m, target, groups[target.groupId].title, failing))
  }

  /** `handle_private_message`: deny, dispatch to the pending reply, or show the hint. */
  function PrivateMessage(m: Message, admins: seq<int>, context: map<int, ReplyTarget>,
                          groups: map<int, GroupConfig>, failing: set<int>): ReplyOutcome
  {
    match m.sender
    case None => ReplyOutcome(context, [])
    case Some(u) =>
      if u !in admins then ReplyOutcome(context, [Respond(m.chatId, PermissionDenied)])
      else if m.isReply && u in context then AdminReply(m, u, context, groups, failing)
      else ReplyOutcome(context, [Respond(m.chatId, ReplyHint)])
  }

  /** Every call of the relay other than the answers to the administrator goes to the target group. */
  function Relayed(acts: seq<Action>): seq<Action>
  {
    if acts == [] then []
    else (if acts[0].Respond? then [] else [acts[0]]) + Relayed(acts[1..])
  }

  lemma {:induction false} RelayedAppend(a: seq<Action>, b: seq<Action>)
    ensures Relayed(a + b) == Relayed(a) + Relayed(b)
  {
    if a != [] {
      assert (a + b)[1..] == a[1..] + b;
      RelayedAppend(a[1..], b);
    } else {
      assert a + b == b;
    }
  }

  lemma {:induction false} RelayedOfAnswers(acts: seq<Action>)
    requires forall i :: 0 <= i < |acts| ==> acts[i].Respond?
    ensures Relayed(acts) == []
  {
    if acts != [] {
      assert acts[0].Respond?;
      RelayedOfAnswers(acts[1..]);
    }
  }

  /** Of all the calls of the send block, the ones not answering the administrator are exactly the relayed content. */
  lemma RelayedIsContent(m: Message, target: ReplyTarget, title: string, failing: set<int>)
    ensures Relayed(RelayActions(m, target, title, failing)) == RelayedContent(m, target)
  {
    RelayKind(m);
    var send := RelayedContent(m, target);
    var all := RelayActions(m, target, title, failing);
    var rest := all[|send|..];
    assert all == send + rest;
    assert forall i :: 0 <= i < |rest| ==> rest[i].Respond?;
    RelayedOfAnswers(rest);
    assert Relayed(send) == send by {
      if send != [] {
        assert !send[0].Respond? && send[1..] == [];
      }
    }
    RelayedAppend(send, rest);
  }

  /**
   An admin reply re-emits the message into the stored group exactly once,
   threaded under the stored message, when it has text, a photo or a
   document, and sends nothing to the group otherwise. Text is relayed
   verbatim, a photo keeps its caption, a document goes without one.
   */
  lemma RelaySendsOnce(m: Message, target: ReplyTarget, title: string, failing: set<int>)
    ensures var sent := Relayed(RelayActions(m, target, title, failing));
            var thread := Under(target.messageId);
            && |sent| == (if m.text != [] || m.photoSizes > 0 || m.hasDocument then 1 else 0)
            && (forall i :: 0 <= i < |sent| ==>
                  sent[i].Recipient() == target.groupId &&
                  (sent[i].SendMessage? || sent[i].SendMedia?) && sent[i].thread == thread)
            && (m.text != [] ==> sent == [SendMessage(target.groupId, Verbatim(m.text), thread, None)])
            && (m.text == [] && m.photoSizes > 0 ==>
                  |sent| == 1 && sent[0].SendMedia? && sent[0].kind == Photo &&
                  (match m.caption case None => sent[0].caption.None?
                                   case Some(c) => sent[0].caption == Some(Verbatim(c))))
            && (m.text == [] && m.photoSizes == 0 && m.hasDocument ==>
                  sent == [SendMedia(target.groupId, Document, None, thread, None)])
  {
    RelayedIsContent(m, target, title, failing);
    RelayKind(m);
  }

  /**
   The success confirmation is sent even when the message had neither text,
   photo nor document, so nothing reached the group.
   */
  lemma UnsupportedReplyConfirmed(m: Message, target: ReplyTarget, title: string, failing: set<int>)
    requires m.text == [] && m.photoSizes == 0 && !m.hasDocument
    requires m.chatId !in failing
    ensures RelayActions(m, target, title, failing) == [Respond(m.chatId, SentToGroup(title))]
  {
    RelayKind(m);
  }

  /** A target group that is no longer registered: the admin is told, nothing is relayed, the pending entry stays. */
  lemma InvalidTargetKeepsPending(m: Message, admin: int, context: map<int, ReplyTarget>,
                                  groups: map<int, GroupConfig>, failing: set<int>)
    requires admin in context && context[admin].groupId !in groups
    ensures AdminReply(m, admin, context, groups, failing) == ReplyOutcome(context, [Respond(m.chatId, TargetInvalid)])
  {
  }

  /**
   A target group that is registered: the pending entry of this administrator
   is removed whether the relay succeeds or fails, and no other entry changes.
   */
  lemma DispatchConsumesPending(m: Message, admin: int, context: map<int, ReplyTarget>,
                                groups: map<int, GroupConfig>, failing: set<int>)
    requires admin in context && context[admin].groupId in groups
    ensures var out := AdminReply(m, admin, context, groups, failing);
            && admin !in out.context
            && (forall a :: a in context && a != admin ==> a in out.context && out.context[a] == context[a])
            && out.context.Keys == context.Keys - {admin}
  {
  }

  /**
   Consumption happens once: after an administrator's reply went to a
   registered group, their next reply-gesture gets the hint, not a second relay.
   */
  lemma {:induction false} ReplyConsumedOnce(m: Message, m2: Message, admins: seq<int>, context: map<int, ReplyTarget>,
                                             groups: map<int, GroupConfig>, failing: set<int>)
    requires m.sender.Some? && m2.sender == m.sender && m.sender.value in admins
    requires m.isReply && m.sender.value in context && context[m.sender.value].groupId in groups
    ensures var first := PrivateMessage(m, admins, context, groups, failing);
            PrivateMessage(m2, admins, first.context, groups, failing) ==
              ReplyOutcome(first.context, [Respond(m2.chatId, ReplyHint)])
  {
    var first := PrivateMessage(m, admins, context, groups, failing);
    DispatchConsumesPending(m, m.sender.value, context, groups, failing);
    assert first.context == context - {m.sender.value};
  }

  /** A private message from anyone but an administrator is refused and changes nothing. */
  lemma NonAdminMessageDenied(m: Message, admins: seq<int>, context: map<int, ReplyTarget>,
                              groups: map<int, GroupConfig>, failing: set<int>)
    requires m.sender.Some? && m.sender.value !in admins
    ensures PrivateMessage(m, admins, context, groups, failing) ==
              ReplyOutcome(context, [Respond(m.chatId, PermissionDenied)])
  {
  }

  /**
   Private-message routing for an administrator: a reply-gesture with a
   pending target is dispatched to the reply handler, anything else gets the
   hint and changes nothing.
   */
  lemma AdminMessageRoutes(m: Message, admins: seq<int>, context: map<int, ReplyTarget>,
                           groups: map<int, GroupConfig>, failing: set<int>)
    requires m.sender.Some? && m.sender.value in admins
    ensures var u := m.sender.value;
            var out := PrivateMessage(m, admins, context, groups, failing);
            && (m.isReply && u in context ==> out == AdminReply(m, u, context, groups, failing))
            && (!(m.isReply && u in context) ==> out == ReplyOutcome(context, [Respond(m.chatId, ReplyHint)]))
  {
  }

  // ------------------------------------------------------------ reply buttons

  /** `handle_button_click`: the new pending replies and the calls made for one button click. */
  function ButtonClick(user: int, data: string, admins: seq<int>, context: map<int, ReplyTarget>,
                       failing: set<int>): ReplyOutcome
  {
    var retry := if user in failing then [AnswerQuery(user, OperationFailed)] else [];
    if user !in admins then ReplyOutcome(context, [AnswerQuery(user, PermissionDenied)] + retry)
    else
      match ParseClick(data)
      case NotReply => ReplyOutcome(context, [DeleteQueryMessage(user)] + retry)
      case Malformed => ReplyOutcome(context, [AnswerQuery(user, OperationFailed)])
      case ReplyTo(g, mid) =>
        ReplyOutcome(context[user := ReplyTarget(g, mid)],
                     [AnswerQuery(user, EnterReply)] +
                     (if user in failing then [AnswerQuery(user, OperationFailed)] else [DeleteQueryMessage(user)]))
  }

  /** A click by a non-administrator changes no pending reply, whatever its payload. */
  lemma NonAdminClickIgnored(user: int, data: string, data2: string, admins: seq<int>,
                             context: map<int, ReplyTarget>, failing: set<int>)
    requires user !in admins
    ensures ButtonClick(user, data, admins, context, failing).context == context
    ensures ButtonClick(user, data, admins, context, failing) == ButtonClick(user, data2, admins, context, failing)
  {
  }

  /**
   A click by an administrator on a well-formed reply payload replaces that
   administrator's pending reply with the parsed target and leaves every other
   administrator's entry as it was.
   */
  lemma AdminClickSetsTarget(user: int, data: string, admins: seq<int>, context: map<int, ReplyTarget>,
                             failing: set<int>)
    requires user in admins && ParseClick(data).ReplyTo?
    ensures var after := ButtonClick(user, data, admins, context, failing).context;
            && user in after && after[user] == ReplyTarget(ParseClick(data).groupId, ParseClick(data).messageId)
            && (forall a :: a != user ==> (a in after <==> a in context))
            && (forall a :: a != user && a in context ==> after[a] == context[a])
  {
  }

  /**
   A reply button clicked by an administrator sets exactly that
   administrator's pending reply to the button's group and message.
   */
  lemma {:induction false} ReplyButtonSetsTarget(user: int, b: Button, admins: seq<int>,
                                                 context: map<int, ReplyTarget>, failing: set<int>)
    requires user in admins
    ensures ButtonClick(user, b.Payload(), admins, context, failing).context ==
              context[user := ReplyTarget(b.groupId, b.messageId)]
  {
    ClickRoundTrip(b.groupId, b.messageId);
  }

  /**
   Last writer wins: of two reply-button clicks by the same administrator,
   the second one's target is the one stored, and other administrators'
   entries are untouched.
   */
  lemma {:induction false} LastClickWins(user: int, b1: Button, b2: Button, admins: seq<int>,
                                         context: map<int, ReplyTarget>, failing: set<int>)
    requires user in admins
    ensures var first := ButtonClick(user, b1.Payload(), admins, context, failing).context;
            ButtonClick(user, b2.Payload(), admins, first, failing).context ==
              context[user := ReplyTarget(b2.groupId, b2.messageId)]
  {
    ReplyButtonSetsTarget(user, b1, admins, context, failing);
    ReplyButtonSetsTarget(user, b2, admins, context[user := ReplyTarget(b1.groupId, b1.messageId)], failing);
    var first := context[user := ReplyTarget(b1.groupId, b1.messageId)];
    assert first[user := ReplyTarget(b2.groupId, b2.messageId)] == context[user := ReplyTarget(b2.groupId, b2.messageId)];
  }

  /**
   The whole reply path: an administrator clicks the button under their copy
   of group message `m`, then sends reply-gesture `r`. The content of `r` goes
   to the group of `m`, threaded under `m`, and the administrator is left with
   no pending reply.
   */
  lemma {:induction false} ClickThenReply(m: Message, r: Message, admin: int, admins: seq<int>,
                                          context: map<int, ReplyTarget>, groups: map<int, GroupConfig>,
                                          failing: set<int>)
    requires admin in admins && r.sender == Some(admin) && r.isReply
    requires m.chatId in groups
    ensures var clicked := ButtonClick(admin, ReplyButton(m.chatId, m.messageId).Payload(), admins, context, failing);
            var out := PrivateMessage(r, admins, clicked.context, groups, failing);
            && out.context == context - {admin}
            && Relayed(out.actions) == RelayedContent(r, ReplyTarget(m.chatId, m.messageId))
  {
    var b := ReplyButton(m.chatId, m.messageId);
    ReplyButtonSetsTarget(admin, b, admins, context, failing);
    var ctx := context[admin := ReplyTarget(m.chatId, m.messageId)];
    RelayedIsContent(r, ReplyTarget(m.chatId, m.messageId), groups[m.chatId].title, failing);
    assert ctx - {admin} == context - {admin};
  }

  /** A payload that is not a well-formed reply payload leaves the pending replies alone. */
  lemma MalformedClickIgnored(user: int, data: string, admins: seq<int>,
                              context: map<int, ReplyTarget>, failing: set<int>)
    requires !ParseClick(data).ReplyTo?
    ensures ButtonClick(user, data, admins, context, failing).context == context
  {
  }

  // ------------------------------------------------------------ /groups

  /**
   The answer to `/groups`: a refusal for anyone but an administrator, the
   empty-registry note, or the listing of every registered group.
   */
  function GroupsReply(caller: int, admins: seq<int>, groups: map<int, GroupConfig>): (n: Notice)
    ensures n == PermissionDenied <==> caller !in admins
    ensures n == NoGroups <==> caller in admins && groups == map[]
    ensures n.GroupList? <==> caller in admins && groups != map[]
    ensures n.GroupList? ==> n.groups == groups
  {
    if caller !in admins then PermissionDenied
    else if groups == map[] then NoGroups
    else GroupList(groups)
  }

  // ------------------------------------------------------------ /addadmin

  /** The administrator list after a command, with the calls made. */
  datatype AdminOutcome = AdminOutcome(admins: seq<int>, actions: seq<Action>)

  /** `/addadmin <id>` sent by `caller` in `chat`. */
  function AddAdminCommand(caller: int, chat: int, args: seq<string>, admins: seq<int>): AdminOutcome
  {
    if caller !in admins then AdminOutcome(admins, [Respond(chat, PermissionDenied)])
    else if args == [] then AdminOutcome(admins, [Respond(chat, AddAdminUsage)])
    else
      match ParseInt(args[0])
      case None => AdminOutcome(admins, [Respond(chat, InvalidUserId)])
      case Some(id) =>
        if id !in admins then AdminOutcome(admins + [id], [Respond(chat, AdminAdded(id))])
        else AdminOutcome(admins, [Respond(chat, AlreadyAdmin)])
  }

  predicate NoDuplicates(s: seq<int>)
  {
    forall i, j :: 0 <= i < j < |s| ==> s[i] != s[j]
  }

  /**
   `/addadmin` only ever appends a new id at the end: the list keeps its
   order, gains no duplicate, and is unchanged for a non-administrator, a
   missing argument or a non-integer argument.
   */
  lemma AddAdminAppends(caller: int, chat: int, args: seq<string>, admins: seq<int>)
    ensures var after := AddAdminCommand(caller, chat, args, admins).admins;
            && (after == admins ||
                (caller in admins && args != [] && ParseInt(args[0]).Some? &&
                 ParseInt(args[0]).value !in admins && after == admins + [ParseInt(args[0]).value]))
            && (NoDuplicates(admins) ==> NoDuplicates(after))
            && (caller !in admins || args == [] || ParseInt(args[0]).None? ==> after == admins)
            && (caller in admins && args != [] && ParseInt(args[0]).Some? ==>
                  after == if ParseInt(args[0]).value in admins then admins else admins + [ParseInt(args[0]).value])
  {
  }
}
