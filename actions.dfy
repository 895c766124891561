/**
 The bot's registry records and the outbound calls it makes to the chat
 transport. The transport itself is not modelled: every call a handler makes
 is appended, in order, to a log of `Action`s.
 */
module Actions {
  import opened Wrappers
  import opened Messages
  import opened CallbackCodec

  /** A registered group: its id, its title when registered, and when it last had traffic. */
  datatype GroupConfig = GroupConfig(chatId: int, title: string, lastActivity: int)

  /** Where an administrator's next reply goes: a group, threaded under one of its messages. */
  datatype ReplyTarget = ReplyTarget(groupId: int, messageId: int)

  /** The fixed texts the bot sends; only their data-carrying parts are kept. */
  datatype Notice =
    | NeedAdminRights                  // the bot lacks administrator status in a new group
    | ForwardingActive                 // welcome message in a newly registered group
    | NewGroup(title: string, chatId: int)   // tells an administrator a group was registered
    | FromGroup(title: string)         // caption naming the group a copy comes from
    | PermissionDenied
    | ReplyHint                        // "reply to a forwarded message to interact"
    | TargetInvalid                    // the stored target group is no longer registered
    | SentToGroup(title: string)
    | SendFailed
    | NoGroups
    | GroupList(groups: map<int, GroupConfig>)   // the /groups listing; its formatting is not modelled
    | AddAdminUsage
    | AdminAdded(userId: int)
    | AlreadyAdmin
    | InvalidUserId
    | EnterReply                       // answer to a valid reply-button click
    | OperationFailed                  // answer after an exception in the button handler

  /** The text of a sent message: a fixed notice, or text relayed verbatim. */
  datatype Body = Canned(notice: Notice) | Verbatim(text: string)

  /** What a sent message is a reply to. */
  datatype Thread = NoThread | Under(messageId: int) | UnderForwardedCopy

  /** The inline "reply" button under an administrator's copy of a group message. */
  datatype Button = ReplyButton(groupId: int, messageId: int)
  {
    /** The callback data the button carries. */
    function Payload(): string
    {
      CallbackData(groupId, messageId)
    }
  }

  datatype Action =
    | SendMessage(chat: int, body: Body, thread: Thread, button: Option<Button>)
    | SendMedia(chat: int, kind: MessageType, caption: Option<Body>, thread: Thread, button: Option<Button>)
    | ForwardMessage(chat: int, fromChat: int, messageId: int)
    | Respond(chat: int, notice: Notice)         // `message.reply_text` in the chat the message came from
    | LeaveChat(chat: int)
    | AnswerQuery(user: int, notice: Notice)     // `query.answer`
    | DeleteQueryMessage(user: int)             // `query.delete_message`
  {
    /** The chat or user the call is addressed to. */
    function Recipient(): int
    {
      match this
      case SendMessage(c, _, _, _) => c
      case SendMedia(c, _, _, _, _) => c
      case ForwardMessage(c, _, _) => c
      case Respond(c, _) => c
      case LeaveChat(c) => c
      case AnswerQuery(u, _) => u
      case DeleteQueryMessage(u) => u
    }
  }
}
