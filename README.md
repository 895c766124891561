# Relay bot: routing and pending-reply engine

This project models the core of a Telegram relay bot (`main.py`). The bot
registers the groups it is added to with administrator status. A message in
a registered group that has a sender and is text, a photo, a document or a
video is copied to each administrator, with a "reply" button under the copy. When an administrator clicks the button, the bot records a *pending
reply* for that administrator: a group and a message to answer under. The
administrator's next reply-gesture in the private chat is then relayed into
that group. The model also covers the `/addadmin` and `/groups` commands and
the loading of the `ADMIN_IDS` list.

The model is split into modules:

- `Wrappers` holds `Option`.
- `PyText` gives Python's `str.strip`, `str.split`, `str.startswith`,
  `int()` and `str(int)`.
- `AdminConfig` is the `ADMIN_IDS` comprehension.
- `CallbackCodec` holds the `reply_{group}_{message}` button payload.
- `Messages` holds inbound messages and their classification.
- `Actions` holds the registry records and the outbound calls.
- `Routing` holds, for each handler, pure functions giving the calls it
  makes and the new pending replies or administrator list, each with lemmas.
- `Bot` is the class `BotData`. Its fields are `adminIds`, `groups`,
  `userContext` and `outbox`. Its methods update them in place, with loops
  over new members and over administrators. Each method is proved against
  the `Routing` function of the same handler.

How the transport is modelled:

- Every Telegram call is appended to `outbox`.
- Whether a call fails is the input `failing`. A call fails exactly when its
  recipient (chat or user id) is in that set.
- The bot's administrator status in a new group is the input `botIsAdmin`.
- The clock is the input `now`.

Behaviours of the code that the model keeps as written:

- An admin reply whose target group is gone keeps the pending entry
  (main.py:193-195). It is not consumed.
- A button click writes the pending reply without checking that the group is
  still registered (main.py:288-293).
- A private message is dispatched only when it is a reply-gesture *and* a
  pending entry exists (main.py:176). Otherwise the hint is sent.
- Only text, photo, document and video are told apart (main.py:127-131).
  Into a group, only text, photo and document are relayed (main.py:199-217).
- A reply with none of those is still confirmed as sent (main.py:219).
- Every administrator click whose payload is not a reply payload deletes the
  button message (main.py:296). Nothing else is acknowledged for it.

## Model

| member | source | states |
|---|---|---|
| PyText.Strip | main.py:53 | stripping leaves no whitespace (Python's `str.isspace` set) at either end, and returns the text unchanged when neither end is whitespace |
| PyText.StripMeaning | main.py:53 | stripping returns one contiguous slice of the input, and everything before and after that slice is whitespace |
| PyText.StripBlank | main.py:53 | a field is empty after stripping exactly when every character of it is whitespace |
| PyText.Split | main.py:52 | `split(sep)` yields at least one field, no field contains the separator, and joining the fields with the separator gives back the input |
| PyText.SplitJoin | main.py:289 | splitting a join of separator-free parts gives back exactly those parts |
| PyText.ParseInt | main.py:53 | `int()` succeeds only on text that is not blank after stripping |
| PyText.IntRoundTrip | main.py:137 | `int(str(n)) == n` for every integer, negative ones included |
| AdminConfig.NonBlankFields | main.py:53 | at most as many fields are kept as were given, each non-empty and already stripped |
| AdminConfig.NonBlankFieldsMeaning | main.py:53 | no field survives exactly when every character of every field is whitespace |
| AdminConfig.NonBlankFieldsOne | main.py:53 | a single field is kept, stripped, exactly when it is not all whitespace |
| AdminConfig.NonBlankFieldsAppend | main.py:53 | the fields are filtered one by one: the kept fields of a concatenation are the kept fields of each part, in order, so a blank field skips only itself |
| AdminConfig.ParseAdminIdsMeaning | main.py:52-53 | parsing succeeds exactly when every non-blank stripped comma field is an integer; the result has one id per such field, in order, equal to its `int()` value |
| AdminConfig.AdminIdsRoundTrip | main.py:52-53 | the comma-joined rendering of any id list parses back to that list |
| CallbackCodec.PayloadFields | main.py:137 | a payload `reply_G_M` with underscore-free G and M starts with `reply_` and splits into exactly `reply`, G, M |
| CallbackCodec.ClickAccepts | main.py:288-293 | a payload `reply_G_M` whose underscore-free fields G and M are integers is accepted as a reply to exactly those two ids |
| CallbackCodec.ClickRoundTrip | main.py:288-293 | the payload built for any group id and message id, negatives included, is parsed back to exactly that pair |
| CallbackCodec.ClickFields | main.py:288-293 | a payload accepted as a reply has exactly three underscore-free fields after `reply`, and the two ids are their `int()` values |
| Messages.FirstPresent | main.py:127-131 | the chosen kind is present in the message and in the probe order, and the result is `unknown` exactly when no probed kind is present |
| Messages.FirstPresentIsFirst | main.py:127-131 | a kind other than `unknown` is chosen only when no kind before it in the probe order is present |
| Messages.ClassifyCases | main.py:127-131 | a message is text if it has text, else photo, else document, else video, else `unknown`, each case as an if-and-only-if |
| Routing.NotifyAdmins | main.py:94-103 | one "new group" note per administrator, in list order, each addressed to that administrator |
| Routing.JoinWithoutRights | main.py:77-87 | without administrator status, no administrator is notified. If the bot is among the new members, the group is warned and then left, and leaving is skipped when the warning fails |
| Routing.JoinWithRights | main.py:89-111 | with administrator status and the bot among the members, every administrator is notified before the group is greeted; without the bot among them nothing is sent |
| Routing.JoinEndsAtFailedGreeting | main.py:89-113 | when the greeting fails, the walk ends there: its calls are exactly the administrators' notes and the greeting, whatever members follow |
| Routing.JoinRepeatsGreeting | main.py:73-111 | when the greeting succeeds, the walk goes on, and notifies the administrators and greets the group once for every occurrence of the bot among the new members |
| Routing.CopyShape | main.py:141-158 | an administrator's copy is addressed only to that administrator, is empty exactly for `unknown`, and every message and media send in it carries the reply button of the source message |
| Routing.FanOutUnknown | main.py:141-160 | an `unknown` message reaches no administrator |
| Routing.FanOutButtons | main.py:134-158 | every message and media send of a fan-out carries the reply button of the source message |
| Routing.CopyContactsOnce | main.py:143-158 | a copy of a known kind first contacts its administrator exactly once |
| Routing.FanOutReachesEveryAdmin | main.py:141-160 | a message of a known kind is attempted once for each administrator, in list order, whichever of them fail |
| Routing.FanOutIsolation | main.py:141-160 | the copy for the administrator at any position depends only on that administrator's own failure, not on the others' |
| Routing.RelayKind | main.py:199-217 | the relayed kind is text, else photo, else document, else none |
| Routing.RelayedIsContent | main.py:198-221 | the calls of the send block not addressed back to the administrator are exactly the relayed content |
| Routing.RelaySendsOnce | main.py:198-217 | the group receives exactly one send when the reply has text, a photo or a document, and none otherwise, threaded under the stored message. Text goes verbatim, a photo keeps its caption, a document goes without one |
| Routing.UnsupportedReplyConfirmed | main.py:219 | a reply with no text, photo or document still gets only the success confirmation |
| Routing.InvalidTargetKeepsPending | main.py:193-195 | when the stored group is gone, the administrator is told, nothing is relayed and the pending entry stays |
| Routing.DispatchConsumesPending | main.py:222-223 | when the stored group exists, that administrator's pending entry is removed whether the send succeeds or fails, and every other entry stays |
| Routing.ReplyConsumedOnce | main.py:176-223 | after a reply was dispatched to a registered group, the same administrator's next reply-gesture gets the hint, not a second relay |
| Routing.NonAdminMessageDenied | main.py:171-173 | a private message from a non-administrator gets the refusal and changes no pending entry |
| Routing.AdminMessageRoutes | main.py:176-180 | an administrator's reply-gesture with a pending entry is dispatched; any other administrator message gets the hint and changes nothing |
| Routing.NonAdminClickIgnored | main.py:283-285 | a non-administrator's click changes no pending entry, and its outcome does not depend on the payload |
| Routing.AdminClickSetsTarget | main.py:288-293 | an administrator's click on a well-formed reply payload replaces their pending entry with the parsed target and leaves every other entry as it was |
| Routing.MalformedClickIgnored | main.py:288-299 | a payload that is not a well-formed reply payload leaves the pending entries unchanged |
| Routing.ReplyButtonSetsTarget | main.py:288-293 | clicking a reply button sets the clicker's pending entry to that button's group and message |
| Routing.LastClickWins | main.py:290-293 | of two reply clicks by one administrator, the second target is the one stored |
| Routing.ClickThenReply | main.py:184-223 | after an administrator clicks the button under a copy of a registered group's message and then replies, the reply's content goes to that group under that message, and no pending entry is left for them |
| Routing.GroupsReply | main.py:231-248 | `/groups` refuses non-administrators, reports an empty registry, and otherwise lists exactly the registered groups |
| Routing.AddAdminAppends | main.py:255-271 | an administrator's integer argument that is not yet in the list is appended at the end, one already present leaves the list unchanged, and so do a non-administrator, a missing argument and a non-integer argument; the list never gains a duplicate |
| Bot.BotData.constructor | main.py:39-43 | the registry starts with no administrators, groups, pending replies or calls |
| Bot.BotData.InitAdminIds | main.py:49-57 | the administrator list becomes the parsed `ADMIN_IDS`; on a non-integer field the setup fails and nothing changes |
| Bot.BotData.HandleNewChatMembers | main.py:69-113 | registers (overwriting) the group exactly when the bot is among the new members and has administrator status, and makes exactly the calls of the join walk |
| Bot.BotData.JoinMember | main.py:73-111 | one pass of the member loop makes exactly the calls of one step of the join walk, registers the group only when the member is the bot with administrator status, and ends the handler only at the bot |
| Bot.BotData.RefuseGroup | main.py:77-87 | the group is warned and then left, the leave skipped when the warning fails, and no registry field changes |
| Bot.BotData.RegisterGroup | main.py:89-111 | the group is registered with the current time (overwriting an earlier entry), every administrator is notified, the group is greeted, and the failure reported is exactly the greeting's |
| Bot.BotData.NotifyAdminsOfGroup | main.py:94-103 | the administrator loop makes exactly one "new group" note per administrator, in list order, whichever fail, and changes no registry field |
| Bot.BotData.HandleGroupMessage | main.py:115-162 | an unregistered group changes nothing. Otherwise only that group's last activity is stamped, and the fan-out goes to every administrator when the sender is known |
| Bot.BotData.CopyToAdmins | main.py:141-160 | the administrator loop makes exactly the fan-out's calls and changes no registry field |
| Bot.BotData.ProcessAdminReply | main.py:184-225 | the pending entries and calls are those of the reply handler, and nothing happens when the sender has no pending entry |
| Bot.BotData.SendReply | main.py:197-221 | makes exactly the calls of the send block: the relay, then the confirmation or the failure report |
| Bot.BotData.RelayContent | main.py:198-217 | sends exactly the relayed content (text, else photo with caption, else document) and reports whether anything was sent |
| Bot.BotData.HandlePrivateMessage | main.py:164-182 | the pending entries and calls are those of private-message routing; groups and administrators are unchanged |
| Bot.BotData.ListGroups | main.py:228-250 | makes exactly one answer, the `/groups` reply, changes no state, and lists each group under the id it is registered with |
| Bot.BotData.AddAdmin | main.py:252-273 | the administrator list and calls are those of `/addadmin`; groups and pending replies are unchanged |
| Bot.BotData.HandleButtonClick | main.py:276-299 | the pending entries and calls are those of the click handler; groups and administrators are unchanged |

## Left out

- Telegram calls are not executed. They are recorded as `Action`s, and their
  texts are reduced to the data they carry (`Notice`).
- Failures are modelled per recipient: every call to a failing chat or user
  fails for the whole event. A call that fails while a later call to the
  same recipient succeeds cannot be represented.
- `verify_bot_permissions` (main.py:59-67) is the boolean input
  `botIsAdmin`. A failing `get_member` counts as "not administrator".
- `datetime.now()` is the integer `now`. The `strftime` and HTML formatting
  of the `/groups` listing (main.py:239-246) is left out. The listing is
  modelled as the registry itself.
- Sender display names, button labels and media file ids are left out. The
  photo sizes are counted and not kept.
- The zero-width characters around `**` on main.py:155 and `media[-1]` on a
  document or video object (main.py:152-155) are left out. Each media copy is
  one call that succeeds or fails like any other.
- `main()` and its handler wiring (main.py:302-333) are not part of this
  model. That includes the undefined `start` handler on main.py:316. Logging,
  async scheduling and concurrency are also left out.
- `GroupConfig` is a value in the `groups` map, while Python mutates the
  object in place (main.py:125). No `GroupConfig` object is ever shared, so
  the two agree.
- PyText.ParseInt: accepts ASCII digits only. Python's `int()` also accepts
  other Unicode decimal digits.
- `handle_button_click`'s error path when `update.callback_query` is `None`
  is left out: main.py:280 then raises `AttributeError`, and the retry on
  main.py:299 raises again on `None`. The model always has a query.
- Bot.BotData.HandleButtonClick and Routing.ButtonClick: when the first
  answer fails, the retried "operation failed" answer (main.py:299) goes to
  the same user. It fails too and ends the handler. The model records the
  attempt and nothing after it.
- PyText.ParseInt and PyText.IntRoundTrip: accept integers of any length.
  Recent CPython releases reject decimal `int()` and `str()` beyond 4300
  digits with `ValueError`. No Telegram id comes near that.
