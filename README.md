# Conversation bot for a student/curator chat: a verified model

The bot walks every user through a short registration dialog (`/start`,
a nickname, a name), then offers a menu. Students send assignments
(a photo with a caption) and theory questions, which the bot relays to
every administrator. Administrators send reminders and call recordings,
which the bot broadcasts to every non-administrator. Everything lives in
memory:

- the `students` dictionary maps a user id to `{nickname, name, is_admin}`;
- each user has a scratch dictionary (`user_data`);
- the conversation handler keeps each user's current state, one of seven.

This project models that core in Dafny:

- `types.dfy` (module `Types`): states, user records, scratch data,
  inbound messages and outbound sends.
- `conversation.dfy` (module `Conversation`): the menu labels, the two
  menu-choice handlers, and the wiring table. The wiring table says which
  message kind goes to which handler in which state; `/start` is the entry
  point and `/done` the fallback.
- `relay.dfy` (module `Relay`): the role-filtered walk over the dictionary
  in insertion order, and the tagged captions.
- `handlers.dfy` (module `Handlers`): every handler as a function on the
  bot's memory. It also holds `Update`, the processing of one inbound
  message, and `Run`, a sequence of them. The lemmas state what each
  handler does and which invariant every reachable memory keeps.
- `bot.dfy` (module `ConversationBot`): class `Bot`. Its fields are the
  dictionary, the scratch data and the conversation states. The handler
  methods update the fields in place and build each relay with a loop over
  the key order. Each method is proved equal to its function in `Handlers`.

The dictionary is modelled as a map plus the sequence of its keys in
insertion order. Overwriting an existing key keeps its position; a new key
goes at the end, as in a Python dictionary.

A Python `KeyError` is modelled as the outcome `Raised`. When a handler
raises, the conversation keeps its state, and scratch data written before
the error stays written. In `upload_assignment`, `upload_theory` and
`handle_video_name` the lookup that can fail sits inside the relay loop, so
they raise only at their first matching recipient. `register_nickname` and
`register_name` raise at once when the caller has no record.

Messages the bot sends back to the sender (prompts, confirmations, menu
keyboards) are not modelled. The outbox holds the sends made with
`send_message`, `send_photo` and `send_video`, not the replies to the sender.
An administrator who relays an assignment or a question is among its
recipients.

The model follows what the code does, also where it falls short of the bot's evident design:

- In MainMenu, only the student choice handler is wired, for administrators
  too. So the administrator menu, SendReminder and SendVideo cannot be
  reached. The model proves this; it does not gate choices by role.
- Registration persists nothing. `register_name` does not call the
  database helper.
- A relay has no per-recipient failure isolation and no delivery report.
- The reminder is sent as the raw text to non-administrators. This is the
  second `handle_reminder` definition, which replaces the first.

## Model

| member | source | states |
|---|---|---|
| Conversation.IsAdminName | main.py:38 | no contract of its own: the allowlist test; its effect on the role flag is stated by `Handlers.StartRecord` and `Handlers.WiredStart` |
| Conversation.StateRoute | main.py:251-260 | no contract of its own: each state's handler list; its properties are stated by `Conversation.Route`, `Handlers.UnmatchedIgnored` and `Handlers.UncaptionedPhotoIgnored` |
| Relay.Description | main.py:166 | no contract of its own: the caption or the fixed "no description" text; stated by `Handlers.AssignmentRelay` and `Handlers.WiredAssignmentRelay` (a non-empty caption is kept as sent) |
| Relay.AssignmentCaption | main.py:174 | no contract of its own: the tagged assignment caption; `Handlers.AssignmentRelay` states that every admin receives exactly it |
| Relay.TheoryText | main.py:192 | no contract of its own: the tagged theory text; `Handlers.TheoryRelay` states that every admin receives exactly it |
| Relay.VideoCaption | main.py:234 | no contract of its own: the titled video caption; `Handlers.VideoLastWins` states that every non-admin receives exactly it |
| Handlers.Start | main.py:34-45 | no contract of its own: `start` on memory; stated by `Handlers.StartRecord` and `Handlers.WiredStart`, and `ConversationBot.Bot.Start` is proved equal to it |
| Handlers.RegisterNickname | main.py:49-53 | no contract of its own: `register_nickname` on memory; stated by `Handlers.RegistrationTouchesOnlyCaller` and `Handlers.WiredRegistration` |
| Handlers.RegisterName | main.py:57-67 | no contract of its own: `register_name` on memory; stated by `Handlers.RegistrationTouchesOnlyCaller` and `Handlers.WiredRegistration` |
| Handlers.StudentChoice | main.py:149-157 | no contract of its own: `handle_student_choice` on memory; stated by `Conversation.HandleStudentChoice` and `Handlers.MenuIgnoresRole` |
| Handlers.SubmitAssignment | main.py:161-179 | no contract of its own: `upload_assignment` on memory; stated by `Handlers.AssignmentRelay`, `Handlers.AssignmentEdgeCases` and `Handlers.WiredAssignmentRelay` |
| Handlers.SubmitTheory | main.py:183-195 | no contract of its own: `upload_theory` on memory; stated by `Handlers.TheoryRelay`, `Handlers.TheoryEdgeCases` and `Handlers.WiredTheoryRelay` |
| Handlers.HandleReminder | main.py:205-212 | no contract of its own: the effective `handle_reminder` on memory; stated by `Handlers.ReminderBroadcast` |
| Handlers.HandleVideo | main.py:222-226 | no contract of its own: `handle_video` on memory; stated by `Handlers.VideoStored` and `Handlers.VideoLastWins` |
| Handlers.HandleVideoName | main.py:230-237 | no contract of its own: `handle_video_name` on memory; stated by `Handlers.VideoBroadcast`, `Handlers.VideoLastWins` and `Handlers.VideoNameWithoutVideo` |
| Handlers.Done | main.py:241-242 | no contract of its own: `done` on memory; stated by `Handlers.DoneResets` |
| Handlers.Update | main.py:248-263 | no contract of its own: one message through the conversation handler, where an unmatched message changes nothing, a returned None keeps the state, and a raise keeps the state and the earlier scratch-data writes; stated by `Handlers.UnmatchedIgnored`, `Handlers.MenuIgnoresRole`, `Handlers.DoneResets`, `Handlers.WiredStart`, `Handlers.WiredRegistration`, `Handlers.WiredAssignmentRelay`, `Handlers.WiredTheoryRelay` and `Handlers.UpdateKeepsInvariant` |
| Handlers.Run | main.py:265-266 | no contract of its own: polling, as a sequence of messages handled in turn; stated by `Handlers.RunKeepsInvariant`, `Handlers.ReachableNeverRaises` and `Handlers.RegistrationScenario` |
| Conversation.HandleStudentChoice | main.py:149-157 | each of the two student labels selects its upload state, and only that exact label does; every other text gives no next state |
| Conversation.HandleAdminChoice | main.py:114-123 | the reminder label gives SendReminder, the video label gives SendVideo, anything else gives MainMenu, each as an if-and-only-if |
| Conversation.Route | main.py:248-263 | the chosen handler accepts the message kind; outside a conversation only `/start` matches; `/start` never matches inside one; `/done` matches in every state; in UploadAssignment anything but a captioned photo or `/done` is unmatched; in MainMenu every plain text goes to the student choice |
| Relay.Recipients | main.py:169-170 | the filtered walk selects only ids that are in the dictionary with the wanted role, and no more ids than the walk visits |
| Relay.RecipientsExactly | main.py:207-208 | over a key order without duplicates, the walk selects exactly the ids with the wanted role, each once |
| Relay.RecipientsPrefix | main.py:232-233 | what the walk selects from a prefix of the key order is a prefix of what it selects from the whole order |
| Relay.RolesPartition | main.py:188-189 | the admin walk and the non-admin walk split the dictionary: each user is in exactly one, and a non-user in neither |
| Relay.RecipientsIgnoreProfiles | main.py:51-59 | changing nicknames or names, with the keys and role flags kept, does not change who receives a relay |
| Relay.FanDelivers | main.py:232-234 | a fan-out reaches exactly the users of the wanted role, each once, in dictionary order, all with the same item |
| Handlers.StartRecord | main.py:34-45 | `start` gives the caller a record with empty nickname and name, and `is_admin` true iff the username is allowlisted; other records are unchanged; an existing key keeps its place and a new one is appended; the dictionary stays well formed; the result is Register |
| Handlers.RegistrationTouchesOnlyCaller | main.py:49-67 | `register_nickname` and `register_name` each set only their field of the caller's record and return Name and MainMenu; the role flag, the other records, the order and every relay's recipients are unchanged; without a record they raise |
| Handlers.AssignmentRelay | main.py:161-179 | a registered sender's photo goes to exactly the admins, each once, in dictionary order; each send has the largest size's file id and the tagged description; photo and description are kept; the caller's other scratch fields and every other user's scratch data are unchanged; the result is MainMenu |
| Handlers.AssignmentEdgeCases | main.py:163-177 | without a photo, memory is unchanged and MainMenu is returned with no sends; a caller without a record raises iff some admin exists |
| Handlers.TheoryRelay | main.py:183-195 | the tagged question goes to exactly the admins, each once; the question is kept; the caller's other scratch fields and every other user's scratch data are unchanged; the result is MainMenu |
| Handlers.TheoryEdgeCases | main.py:183-195 | a sender without a record makes `upload_theory` raise iff some admin exists, and the question is stored either way |
| Handlers.AdminReceivesOwnRelay | main.py:169-171 | the admin loops do not skip the sender: an admin who relays an assignment (with a photo) or a theory question is among its recipients |
| Handlers.ReminderBroadcast | main.py:205-212 | the raw reminder text goes to exactly the non-admins, each once, and to no admin; memory is unchanged; the result is MainMenu |
| Handlers.VideoStored | main.py:222-226 | `handle_video` stores the file id in the caller's scratch data and returns SendVideo with no sends; the caller's other scratch fields, every other user's scratch data, the dictionary and the conversations are unchanged |
| Handlers.VideoBroadcast | main.py:230-237 | with a video stored, the titled video goes to exactly the non-admins, each once, in dictionary order, with the stored file id; memory is unchanged; the result is MainMenu |
| Handlers.VideoLastWins | main.py:222-237 | after two videos and a title, every non-admin (and no one else) receives the second file id with the titled caption; both video steps return SendVideo; the title step returns MainMenu |
| Handlers.VideoNameWithoutVideo | main.py:230-237 | with no stored video, the title handler raises iff some non-admin exists, and memory is unchanged |
| Handlers.UnmatchedIgnored | main.py:248-263 | a message that no handler of the current state (nor the fallback or entry point) accepts changes nothing and sends nothing |
| Handlers.UncaptionedPhotoIgnored | main.py:254 | in UploadAssignment a photo without a caption, or with an empty one, keeps the state and the memory and sends nothing |
| Handlers.DoneResets | main.py:241-242 | `/done` from any state sets MainMenu, with no sends and no other change |
| Handlers.MenuIgnoresRole | main.py:253 | in MainMenu only the two student labels move a user on, whatever the role; the admin labels leave everything unchanged |
| Handlers.WiredAssignmentRelay | main.py:254 | through the wiring, a captioned photo in UploadAssignment reaches exactly the admins with the last size's file id and the caption as sent, and the user returns to MainMenu |
| Handlers.WiredTheoryRelay | main.py:255 | through the wiring, a text in UploadTheory reaches exactly the admins, tagged with the sender, and the user returns to MainMenu |
| Handlers.WiredRegistration | main.py:49-67 | through the wiring, a text in Register becomes the caller's nickname and moves the user to Name, a text in Name becomes the name and moves the user to MainMenu; nothing is sent, nothing raises and nothing else changes |
| Handlers.WiredStart | main.py:34-45 | through the wiring, `/start` from a user outside a conversation gives a fresh record with the allowlist role and puts the user in Register, with no sends |
| Handlers.NoRouteToAdminStates | main.py:250-260 | from any state other than the two admin states, no routed handler returns SendReminder or SendVideo |
| Handlers.ApplyKeepsDirectory | main.py:36 | every handler keeps the dictionary well formed and never removes a key |
| Handlers.UpdateKeepsInvariant | main.py:248-263 | one message preserves the invariant: a well-formed dictionary, a record for every user in a conversation, nobody in an admin state; from such a memory no handler raises |
| Handlers.RunKeepsInvariant | main.py:248-263 | the invariant holds after any sequence of messages |
| Handlers.ReachableNeverRaises | main.py:248-263 | after any sequence of messages from process start: the invariant holds, no admin state is occupied, and the next message raises nothing |
| Handlers.RegistrationScenario | main.py:34-67 | `/start`, "ann", "Ann K" from a non-admin user give the record ("ann", "Ann K", not admin) and state MainMenu |
| ConversationBot.Bot.constructor | main.py:30 | the bot starts with empty dictionaries and no conversations |
| ConversationBot.Bot.Start | main.py:34-45 | the in-place update equals `Handlers.Start` and keeps the dictionary well formed |
| ConversationBot.Bot.RegisterNickname | main.py:49-53 | the in-place update equals `Handlers.RegisterNickname` |
| ConversationBot.Bot.RegisterName | main.py:57-67 | the in-place update equals `Handlers.RegisterName` |
| ConversationBot.Bot.SubmitAssignment | main.py:161-179 | the scratch-data write and the admin loop equal `Handlers.SubmitAssignment`, including raising at the first admin when the sender has no record |
| ConversationBot.Bot.SubmitTheory | main.py:183-195 | the scratch-data write and the admin loop equal `Handlers.SubmitTheory` |
| ConversationBot.Bot.HandleReminder | main.py:205-212 | the non-admin loop changes nothing and returns the sends of `Handlers.HandleReminder`; every send goes to a non-admin and carries the raw text |
| ConversationBot.Bot.HandleVideo | main.py:222-226 | the overwrite of the stored file id equals `Handlers.HandleVideo` |
| ConversationBot.Bot.HandleVideoName | main.py:230-237 | the non-admin loop changes nothing and equals `Handlers.HandleVideoName`; every send goes to a non-admin and carries the stored file id |
| ConversationBot.Bot.HandleUpdate | main.py:248-263 | routing, the handler call and the stored next state equal `Handlers.Update` |

## Left out

- Telegram transport: receiving updates, `reply_text`, the menu
  keyboards, `Application` and `run_polling`. Sends to other users appear
  only as outbox entries; prompts and confirmations to the sender are
  dropped.
- The sqlite helpers `init_db`, `add_user`, `is_user_registered`,
  `get_students` and `is_admin`. The conversation never calls them.
- `main_menu_admin` and `main_menu_student`: they only send a keyboard to
  the sender.
- `send_reminder`: nothing calls it.
- The first `handle_reminder` (main.py:128-137): the second definition
  replaces it when the module loads.
- Async execution, logging and the bot token.
- Group chats: the library keys conversations by chat and user. The model
  keys them by user, which is the same thing in private chats.
- `/start` sent inside an active conversation: the model treats it as
  unmatched. This follows the library's default of no re-entry, which the
  source does not show.
- Failure of individual sends: the source has no handling for it.
