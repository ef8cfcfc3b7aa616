/** The handlers of the bot as functions on the bot's memory, the conversation
    handler's treatment of one inbound message (`Update`), and what they keep
    true. */
module Handlers {
  import opened Types
  import opened Conversation
  import opened Relay

  /** Everything the bot holds in memory: the `students` dictionary (values
      and key order), the per-user scratch data and the conversation state of
      every user that is in a conversation. */
  datatype Memory = Memory(
    students: map<UserId, Student>,
    order: seq<UserId>,
    userData: map<UserId, UserData>,
    conv: map<UserId, State>)

  /** The memory at process start. */
  const Empty := Memory(map[], [], map[], map[])

  function DataOf(userData: map<UserId, UserData>, id: UserId): UserData {
    if id in userData then userData[id] else NoUserData
  }

  /** How a handler call ends: it returns a next state (None keeps the
      current one) after its sends, or it raises KeyError before any send. */
  datatype Outcome = Returned(next: Option<State>, sent: seq<Send>) | Raised

  /** The memory after a handler call, and how the call ended. */
  datatype Step = Step(memory: Memory, outcome: Outcome)

  // ---------------------------------------------------------------------
  // The handlers

  /** `start`: (re)create the caller's record with empty nickname and name and
      the role given by the allowlist. */
  function Start(m: Memory, u: User): Step {
    Step(m.(students := m.students[u.id := Student("", "", IsAdminName(u.username))],
            order := if u.id in m.students then m.order else m.order + [u.id]),
         Returned(Some(Register), []))
  }

  /** `register_nickname` */
  function RegisterNickname(m: Memory, id: UserId, text: string): Step {
    if id !in m.students then Step(m, Raised)
    else Step(m.(students := m.students[id := m.students[id].(nickname := text)]), Returned(Some(Name), []))
  }

  /** `register_name`; it shows a menu but stores nothing else. */
  function RegisterName(m: Memory, id: UserId, text: string): Step {
    if id !in m.students then Step(m, Raised)
    else Step(m.(students := m.students[id := m.students[id].(name := text)]), Returned(Some(MainMenu), []))
  }

  /** `handle_student_choice` */
  function StudentChoice(m: Memory, text: string): Step {
    Step(m, Returned(HandleStudentChoice(text), []))
  }

  /** `upload_assignment`: without a photo it only re-prompts; with one it
      stores the largest size and the description, then relays the photo to
      every admin. The sender's record is looked up at the first admin. */
  function SubmitAssignment(m: Memory, id: UserId, sizes: seq<FileId>, caption: Option<string>): Step {
    if |sizes| == 0 then Step(m, Returned(Some(MainMenu), []))
    else
      var photo := sizes[|sizes| - 1];
      var description := Description(caption);
      var m' := m.(userData := m.userData[id := DataOf(m.userData, id).(photo := Some(photo), description := Some(description))]);
      var admins := Recipients(m.order, m.students, true);
      if id in m.students then
        Step(m', Returned(Some(MainMenu), Fan(admins, PhotoItem(photo, AssignmentCaption(m.students[id], description)))))
      else if admins == [] then Step(m', Returned(Some(MainMenu), []))
      else Step(m', Raised)
  }

  /** `upload_theory`: store the question, then relay it to every admin. */
  function SubmitTheory(m: Memory, id: UserId, text: string): Step {
    var m' := m.(userData := m.userData[id := DataOf(m.userData, id).(theoryQuestion := Some(text))]);
    var admins := Recipients(m.order, m.students, true);
    if id in m.students then
      Step(m', Returned(Some(MainMenu), Fan(admins, TextItem(TheoryText(m.students[id], text)))))
    else if admins == [] then Step(m', Returned(Some(MainMenu), []))
    else Step(m', Raised)
  }

  /** `handle_reminder` (the second, effective definition): the raw text to
      every non-admin. */
  function HandleReminder(m: Memory, text: string): Step {
    Step(m, Returned(Some(MainMenu), Fan(Recipients(m.order, m.students, false), TextItem(text))))
  }

  /** `handle_video`: remember the file id, replacing any earlier one. */
  function HandleVideo(m: Memory, id: UserId, file: FileId): Step {
    Step(m.(userData := m.userData[id := DataOf(m.userData, id).(videoFile := Some(file))]),
         Returned(Some(SendVideo), []))
  }

  /** `handle_video_name`: the remembered video to every non-admin, with the
      title in the caption. The stored file id is looked up at the first
      non-admin. */
  function HandleVideoName(m: Memory, id: UserId, title: string): Step {
    var viewers := Recipients(m.order, m.students, false);
    var video := DataOf(m.userData, id).videoFile;
    if video.Some? then Step(m, Returned(Some(MainMenu), Fan(viewers, VideoItem(video.value, VideoCaption(title)))))
    else if viewers == [] then Step(m, Returned(Some(MainMenu), []))
    else Step(m, Raised)
  }

  /** `done` */
  function Done(m: Memory): Step {
    Step(m, Returned(Some(MainMenu), []))
  }

  /** Call handler `h` on message `c` from `u`. */
  function Apply(h: Handler, m: Memory, u: User, c: Content): Step
    requires Accepts(h, c)
  {
    match h
    case OnStart => Start(m, u)
    case OnRegisterNickname => RegisterNickname(m, u.id, c.text)
    case OnRegisterName => RegisterName(m, u.id, c.text)
    case OnStudentChoice => StudentChoice(m, c.text)
    case OnUploadAssignment => SubmitAssignment(m, u.id, c.sizes, c.caption)
    case OnUploadTheory => SubmitTheory(m, u.id, c.text)
    case OnReminder => HandleReminder(m, c.text)
    case OnVideo => HandleVideo(m, u.id, c.fileId)
    case OnVideoName => HandleVideoName(m, u.id, c.text)
    case OnDone => Done(m)
  }

  // ---------------------------------------------------------------------
  // The conversation handler

  function Current(m: Memory, id: UserId): Option<State> {
    if id in m.conv then Some(m.conv[id]) else None
  }

  /** The effect of one inbound message: the new memory, the sends, and
      whether the handler raised. */
  datatype Reaction = Reaction(memory: Memory, sent: seq<Send>, raised: bool)

  /** One inbound message: route it; an unmatched message changes nothing, a
      handler that raises keeps the conversation state (its earlier writes
      stay), a returned state replaces the user's conversation state. */
  function Update(m: Memory, u: User, c: Content): Reaction {
    match Route(Current(m, u.id), c)
    case None => Reaction(m, [], false)
    case Some(h) =>
      var st := Apply(h, m, u, c);
      match st.outcome
      case Raised => Reaction(st.memory, [], true)
      case Returned(next, sent) =>
        var conv := if next.Some? then st.memory.conv[u.id := next.value] else st.memory.conv;
        Reaction(st.memory.(conv := conv), sent, false)
  }

  /** A sequence of inbound messages, processed one after the other. */
  function Run(m: Memory, events: seq<(User, Content)>): Memory
    decreases |events|
  {
    if events == [] then m
    else Run(Update(m, events[0].0, events[0].1).memory, events[1..])
  }

  /** What holds of every memory the bot can reach: a well-formed dictionary,
      a record for every user in a conversation, and nobody in either of the
      two administrator states. */
  ghost predicate Invariant(m: Memory) {
    && Directory(m.students, m.order)
    && (forall k :: k in m.conv ==> k in m.students)
    && (forall k :: k in m.conv ==> m.conv[k] != SendReminder && m.conv[k] != SendVideo)
  }

  // ---------------------------------------------------------------------
  // Properties of single handlers

  /** `start` writes exactly the caller's record, with empty nickname and
      name and `is_admin` true iff the username is allowlisted; an existing
      record is overwritten in place, a new one is appended to the order. */
  lemma StartRecord(m: Memory, u: User)
    requires Directory(m.students, m.order)
    ensures var m' := Start(m, u).memory;
      && Start(m, u).outcome == Returned(Some(Register), [])
      && Directory(m'.students, m'.order)
      && m'.students.Keys == m.students.Keys + {u.id}
      && m'.students[u.id] == Student("", "", u.username.Some? && u.username.value in Admins)
      && (forall k :: k in m.students && k != u.id ==> m'.students[k] == m.students[k])
      && (u.id in m.students ==> m'.order == m.order)
      && (u.id !in m.students ==> m'.order == m.order + [u.id])
      && m'.userData == m.userData && m'.conv == m.conv
  {
  }

  /** Registering a nickname or a name changes only that field of the
      caller's record; the role flags, the key order and therefore every
      relay's recipients stay the same. Without a record the handlers
      raise. */
  lemma RegistrationTouchesOnlyCaller(m: Memory, id: UserId, text: string, admins: bool)
    ensures RegisterNickname(m, id, text).outcome.Raised? <==> id !in m.students
    ensures RegisterName(m, id, text).outcome.Raised? <==> id !in m.students
    ensures id in m.students ==>
      var n := RegisterNickname(m, id, text);
      && n.outcome == Returned(Some(Name), [])
      && n.memory.students.Keys == m.students.Keys
      && n.memory.students[id] == Student(text, m.students[id].name, m.students[id].isAdmin)
      && (forall k :: k in m.students && k != id ==> n.memory.students[k] == m.students[k])
      && n.memory.order == m.order && n.memory.userData == m.userData && n.memory.conv == m.conv
      && Recipients(n.memory.order, n.memory.students, admins) == Recipients(m.order, m.students, admins)
    ensures id in m.students ==>
      var n := RegisterName(m, id, text);
      && n.outcome == Returned(Some(MainMenu), [])
      && n.memory.students.Keys == m.students.Keys
      && n.memory.students[id] == Student(m.students[id].nickname, text, m.students[id].isAdmin)
      && (forall k :: k in m.students && k != id ==> n.memory.students[k] == m.students[k])
      && n.memory.order == m.order && n.memory.userData == m.userData && n.memory.conv == m.conv
      && Recipients(n.memory.order, n.memory.students, admins) == Recipients(m.order, m.students, admins)
  {
    if id in m.students {
      RecipientsIgnoreProfiles(m.order, m.students, RegisterNickname(m, id, text).memory.students, admins);
      RecipientsIgnoreProfiles(m.order, m.students, RegisterName(m, id, text).memory.students, admins);
    }
  }

  /** A registered sender's photo goes to exactly the admins, each once, in
      dictionary order, each send carrying the largest size's file id and
      the tagged description; the photo and description are kept in the
      sender's scratch data and the menu follows. */
  lemma AssignmentRelay(m: Memory, id: UserId, sizes: seq<FileId>, caption: Option<string>)
    requires Directory(m.students, m.order)
    requires id in m.students && |sizes| > 0
    ensures var st := SubmitAssignment(m, id, sizes, caption);
      && st.outcome.Returned? && st.outcome.next == Some(MainMenu)
      && Targets(st.outcome.sent) == Recipients(m.order, m.students, true)
      && NoDuplicates(Targets(st.outcome.sent))
      && (forall k :: k in Targets(st.outcome.sent) <==> k in m.students && m.students[k].isAdmin)
      && (forall s :: s in st.outcome.sent ==>
            s.item == PhotoItem(sizes[|sizes| - 1], AssignmentCaption(m.students[id], Description(caption))))
      && st.memory.students == m.students && st.memory.order == m.order && st.memory.conv == m.conv
      && DataOf(st.memory.userData, id).photo == Some(sizes[|sizes| - 1])
      && DataOf(st.memory.userData, id).description == Some(Description(caption))
      && DataOf(st.memory.userData, id).theoryQuestion == DataOf(m.userData, id).theoryQuestion
      && DataOf(st.memory.userData, id).videoFile == DataOf(m.userData, id).videoFile
      && (forall k :: k != id ==> DataOf(st.memory.userData, k) == DataOf(m.userData, k))
  {
    FanDelivers(m.students, m.order, true,
      PhotoItem(sizes[|sizes| - 1], AssignmentCaption(m.students[id], Description(caption))));
  }

  /** A message without a photo makes `upload_assignment` only re-prompt;
      a caller without a record makes it raise exactly when there is an
      admin to send to. */
  lemma AssignmentEdgeCases(m: Memory, id: UserId, sizes: seq<FileId>, caption: Option<string>)
    requires Directory(m.students, m.order)
    ensures |sizes| == 0 ==> SubmitAssignment(m, id, sizes, caption) == Step(m, Returned(Some(MainMenu), []))
    ensures |sizes| > 0 && id !in m.students ==>
      (SubmitAssignment(m, id, sizes, caption).outcome.Raised? <==>
       exists k :: k in m.students && m.students[k].isAdmin)
  {
    RecipientsExactly(m.order, m.students, true);
    if |sizes| > 0 && id !in m.students && Recipients(m.order, m.students, true) != [] {
      assert Recipients(m.order, m.students, true)[0] in Recipients(m.order, m.students, true);
    }
  }

  /** A registered sender's theory question goes, tagged, to exactly the
      admins; the question is kept in the sender's scratch data and the rest
      of every user's scratch data is untouched. */
  lemma TheoryRelay(m: Memory, id: UserId, text: string)
    requires Directory(m.students, m.order)
    requires id in m.students
    ensures var st := SubmitTheory(m, id, text);
      && st.outcome.Returned? && st.outcome.next == Some(MainMenu)
      && Targets(st.outcome.sent) == Recipients(m.order, m.students, true)
      && NoDuplicates(Targets(st.outcome.sent))
      && (forall k :: k in Targets(st.outcome.sent) <==> k in m.students && m.students[k].isAdmin)
      && (forall s :: s in st.outcome.sent ==> s.item == TextItem(TheoryText(m.students[id], text)))
      && st.memory.students == m.students && st.memory.order == m.order && st.memory.conv == m.conv
      && DataOf(st.memory.userData, id).theoryQuestion == Some(text)
      && DataOf(st.memory.userData, id).photo == DataOf(m.userData, id).photo
      && DataOf(st.memory.userData, id).description == DataOf(m.userData, id).description
      && DataOf(st.memory.userData, id).videoFile == DataOf(m.userData, id).videoFile
      && (forall k :: k != id ==> DataOf(st.memory.userData, k) == DataOf(m.userData, k))
  {
    FanDelivers(m.students, m.order, true, TextItem(TheoryText(m.students[id], text)));
  }

  /** A sender without a record makes `upload_theory` raise exactly when
      there is an admin to send to; the question is stored either way,
      since the write comes before the loop. */
  lemma TheoryEdgeCases(m: Memory, id: UserId, text: string)
    requires Directory(m.students, m.order)
    requires id !in m.students
    ensures SubmitTheory(m, id, text).outcome.Raised? <==> exists k :: k in m.students && m.students[k].isAdmin
    ensures DataOf(SubmitTheory(m, id, text).memory.userData, id).theoryQuestion == Some(text)
  {
    RecipientsExactly(m.order, m.students, true);
    var admins := Recipients(m.order, m.students, true);
    if admins != [] {
      assert admins[0] in admins;
    }
  }

  /** The admin loops do not skip the sender: an administrator who relays an
      assignment or a theory question receives a copy of it. */
  lemma AdminReceivesOwnRelay(m: Memory, id: UserId, sizes: seq<FileId>, caption: Option<string>, text: string)
    requires Directory(m.students, m.order)
    requires id in m.students && m.students[id].isAdmin
    ensures |sizes| > 0 ==> id in Targets(SubmitAssignment(m, id, sizes, caption).outcome.sent)
    ensures id in Targets(SubmitTheory(m, id, text).outcome.sent)
  {
    if |sizes| > 0 {
      AssignmentRelay(m, id, sizes, caption);
    }
    TheoryRelay(m, id, text);
  }

  /** The reminder reaches exactly the non-admins, untagged, and no admin;
      nothing in memory changes. */
  lemma ReminderBroadcast(m: Memory, text: string)
    requires Directory(m.students, m.order)
    ensures var st := HandleReminder(m, text);
      && st.memory == m
      && st.outcome.Returned? && st.outcome.next == Some(MainMenu)
      && NoDuplicates(Targets(st.outcome.sent))
      && (forall k :: k in Targets(st.outcome.sent) <==> k in m.students && !m.students[k].isAdmin)
      && (forall k :: k in m.students && m.students[k].isAdmin ==> k !in Targets(st.outcome.sent))
      && (forall s :: s in st.outcome.sent ==> s.item == TextItem(text))
  {
    FanDelivers(m.students, m.order, false, TextItem(text));
  }

  /** `handle_video` stores the file id in the caller's scratch data and
      changes nothing else. */
  lemma VideoStored(m: Memory, id: UserId, file: FileId)
    ensures var st := HandleVideo(m, id, file);
      && st.outcome == Returned(Some(SendVideo), [])
      && st.memory.students == m.students && st.memory.order == m.order && st.memory.conv == m.conv
      && DataOf(st.memory.userData, id).videoFile == Some(file)
      && DataOf(st.memory.userData, id).photo == DataOf(m.userData, id).photo
      && DataOf(st.memory.userData, id).description == DataOf(m.userData, id).description
      && DataOf(st.memory.userData, id).theoryQuestion == DataOf(m.userData, id).theoryQuestion
      && (forall k :: k != id ==> DataOf(st.memory.userData, k) == DataOf(m.userData, k))
  {
  }

  /** With a video stored, `handle_video_name` sends that file id with the
      titled caption to exactly the non-admins, each once, and changes
      nothing in memory. */
  lemma VideoBroadcast(m: Memory, id: UserId, title: string)
    requires Directory(m.students, m.order)
    requires DataOf(m.userData, id).videoFile.Some?
    ensures var st := HandleVideoName(m, id, title);
      && st.memory == m
      && st.outcome.Returned? && st.outcome.next == Some(MainMenu)
      && Targets(st.outcome.sent) == Recipients(m.order, m.students, false)
      && NoDuplicates(Targets(st.outcome.sent))
      && (forall k :: k in Targets(st.outcome.sent) <==> k in m.students && !m.students[k].isAdmin)
      && (forall s :: s in st.outcome.sent ==>
            s.item == VideoItem(DataOf(m.userData, id).videoFile.value, VideoCaption(title)))
  {
    FanDelivers(m.students, m.order, false, VideoItem(DataOf(m.userData, id).videoFile.value, VideoCaption(title)));
  }

  /** The last video sent before the title is the one broadcast: each
      non-admin, and only they, get that file id with the titled caption. */
  lemma VideoLastWins(m: Memory, id: UserId, first: FileId, second: FileId, title: string)
    requires Directory(m.students, m.order)
    ensures var v1 := HandleVideo(m, id, first);
      var v2 := HandleVideo(v1.memory, id, second);
      var st := HandleVideoName(v2.memory, id, title);
      && v1.outcome == Returned(Some(SendVideo), []) && v2.outcome == Returned(Some(SendVideo), [])
      && st.outcome.Returned? && st.outcome.next == Some(MainMenu)
      && NoDuplicates(Targets(st.outcome.sent))
      && (forall k :: k in Targets(st.outcome.sent) <==> k in m.students && !m.students[k].isAdmin)
      && (forall s :: s in st.outcome.sent ==> s.item == VideoItem(second, VideoCaption(title)))
      && st.memory.students == m.students && st.memory.order == m.order
  {
    FanDelivers(m.students, m.order, false, VideoItem(second, VideoCaption(title)));
  }

  /** With no video stored, `handle_video_name` raises exactly when there is
      a non-admin to send to. */
  lemma VideoNameWithoutVideo(m: Memory, id: UserId, title: string)
    requires Directory(m.students, m.order)
    requires DataOf(m.userData, id).videoFile.None?
    ensures HandleVideoName(m, id, title).outcome.Raised? <==> exists k :: k in m.students && !m.students[k].isAdmin
    ensures HandleVideoName(m, id, title).memory == m
  {
    RecipientsExactly(m.order, m.students, false);
    var viewers := Recipients(m.order, m.students, false);
    if viewers != [] {
      assert viewers[0] in viewers;
    }
  }

  // ---------------------------------------------------------------------
  // Properties of the conversation as wired

  /** A message no handler of the current state (nor `/done`) accepts
      changes nothing and sends nothing; so does any message but `/start`
      from a user outside a conversation. */
  lemma UnmatchedIgnored(m: Memory, u: User, c: Content)
    requires Route(Current(m, u.id), c).None?
    ensures Update(m, u, c) == Reaction(m, [], false)
  {
  }

  /** In UploadAssignment a photo without a caption is not accepted: state,
      memory and outbox are untouched. */
  lemma UncaptionedPhotoIgnored(m: Memory, u: User, sizes: seq<FileId>)
    requires u.id in m.conv && m.conv[u.id] == UploadAssignment
    ensures Update(m, u, Photo(sizes, None)) == Reaction(m, [], false)
    ensures Update(m, u, Photo(sizes, Some(""))) == Reaction(m, [], false)
  {
  }

  /** `/done` returns any user in a conversation to MainMenu with no sends
      and nothing else changed. */
  lemma DoneResets(m: Memory, u: User)
    requires u.id in m.conv
    ensures Update(m, u, Command("done")) == Reaction(m.(conv := m.conv[u.id := MainMenu]), [], false)
  {
  }

  /** In MainMenu only the two student labels move the user on, whatever the
      user's role: an admin choosing the reminder or the video label stays
      in MainMenu and nothing is sent. */
  lemma MenuIgnoresRole(m: Memory, u: User, text: string)
    requires u.id in m.conv && m.conv[u.id] == MainMenu
    ensures var r := Update(m, u, Text(text));
      && r.sent == [] && !r.raised
      && r.memory.students == m.students && r.memory.order == m.order && r.memory.userData == m.userData
      && r.memory.conv[u.id] == (if text == AssignmentLabel then UploadAssignment
                                 else if text == TheoryLabel then UploadTheory
                                 else MainMenu)
    ensures text == ReminderLabel || text == VideoLabel ==> Update(m, u, Text(text)) == Reaction(m, [], false)
  {
  }

  /** Through the wiring, a captioned photo from a user in UploadAssignment
      reaches exactly the admins with the largest size's file id and the
      caption as sent (the "no description" text never appears), and the
      user is back in MainMenu. */
  lemma WiredAssignmentRelay(m: Memory, u: User, sizes: seq<FileId>, caption: string)
    requires Invariant(m)
    requires u.id in m.conv && m.conv[u.id] == UploadAssignment
    requires |sizes| > 0 && caption != ""
    ensures var r := Update(m, u, Photo(sizes, Some(caption)));
      && !r.raised
      && r.memory.conv == m.conv[u.id := MainMenu]
      && r.memory.students == m.students
      && Targets(r.sent) == Recipients(m.order, m.students, true)
      && (forall k :: k in Targets(r.sent) <==> k in m.students && m.students[k].isAdmin)
      && (forall s :: s in r.sent ==> s.item == PhotoItem(sizes[|sizes| - 1], AssignmentCaption(m.students[u.id], caption)))
  {
    AssignmentRelay(m, u.id, sizes, Some(caption));
  }

  /** Through the wiring, a text from a user in UploadTheory reaches exactly
      the admins, tagged with the sender's name and nickname. */
  lemma WiredTheoryRelay(m: Memory, u: User, text: string)
    requires Invariant(m)
    requires u.id in m.conv && m.conv[u.id] == UploadTheory
    ensures var r := Update(m, u, Text(text));
      && !r.raised
      && r.memory.conv == m.conv[u.id := MainMenu]
      && r.memory.students == m.students
      && (forall k :: k in Targets(r.sent) <==> k in m.students && m.students[k].isAdmin)
      && (forall s :: s in r.sent ==> s.item == TextItem(TheoryText(m.students[u.id], text)))
  {
    TheoryRelay(m, u.id, text);
  }

  /** Through the wiring, the text a user sends in Register becomes the
      nickname and the user moves to Name; the text sent in Name becomes the
      name and the user moves to MainMenu. Nothing is sent and nothing else
      changes. */
  lemma WiredRegistration(m: Memory, u: User, text: string)
    requires Invariant(m)
    ensures u.id in m.conv && m.conv[u.id] == Register ==>
      var r := Update(m, u, Text(text));
      && !r.raised && r.sent == []
      && r.memory.conv == m.conv[u.id := Name]
      && r.memory.students == m.students[u.id := m.students[u.id].(nickname := text)]
      && r.memory.order == m.order && r.memory.userData == m.userData
    ensures u.id in m.conv && m.conv[u.id] == Name ==>
      var r := Update(m, u, Text(text));
      && !r.raised && r.sent == []
      && r.memory.conv == m.conv[u.id := MainMenu]
      && r.memory.students == m.students[u.id := m.students[u.id].(name := text)]
      && r.memory.order == m.order && r.memory.userData == m.userData
  {
  }

  /** Through the wiring, `/start` from a user outside a conversation creates
      the caller's fresh record and puts the user in Register. */
  lemma WiredStart(m: Memory, u: User)
    requires u.id !in m.conv
    ensures var r := Update(m, u, Command("start"));
      && !r.raised && r.sent == []
      && r.memory.conv == m.conv[u.id := Register]
      && r.memory.students == m.students[u.id := Student("", "", IsAdminName(u.username))]
      && r.memory.userData == m.userData
  {
  }

  /** Routing never leads into SendReminder or SendVideo: every handler the
      wiring can reach from the other states returns some other state. */
  lemma NoRouteToAdminStates(m: Memory, u: User, c: Content)
    requires Current(m, u.id) != Some(SendReminder) && Current(m, u.id) != Some(SendVideo)
    requires Route(Current(m, u.id), c).Some?
    ensures var st := Apply(Route(Current(m, u.id), c).value, m, u, c);
      st.outcome.Returned? && st.outcome.next.Some? ==>
        st.outcome.next.value != SendReminder && st.outcome.next.value != SendVideo
  {
  }

  /** Every handler leaves the dictionary well formed. */
  lemma ApplyKeepsDirectory(h: Handler, m: Memory, u: User, c: Content)
    requires Accepts(h, c) && Directory(m.students, m.order)
    ensures var m' := Apply(h, m, u, c).memory;
      && Directory(m'.students, m'.order)
      && m.students.Keys <= m'.students.Keys
      && m'.conv == m.conv
  {
  }

  /** One inbound message keeps the invariant, and no handler raises from a
      reachable memory. */
  lemma UpdateKeepsInvariant(m: Memory, u: User, c: Content)
    requires Invariant(m)
    ensures Invariant(Update(m, u, c).memory)
    ensures !Update(m, u, c).raised
  {
    var route := Route(Current(m, u.id), c);
    if route.Some? {
      var h := route.value;
      ApplyKeepsDirectory(h, m, u, c);
      if h == OnUploadAssignment || h == OnUploadTheory {
        assert u.id in m.students;
      } else if h == OnReminder || h == OnVideo || h == OnVideoName {
        assert false;
      }
    }
  }

  /** From process start, whatever messages arrive: the dictionary stays well
      formed, every user in a conversation has a record, and nobody is ever
      in SendReminder or SendVideo; hence no handler ever raises. */
  lemma {:induction false} RunKeepsInvariant(m: Memory, events: seq<(User, Content)>)
    requires Invariant(m)
    ensures Invariant(Run(m, events))
    decreases |events|
  {
    if events != [] {
      UpdateKeepsInvariant(m, events[0].0, events[0].1);
      RunKeepsInvariant(Update(m, events[0].0, events[0].1).memory, events[1..]);
    }
  }

  lemma ReachableNeverRaises(events: seq<(User, Content)>, u: User, c: Content)
    ensures Invariant(Run(Empty, events))
    ensures !Update(Run(Empty, events), u, c).raised
    ensures forall k :: k in Run(Empty, events).conv ==> Run(Empty, events).conv[k] !in {SendReminder, SendVideo}
  {
    RunKeepsInvariant(Empty, events);
    UpdateKeepsInvariant(Run(Empty, events), u, c);
  }

  /** A participant registering as "ann" / "Ann K" ends in MainMenu with that
      record and the participant role. */
  lemma RegistrationScenario()
    ensures var u := User(1, Some("ann"));
      var m := Run(Empty, [(u, Command("start")), (u, Text("ann")), (u, Text("Ann K"))]);
      && m.students == map[1 := Student("ann", "Ann K", false)]
      && m.order == [1]
      && m.conv == map[1 := MainMenu]
  {
    var u := User(1, Some("ann"));
    var m1 := Update(Empty, u, Command("start")).memory;
    assert m1.students == map[1 := Student("", "", false)];
    var m2 := Update(m1, u, Text("ann")).memory;
    assert m2.students == map[1 := Student("ann", "", false)];
    var events := [(u, Command("start")), (u, Text("ann")), (u, Text("Ann K"))];
    assert Run(Empty, events) == Run(m1, events[1..]);
    assert Run(m1, events[1..]) == Run(m2, events[2..]);
    var m3 := Update(m2, u, Text("Ann K")).memory;
    assert m3.students == map[1 := Student("ann", "Ann K", false)];
    assert events[3..] == [];
    assert Run(m2, events[2..]) == Run(m3, events[3..]);
  }
}
