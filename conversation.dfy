/** The menu labels, the two menu-choice handlers and the wiring table of the
    conversation handler: which inbound message goes to which handler in
    which state. */
module Conversation {
  import opened Types

  /** Usernames that get the administrator role at `/start`. */
  const Admins: seq<string> := ["vcshss"]

  const AssignmentLabel := "📝 Разобрать задание"
  const TheoryLabel := "📚 Разобрать теорию"
  const ReminderLabel := "📅 Напоминание о созвоне"
  const VideoLabel := "📹 Отправить видео созвона"

  /** The username is on the allowlist; a user without a username is never an admin. */
  predicate IsAdminName(username: Option<string>) {
    username.Some? && username.value in Admins
  }

  /** The student menu: the two exact labels choose a state, any other text
      gives no next state (the conversation stays where it is). */
  function HandleStudentChoice(text: string): (next: Option<State>)
    ensures next == Some(UploadAssignment) <==> text == AssignmentLabel
    ensures next == Some(UploadTheory) <==> text == TheoryLabel
    ensures next.None? <==> text != AssignmentLabel && text != TheoryLabel
  {
    if text == AssignmentLabel then Some(UploadAssignment)
    else if text == TheoryLabel then Some(UploadTheory)
    else None
  }

  /** The administrator menu (never wired into the conversation): the
      reminder label chooses SendReminder, the video label SendVideo (through
      the `send_video` prompt), anything else MainMenu. */
  function HandleAdminChoice(text: string): (next: State)
    ensures next == SendReminder <==> text == ReminderLabel
    ensures next == SendVideo <==> text == VideoLabel
    ensures next == MainMenu <==> text != ReminderLabel && text != VideoLabel
  {
    if text == ReminderLabel then SendReminder
    else if text == VideoLabel then SendVideo
    else MainMenu
  }

  /** The handlers the conversation handler can call. */
  datatype Handler =
    | OnStart
    | OnRegisterNickname
    | OnRegisterName
    | OnStudentChoice
    | OnUploadAssignment
    | OnUploadTheory
    | OnReminder
    | OnVideo
    | OnVideoName
    | OnDone

  /** A text message that is not a command. */
  predicate IsPlainText(c: Content) { c.Text? }

  /** A photo message with a caption: at least one photo size and a
      non-empty caption. */
  predicate IsCaptionedPhoto(c: Content) {
    c.Photo? && |c.sizes| > 0 && c.caption.Some? && c.caption.value != ""
  }

  /** A video message. */
  predicate IsVideo(c: Content) { c.Video? }

  /** The command `/name`. */
  predicate IsCommand(c: Content, name: string) { c.Command? && c.command == name }

  /** The handler list of each state, tried in order. */
  function StateRoute(s: State, c: Content): Option<Handler> {
    match s
    case Register => if IsPlainText(c) then Some(OnRegisterNickname) else None
    case Name => if IsPlainText(c) then Some(OnRegisterName) else None
    case MainMenu => if IsPlainText(c) then Some(OnStudentChoice) else None
    case UploadAssignment => if IsCaptionedPhoto(c) then Some(OnUploadAssignment) else None
    case UploadTheory => if IsPlainText(c) then Some(OnUploadTheory) else None
    case SendReminder => if IsPlainText(c) then Some(OnReminder) else None
    case SendVideo =>
      if IsVideo(c) then Some(OnVideo)
      else if IsPlainText(c) then Some(OnVideoName)
      else None
  }

  /** What a handler needs to find in the message it is given. */
  predicate Accepts(h: Handler, c: Content) {
    match h
    case OnStart => IsCommand(c, "start")
    case OnDone => IsCommand(c, "done")
    case OnUploadAssignment => c.Photo?
    case OnVideo => c.Video?
    case _ => c.Text?
  }

  /** The conversation handler's choice of handler for a user whose current
      conversation state is `current` (None: not in a conversation). Outside a
      conversation only the `/start` entry point matches; inside one the
      state's own handlers are tried first and the `/done` fallback last. */
  function Route(current: Option<State>, c: Content): (h: Option<Handler>)
    ensures h.Some? ==> Accepts(h.value, c)
    ensures current.None? ==> (h.Some? <==> IsCommand(c, "start"))
    ensures h == Some(OnStart) ==> current.None?
    ensures current.Some? && IsCommand(c, "done") ==> h == Some(OnDone)
    ensures current == Some(UploadAssignment) && !IsCaptionedPhoto(c) && !IsCommand(c, "done") ==> h.None?
    ensures current == Some(MainMenu) && c.Text? ==> h == Some(OnStudentChoice)
  {
    match current
    case None => if IsCommand(c, "start") then Some(OnStart) else None
    case Some(s) =>
      var own := StateRoute(s, c);
      if own.Some? then own
      else if IsCommand(c, "done") then Some(OnDone)
      else None
  }
}
