/** The values the chat bot works with: conversation states, user records,
    per-user scratch data, inbound messages and outbound sends. */
module Types {

  datatype Option<+T> = None | Some(value: T)

  /** Telegram user ids are integers; file ids are opaque strings. */
  type UserId = int
  type FileId = string

  /** The seven conversation states, numbered 0 to 6 in the source. */
  datatype State =
    | Register
    | Name
    | MainMenu
    | UploadAssignment
    | UploadTheory
    | SendReminder
    | SendVideo

  /** One value of the `students` dictionary: `{nickname, name, is_admin}`. */
  datatype Student = Student(nickname: string, name: string, isAdmin: bool)

  /** The per-user scratch dictionary kept by the conversation library
      (`context.user_data`); every key may be missing. */
  datatype UserData = UserData(
    photo: Option<FileId>,
    description: Option<string>,
    theoryQuestion: Option<string>,
    videoFile: Option<FileId>)

  const NoUserData := UserData(None, None, None, None)

  /** What one outbound send carries. */
  datatype Item =
    | TextItem(text: string)                     // send_message
    | PhotoItem(photo: FileId, caption: string)  // send_photo
    | VideoItem(video: FileId, caption: string)  // send_video

  /** One entry of the outbox: a message sent with `send_message`,
      `send_photo` or `send_video`, not a reply to the sender. An
      administrator who relays an assignment or a question is among its
      recipients. */
  datatype Send = Send(to: UserId, item: Item)

  /** The sender of an inbound message. `username` is optional in Telegram. */
  datatype User = User(id: UserId, username: Option<string>)

  /** The parts of an inbound message that the handler filters look at.
      `Text` is a text message that does not start with a bot command,
      `Command` one that does (its name without the slash); `Photo` holds
      the photo sizes, smallest first, and the optional caption. */
  datatype Content =
    | Text(text: string)
    | Command(command: string)
    | Photo(sizes: seq<FileId>, caption: Option<string>)
    | Video(fileId: FileId)
    | Other
}
