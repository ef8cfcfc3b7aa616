/** The bot as the source runs it: the `students` dictionary, the per-user
    scratch data and the conversation states are fields that the handlers
    update in place, and every relay is a loop over the dictionary that
    appends one send per matching user. Each method is proved to do what the
    function of the same name in `Handlers` says. */
module ConversationBot {
  import opened Types
  import opened Conversation
  import opened Relay
  import opened Handlers

  class Bot {
    /** The `students` dictionary: its values and its key order. */
    var students: map<UserId, Student>
    var order: seq<UserId>
    /** `context.user_data` of every user. */
    var userData: map<UserId, UserData>
    /** The conversation handler's current state of every user in a
        conversation. */
    var conv: map<UserId, State>

    function View(): Memory
      reads this
    {
      Memory(students, order, userData, conv)
    }

    /** The dictionary is well formed; the invariant reads nothing else. */
    ghost predicate Valid()
      reads this`students, this`order
    {
      Directory(students, order)
    }

    constructor ()
      ensures Valid() && View() == Empty
    {
      students, order, userData, conv := map[], [], map[], map[];
    }

    method Start(u: User) returns (out: Outcome)
      requires Valid()
      modifies this
      ensures Valid()
      ensures Step(View(), out) == Handlers.Start(old(View()), u)
    {
      StartRecord(View(), u);
      if u.id !in students {
        order := order + [u.id];
      }
      students := students[u.id := Student("", "", false)];
      if u.username.Some? && u.username.value in Admins {
        students := students[u.id := students[u.id].(isAdmin := true)];
      } else {
        students := students[u.id := students[u.id].(isAdmin := false)];
      }
      out := Returned(Some(Register), []);
    }

    method RegisterNickname(id: UserId, text: string) returns (out: Outcome)
      requires Valid()
      modifies this
      ensures Valid()
      ensures Step(View(), out) == Handlers.RegisterNickname(old(View()), id, text)
    {
      if id !in students {
        return Raised;
      }
      students := students[id := students[id].(nickname := text)];
      out := Returned(Some(Name), []);
    }

    method RegisterName(id: UserId, text: string) returns (out: Outcome)
      requires Valid()
      modifies this
      ensures Valid()
      ensures Step(View(), out) == Handlers.RegisterName(old(View()), id, text)
    {
      if id !in students {
        return Raised;
      }
      students := students[id := students[id].(name := text)];
      out := Returned(Some(MainMenu), []);
    }

    method SubmitAssignment(id: UserId, sizes: seq<FileId>, caption: Option<string>) returns (out: Outcome)
      requires Valid()
      modifies this
      ensures Valid()
      ensures Step(View(), out) == Handlers.SubmitAssignment(old(View()), id, sizes, caption)
    {
      if |sizes| == 0 {
        return Returned(Some(MainMenu), []);
      }
      var photo := sizes[|sizes| - 1];
      var description := Description(caption);
      userData := userData[id := DataOf(userData, id).(photo := Some(photo), description := Some(description))];
      var sent: seq<Send> := [];
      var i := 0;
      while i < |order|
        modifies {}
        invariant 0 <= i <= |order|
        invariant id in students ==>
          sent == Fan(Recipients(order[..i], students, true), PhotoItem(photo, AssignmentCaption(students[id], description)))
        invariant id !in students ==> sent == [] && Recipients(order[..i], students, true) == []
      {
        var k := order[i];
        RecipientsStep(order, students, true, i);
        if students[k].isAdmin {
          if id !in students {
            RecipientsPrefix(order, students, true, i + 1);
            return Raised;
          }
          var item := PhotoItem(photo, AssignmentCaption(students[id], description));
          FanAppend(Recipients(order[..i], students, true), k, item);
          sent := sent + [Send(k, item)];
        }
        i := i + 1;
      }
      assert order[..i] == order;
      out := Returned(Some(MainMenu), sent);
    }

    method SubmitTheory(id: UserId, text: string) returns (out: Outcome)
      requires Valid()
      modifies this
      ensures Valid()
      ensures Step(View(), out) == Handlers.SubmitTheory(old(View()), id, text)
    {
      userData := userData[id := DataOf(userData, id).(theoryQuestion := Some(text))];
      var sent: seq<Send> := [];
      var i := 0;
      while i < |order|
        modifies {}
        invariant 0 <= i <= |order|
        invariant id in students ==>
          sent == Fan(Recipients(order[..i], students, true), TextItem(TheoryText(students[id], text)))
        invariant id !in students ==> sent == [] && Recipients(order[..i], students, true) == []
      {
        var k := order[i];
        RecipientsStep(order, students, true, i);
        if students[k].isAdmin {
          if id !in students {
            RecipientsPrefix(order, students, true, i + 1);
            return Raised;
          }
          var item := TextItem(TheoryText(students[id], text));
          FanAppend(Recipients(order[..i], students, true), k, item);
          sent := sent + [Send(k, item)];
        }
        i := i + 1;
      }
      assert order[..i] == order;
      out := Returned(Some(MainMenu), sent);
    }

    /** Changes nothing: reads the dictionary and returns the sends. */
    method HandleReminder(text: string) returns (out: Outcome)
      requires Valid()
      ensures Step(View(), out) == Handlers.HandleReminder(View(), text)
      ensures out.Returned? && forall s :: s in out.sent ==>
        s.to in students && !students[s.to].isAdmin && s.item == TextItem(text)
    {
      var sent: seq<Send> := [];
      var i := 0;
      while i < |order|
        invariant 0 <= i <= |order|
        invariant sent == Fan(Recipients(order[..i], students, false), TextItem(text))
      {
        var k := order[i];
        RecipientsStep(order, students, false, i);
        if !students[k].isAdmin {
          FanAppend(Recipients(order[..i], students, false), k, TextItem(text));
          sent := sent + [Send(k, TextItem(text))];
        }
        i := i + 1;
      }
      assert order[..i] == order;
      FanSends(Recipients(order, students, false), TextItem(text));
      out := Returned(Some(MainMenu), sent);
    }

    method HandleVideo(id: UserId, file: FileId) returns (out: Outcome)
      requires Valid()
      modifies this
      ensures Valid()
      ensures Step(View(), out) == Handlers.HandleVideo(old(View()), id, file)
    {
      userData := userData[id := DataOf(userData, id).(videoFile := Some(file))];
      out := Returned(Some(SendVideo), []);
    }

    /** Changes nothing: reads the stored video and returns the sends. */
    method HandleVideoName(id: UserId, title: string) returns (out: Outcome)
      requires Valid()
      ensures Step(View(), out) == Handlers.HandleVideoName(View(), id, title)
      ensures out.Returned? ==> forall s :: s in out.sent ==>
        s.to in students && !students[s.to].isAdmin && s.item == VideoItem(userData[id].videoFile.value, VideoCaption(title))
    {
      var video := DataOf(userData, id).videoFile;
      var sent: seq<Send> := [];
      var i := 0;
      while i < |order|
        invariant 0 <= i <= |order|
        invariant video.Some? ==> sent == Fan(Recipients(order[..i], students, false), VideoItem(video.value, VideoCaption(title)))
        invariant video.None? ==> sent == [] && Recipients(order[..i], students, false) == []
      {
        var k := order[i];
        RecipientsStep(order, students, false, i);
        if !students[k].isAdmin {
          if video.None? {
            RecipientsPrefix(order, students, false, i + 1);
            return Raised;
          }
          var item := VideoItem(video.value, VideoCaption(title));
          FanAppend(Recipients(order[..i], students, false), k, item);
          sent := sent + [Send(k, item)];
        }
        i := i + 1;
      }
      assert order[..i] == order;
      if video.Some? {
        FanSends(Recipients(order, students, false), VideoItem(video.value, VideoCaption(title)));
      }
      out := Returned(Some(MainMenu), sent);
    }

    /** The conversation handler: route the message, call the handler, and
        store the state it returns. */
    method HandleUpdate(u: User, c: Content) returns (sent: seq<Send>, raised: bool)
      requires Valid()
      modifies this
      ensures Valid()
      ensures Reaction(View(), sent, raised) == Update(old(View()), u, c)
    {
      var current := if u.id in conv then Some(conv[u.id]) else None;
      var route := Route(current, c);
      if route.None? {
        return [], false;
      }
      var out: Outcome;
      match route.value {
        case OnStart => out := Start(u);
        case OnRegisterNickname => out := RegisterNickname(u.id, c.text);
        case OnRegisterName => out := RegisterName(u.id, c.text);
        case OnStudentChoice => out := Returned(HandleStudentChoice(c.text), []);
        case OnUploadAssignment => out := SubmitAssignment(u.id, c.sizes, c.caption);
        case OnUploadTheory => out := SubmitTheory(u.id, c.text);
        case OnReminder => out := HandleReminder(c.text);
        case OnVideo => out := HandleVideo(u.id, c.fileId);
        case OnVideoName => out := HandleVideoName(u.id, c.text);
        case OnDone => out := Returned(Some(MainMenu), []);
      }
      match out {
        case Raised =>
          sent, raised := [], true;
        case Returned(next, s) =>
          if next.Some? {
            conv := conv[u.id := next.value];
          }
          sent, raised := s, false;
      }
    }
  }
}
