/** The role-filtered fan-out: every relay and broadcast walks the `students`
    dictionary in insertion order and sends to the users whose `is_admin`
    flag has the wanted value. */
module Relay {
  import opened Types

  predicate NoDuplicates(s: seq<UserId>) {
    forall i, j :: 0 <= i < j < |s| ==> s[i] != s[j]
  }

  /** `order` lists the keys of `students` in insertion order, each once:
      the shape of a Python dictionary. */
  predicate Directory(students: map<UserId, Student>, order: seq<UserId>) {
    && NoDuplicates(order)
    && (forall k :: k in order ==> k in students)
    && (forall k :: k in students ==> k in order)
  }

  /** The ids that a walk over the dictionary in key order selects when it
      keeps the users whose role flag equals `admins`, in visiting order. */
  function Recipients(order: seq<UserId>, students: map<UserId, Student>, admins: bool): (r: seq<UserId>)
    ensures |r| <= |order|
    ensures forall k :: k in r ==> k in order && k in students && students[k].isAdmin == admins
    decreases |order|
  {
    if order == [] then []
    else
      var rest := Recipients(order[..|order| - 1], students, admins);
      var k := order[|order| - 1];
      if k in students && students[k].isAdmin == admins then rest + [k] else rest
  }

  /** One send of `item` to each id of `ids`, in order. */
  function Fan(ids: seq<UserId>, item: Item): seq<Send> {
    seq(|ids|, i requires 0 <= i < |ids| => Send(ids[i], item))
  }

  /** Sending to one more id appends one send. */
  lemma FanAppend(ids: seq<UserId>, k: UserId, item: Item)
    ensures Fan(ids + [k], item) == Fan(ids, item) + [Send(k, item)]
  {
  }

  /** Every send of a fan-out goes to one of its ids and carries its item. */
  lemma FanSends(ids: seq<UserId>, item: Item)
    ensures forall s :: s in Fan(ids, item) ==> s.to in ids && s.item == item
  {
    forall s | s in Fan(ids, item) ensures s.to in ids && s.item == item {
      var i :| 0 <= i < |ids| && Fan(ids, item)[i] == s;
    }
  }

  /** The ids that `sent` goes to, in order. */
  function Targets(sent: seq<Send>): seq<UserId> {
    seq(|sent|, i requires 0 <= i < |sent| => sent[i].to)
  }

  const NoDescription := "Нет описания"

  /** The sender's caption, or the fixed "no description" text when the
      caption is missing or empty. */
  function Description(caption: Option<string>): string {
    if caption.Some? && caption.value != "" then caption.value else NoDescription
  }

  /** The caption of a relayed assignment photo, tagged with the sender. */
  function AssignmentCaption(sender: Student, description: string): string {
    "Задание от " + sender.name + " (" + sender.nickname + "):\n" + description
  }

  /** The text of a relayed theory question, tagged with the sender. */
  function TheoryText(sender: Student, question: string): string {
    "Вопрос от " + sender.name + " (" + sender.nickname + "):\n" + question
  }

  /** The caption of a broadcast call recording. */
  function VideoCaption(title: string): string {
    "Запись созвона: " + title
  }

  /** Extending the visited prefix by one id adds that id exactly when it
      matches the filter. */
  lemma RecipientsStep(order: seq<UserId>, students: map<UserId, Student>, admins: bool, i: nat)
    requires i < |order|
    ensures Recipients(order[..i + 1], students, admins)
         == Recipients(order[..i], students, admins)
            + (if order[i] in students && students[order[i]].isAdmin == admins then [order[i]] else [])
  {
    assert order[..i + 1][..i] == order[..i];
  }

  /** The recipients of a prefix of the walk are a prefix of the recipients
      of the whole walk. */
  lemma {:induction false} RecipientsPrefix(order: seq<UserId>, students: map<UserId, Student>, admins: bool, i: nat)
    requires i <= |order|
    ensures Recipients(order[..i], students, admins) <= Recipients(order, students, admins)
    decreases |order| - i
  {
    if i < |order| {
      RecipientsStep(order, students, admins, i);
      RecipientsPrefix(order, students, admins, i + 1);
    } else {
      assert order[..i] == order;
    }
  }

  /** Over a well-formed directory the filter selects exactly the users with
      the wanted role, each of them once. */
  lemma {:induction false} RecipientsExactly(order: seq<UserId>, students: map<UserId, Student>, admins: bool)
    requires NoDuplicates(order)
    ensures NoDuplicates(Recipients(order, students, admins))
    ensures forall k :: k in Recipients(order, students, admins)
                    <==> k in order && k in students && students[k].isAdmin == admins
    decreases |order|
  {
    if order != [] {
      var init := order[..|order| - 1];
      var last := order[|order| - 1];
      assert NoDuplicates(init);
      RecipientsExactly(init, students, admins);
      assert last !in init;
      assert forall k :: k in order <==> k in init || k == last;
    }
  }

  /** The two role filters split a well-formed directory: every user gets
      exactly one of the two walks, never both. */
  lemma RolesPartition(students: map<UserId, Student>, order: seq<UserId>, k: UserId)
    requires Directory(students, order)
    ensures k in students ==> (k in Recipients(order, students, true) <==> k !in Recipients(order, students, false))
    ensures k !in students ==> k !in Recipients(order, students, true) && k !in Recipients(order, students, false)
  {
    RecipientsExactly(order, students, true);
    RecipientsExactly(order, students, false);
  }

  /** The walk depends only on the order and the role flags: changing a
      nickname or a name does not change who receives a relay. */
  lemma {:induction false} RecipientsIgnoreProfiles(order: seq<UserId>, s1: map<UserId, Student>, s2: map<UserId, Student>, admins: bool)
    requires s1.Keys == s2.Keys
    requires forall k :: k in s1 ==> s1[k].isAdmin == s2[k].isAdmin
    ensures Recipients(order, s1, admins) == Recipients(order, s2, admins)
    decreases |order|
  {
    if order != [] {
      RecipientsIgnoreProfiles(order[..|order| - 1], s1, s2, admins);
    }
  }

  /** A fan-out of `item` over the filtered walk reaches exactly the users of
      the wanted role, each once, each with the same item. */
  lemma FanDelivers(students: map<UserId, Student>, order: seq<UserId>, admins: bool, item: Item)
    requires Directory(students, order)
    ensures var sent := Fan(Recipients(order, students, admins), item);
      && Targets(sent) == Recipients(order, students, admins)
      && NoDuplicates(Targets(sent))
      && (forall s :: s in sent ==> s.item == item)
      && (forall k :: k in Targets(sent) <==> k in students && students[k].isAdmin == admins)
  {
    RecipientsExactly(order, students, admins);
    var r := Recipients(order, students, admins);
    var sent := Fan(r, item);
    assert Targets(sent) == r;
  }
}
