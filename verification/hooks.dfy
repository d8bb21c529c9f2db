/**
 * The client-side state of the data hooks: the notification list and its
 * unread counter (`useNotifications`), the member's availability slots and
 * snoozes for the active check-in (`useCheckIn`), and the merge of saved
 * group settings (`useGroup`). Backend calls are left to their callers; the
 * values they return are parameters.
 */
module Hooks {
  import opened Wrappers
  import Snooze

  // ---------------------------------------------------------------------
  // Notifications
  // ---------------------------------------------------------------------

  datatype Notification = Notification(id: string, kind: string, title: string, body: string, read: bool)

  /** `n.id === id ? { ...n, read: true } : n` over the list. */
  function MarkRead(ns: seq<Notification>, id: string): (r: seq<Notification>)
    ensures |r| == |ns|
  {
    seq(|ns|, i requires 0 <= i < |ns| => if ns[i].id == id then ns[i].(read := true) else ns[i])
  }

  /** `{ ...n, read: true }` over the list. */
  function AllRead(ns: seq<Notification>): (r: seq<Notification>)
    ensures |r| == |ns|
  {
    seq(|ns|, i requires 0 <= i < |ns| => ns[i].(read := true))
  }

  /** The number of unread notifications in the list. */
  function CountUnread(ns: seq<Notification>): nat {
    if ns == [] then 0 else (if ns[0].read then 0 else 1) + CountUnread(ns[1..])
  }

  /** The number of unread notifications with id `id`. */
  function CountUnreadWithId(ns: seq<Notification>, id: string): nat {
    if ns == [] then 0 else (if !ns[0].read && ns[0].id == id then 1 else 0) + CountUnreadWithId(ns[1..], id)
  }

  /**
   * Marking `id` read touches exactly the notifications with that id: they
   * become read and keep every other field; all others are left as they were.
   */
  lemma MarkReadEffect(ns: seq<Notification>, id: string)
    ensures forall i :: 0 <= i < |ns| && ns[i].id == id ==>
              MarkRead(ns, id)[i].read && MarkRead(ns, id)[i] == ns[i].(read := true)
    ensures forall i :: 0 <= i < |ns| && ns[i].id != id ==> MarkRead(ns, id)[i] == ns[i]
  {
  }

  /** Marking read removes exactly the unread notifications with that id from the unread ones. */
  lemma {:induction false} MarkReadCount(ns: seq<Notification>, id: string)
    ensures CountUnread(MarkRead(ns, id)) == CountUnread(ns) - CountUnreadWithId(ns, id)
    ensures CountUnreadWithId(ns, id) <= CountUnread(ns)
  {
    if ns != [] {
      MarkReadCount(ns[1..], id);
      assert MarkRead(ns, id)[1..] == MarkRead(ns[1..], id);
    }
  }

  /** Marking the same id read twice is marking it once. */
  lemma MarkReadIdempotent(ns: seq<Notification>, id: string)
    ensures MarkRead(MarkRead(ns, id), id) == MarkRead(ns, id)
  {
  }

  /** After marking everything read nothing is unread, and every other field is kept. */
  lemma {:induction false} AllReadCount(ns: seq<Notification>)
    ensures CountUnread(AllRead(ns)) == 0
    ensures forall i :: 0 <= i < |ns| ==> AllRead(ns)[i] == ns[i].(read := true)
  {
    if ns != [] {
      AllReadCount(ns[1..]);
      assert AllRead(ns)[1..] == AllRead(ns[1..]);
    }
  }

  class NotificationFeed {
    var notifications: seq<Notification>
    var unreadCount: int

    /** The counter agrees with the list. */
    predicate CounterMatches()
      reads this
    {
      unreadCount == CountUnread(notifications)
    }

    constructor ()
      ensures notifications == [] && unreadCount == 0
    {
      notifications := [];
      unreadCount := 0;
    }

    /** The initial fetch: the list and the unread count come from two separate queries. */
    method Loaded(fetched: seq<Notification>, count: int)
      modifies this
      ensures notifications == fetched && unreadCount == count
    {
      notifications := fetched;
      unreadCount := count;
    }

    /** A pushed notification is put first and counted as unread. */
    method Receive(n: Notification)
      modifies this
      ensures notifications == [n] + old(notifications)
      ensures unreadCount == old(unreadCount) + 1
      ensures old(CounterMatches()) && !n.read ==> CounterMatches()
    {
      notifications := [n] + notifications;
      unreadCount := unreadCount + 1;
      assert notifications[1..] == old(notifications);
    }

    /** `markAsRead(id)`: marks that notification read and lowers the counter by one, not below 0. */
    method MarkAsRead(id: string)
      modifies this
      ensures notifications == MarkRead(old(notifications), id)
      ensures unreadCount == if old(unreadCount) > 0 then old(unreadCount) - 1 else 0
      ensures unreadCount >= 0
      ensures old(CounterMatches()) && CountUnreadWithId(old(notifications), id) == 1 ==> CounterMatches()
    {
      MarkReadCount(notifications, id);
      notifications := MarkRead(notifications, id);
      unreadCount := if 0 >= unreadCount - 1 then 0 else unreadCount - 1;
    }

    /** `markAllAsRead`: every notification read and the counter at 0. */
    method MarkAllAsRead()
      modifies this
      ensures notifications == AllRead(old(notifications))
      ensures unreadCount == 0
      ensures CounterMatches()
    {
      AllReadCount(notifications);
      notifications := AllRead(notifications);
      unreadCount := 0;
    }
  }

  /**
   * Marking an id read when no unread notification has it leaves the number
   * of unread ones as it was. `markAsRead` still lowers the counter by one, so
   * a counter that matched a list with unread notifications no longer matches.
   */
  lemma MarkReadWithoutUnreadDrifts(ns: seq<Notification>, id: string)
    requires CountUnreadWithId(ns, id) == 0
    ensures CountUnread(MarkRead(ns, id)) == CountUnread(ns)
    ensures CountUnread(ns) > 0 ==> CountUnread(ns) - 1 != CountUnread(MarkRead(ns, id))
  {
    MarkReadCount(ns, id);
  }

  /**
   * Marking an already-read notification leaves the number of unread ones
   * as it was, while `markAsRead` still lowers the counter by one: a counter
   * that matched the list `[n, m]` (one unread) drops to 0 with `m` unread.
   */
  lemma MarkingReadAgainDrifts(n: Notification, m: Notification)
    requires n.read && !m.read && m.id != n.id
    ensures CountUnread([n, m]) == 1
    ensures CountUnread(MarkRead([n, m], n.id)) == 1
  {
    assert [n, m][1..] == [m] && [m][1..] == [];
    assert CountUnread([m]) == 1;
    assert MarkRead([n, m], n.id) == [n, m];
  }

  // ---------------------------------------------------------------------
  // Check-in availability
  // ---------------------------------------------------------------------

  /** A submitted free time: date and start and end times as the screens show them. */
  datatype SlotTimes = SlotTimes(date: string, start: string, end: string)

  /** A slot as the hook keeps it. */
  datatype MySlot = MySlot(id: int, date: string, start: string, end: string, confirmed: bool)

  /** `slots.map((s, i) => ({ id: i, ...s, confirmed: true }))`. */
  function Submitted(slots: seq<SlotTimes>): (r: seq<MySlot>)
    ensures |r| == |slots|
  {
    seq(|slots|, i requires 0 <= i < |slots| => MySlot(i, slots[i].date, slots[i].start, slots[i].end, true))
  }

  /** The times of the kept slots. */
  function Times(mine: seq<MySlot>): seq<SlotTimes> {
    seq(|mine|, i requires 0 <= i < |mine| => SlotTimes(mine[i].date, mine[i].start, mine[i].end))
  }

  /** `{ ...s, confirmed: true }` over the list. */
  function ConfirmedAll(mine: seq<MySlot>): (r: seq<MySlot>)
    ensures |r| == |mine|
  {
    seq(|mine|, i requires 0 <= i < |mine| => mine[i].(confirmed := true))
  }

  /** Submitting keeps the slots' times in order, numbers them from 0 and confirms them all. */
  lemma SubmittedRoundTrip(slots: seq<SlotTimes>)
    ensures Times(Submitted(slots)) == slots
    ensures forall i :: 0 <= i < |slots| ==> Submitted(slots)[i].id == i && Submitted(slots)[i].confirmed
  {
  }

  /** Confirming all keeps times and ids, confirms every slot, and a second time changes nothing. */
  lemma ConfirmedAllEffect(mine: seq<MySlot>)
    ensures Times(ConfirmedAll(mine)) == Times(mine)
    ensures forall i :: 0 <= i < |mine| ==> ConfirmedAll(mine)[i].confirmed && ConfirmedAll(mine)[i].id == mine[i].id
    ensures ConfirmedAll(ConfirmedAll(mine)) == ConfirmedAll(mine)
  {
  }

  /** Submitted slots are already confirmed. */
  lemma ConfirmAfterSubmit(slots: seq<SlotTimes>)
    ensures ConfirmedAll(Submitted(slots)) == Submitted(slots)
  {
  }

  /** The identity of a check-in. */
  datatype CheckIn = CheckIn(id: string, groupId: string)

  class CheckInHook {
    var checkIn: Option<CheckIn>
    var mySlots: seq<MySlot>
    /** The snooze count the backend holds for this check-in and member. */
    var storedSnoozes: Option<int>

    constructor (active: Option<CheckIn>, slots: seq<MySlot>, stored: Option<int>)
      ensures checkIn == active && mySlots == slots && storedSnoozes == stored
    {
      checkIn := active;
      mySlots := slots;
      storedSnoozes := stored;
    }

    /** `submitAvailability`: with an active check-in, the submitted slots replace the kept ones. */
    method SubmitAvailability(slots: seq<SlotTimes>)
      modifies this
      ensures checkIn == old(checkIn) && storedSnoozes == old(storedSnoozes)
      ensures mySlots == if checkIn.None? then old(mySlots) else Submitted(slots)
    {
      if checkIn.None? {
        return;
      }
      mySlots := Submitted(slots);
    }

    /** `confirmAll`: with an active check-in, every kept slot becomes confirmed. */
    method ConfirmAll()
      modifies this
      ensures checkIn == old(checkIn) && storedSnoozes == old(storedSnoozes)
      ensures mySlots == if checkIn.None? then old(mySlots) else ConfirmedAll(old(mySlots))
    {
      if checkIn.None? {
        return;
      }
      mySlots := ConfirmedAll(mySlots);
    }

    /** `snooze`: refused without an active check-in, otherwise the snooze rule decides. */
    method DoSnooze(signedIn: bool) returns (outcome: Snooze.SnoozeOutcome)
      modifies this
      ensures checkIn == old(checkIn) && mySlots == old(mySlots)
      ensures checkIn.None? ==> outcome == Snooze.Refused && storedSnoozes == old(storedSnoozes)
      ensures checkIn.Some? ==>
                outcome == Snooze.SnoozeDecision(signedIn, old(storedSnoozes)).outcome &&
                storedSnoozes == Snooze.SnoozeDecision(signedIn, old(storedSnoozes)).stored
    {
      if checkIn.None? {
        return Snooze.Refused;
      }
      var step := Snooze.SnoozeDecision(signedIn, storedSnoozes);
      storedSnoozes := step.stored;
      outcome := step.outcome;
    }
  }

  // ---------------------------------------------------------------------
  // Group settings
  // ---------------------------------------------------------------------

  /** A field value of a group record. */
  datatype Value = Text(s: string) | Number(n: int) | Flag(b: bool)

  type GroupRecord = map<string, Value>

  /** `{ ...group, ...updated }`: the updated fields over the existing ones. */
  function Overlay(group: GroupRecord, updated: GroupRecord): (r: GroupRecord)
    ensures r.Keys == group.Keys + updated.Keys
    ensures forall k :: k in updated ==> r[k] == updated[k]
    ensures forall k :: k in group && k !in updated ==> r[k] == group[k]
  {
    group + updated
  }

  /** Applying the same update twice is applying it once. */
  lemma OverlayIdempotent(group: GroupRecord, updated: GroupRecord)
    ensures Overlay(Overlay(group, updated), updated) == Overlay(group, updated)
  {
  }

  class GroupHook {
    var groupId: Option<string>
    var group: Option<GroupRecord>

    constructor (id: Option<string>, loaded: Option<GroupRecord>)
      ensures groupId == id && group == loaded
    {
      groupId := id;
      group := loaded;
    }

    /**
     * `updateSettings`: with a group id, the saved record the backend returns
     * is merged into the loaded group, when both exist, and returned.
     */
    method UpdateSettings(saved: Option<GroupRecord>) returns (r: Option<GroupRecord>)
      modifies this
      ensures groupId == old(groupId)
      ensures groupId.None? ==> r == None && group == old(group)
      ensures groupId.Some? ==> r == saved
      ensures groupId.Some? && saved.Some? && old(group).Some? ==> group == Some(Overlay(old(group).value, saved.value))
      ensures groupId.Some? && (saved.None? || old(group).None?) ==> group == old(group)
    {
      if groupId.None? {
        return None;
      }
      if saved.Some? && group.Some? {
        group := Some(Overlay(group.value, saved.value));
      }
      r := saved;
    }
  }
}
