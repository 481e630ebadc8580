/**
 * The client's notification store (client/src/store/notification.js): a list of toasts
 * and the counter that numbers them. Adding appends a toast under the next number and,
 * for a positive duration, schedules its removal; removing deletes the first toast with
 * the given number. The clock (`Date.now()`) is a parameter, and a scheduled removal is
 * reported as a flag; its later firing is a call of `RemoveNotification` with the id.
 */
module NotificationStore {

  /** One toast: its id, text, kind ("success", "error", "info", "warning" or any other string) and creation time. */
  datatype Notification = Notification(id: int, message: string, kind: string, timestamp: int)

  const DefaultKind := "info"
  const DefaultDuration := 5000

  // ---------------------------------------------------------------- the list as a value

  /** Ids strictly increase along the list and stay below `nextId`. */
  ghost predicate Ordered(ns: seq<Notification>, nextId: int)
  {
    && (forall i, j :: 0 <= i < j < |ns| ==> ns[i].id < ns[j].id)
    && (forall i :: 0 <= i < |ns| ==> ns[i].id < nextId)
  }

  /** `findIndex(n => n.id === id)`: the position of the first toast with that id, or -1. */
  function FindIndex(ns: seq<Notification>, id: int): (i: int)
    ensures -1 <= i < |ns|
    ensures i >= 0 ==> ns[i].id == id
    ensures i >= 0 ==> forall j :: 0 <= j < i ==> ns[j].id != id
    ensures i == -1 <==> forall j :: 0 <= j < |ns| ==> ns[j].id != id
  {
    if ns == [] then -1
    else if ns[0].id == id then 0
    else
      var i := FindIndex(ns[1..], id);
      assert forall j :: 1 <= j < |ns| ==> ns[j] == ns[1..][j - 1];
      if i == -1 then -1 else i + 1
  }

  /** The list after `removeNotification(id)`: the first toast with that id spliced out, if there is one. */
  function Removed(ns: seq<Notification>, id: int): (r: seq<Notification>)
    ensures |r| == if exists j :: 0 <= j < |ns| && ns[j].id == id then |ns| - 1 else |ns|
    ensures forall x :: x in r ==> x in ns
  {
    var i := FindIndex(ns, id);
    if i == -1 then ns else ns[..i] + ns[i + 1..]
  }

  /**
   * Removing takes out exactly the first toast with the id and keeps the others in order;
   * with no such toast it changes nothing.
   */
  lemma RemovedIsFirstMatch(ns: seq<Notification>, id: int)
    ensures (forall j :: 0 <= j < |ns| ==> ns[j].id != id) ==> Removed(ns, id) == ns
    ensures (exists j :: 0 <= j < |ns| && ns[j].id == id) ==>
      exists i :: 0 <= i < |ns| && ns[i].id == id && (forall j :: 0 <= j < i ==> ns[j].id != id)
        && Removed(ns, id) == ns[..i] + ns[i + 1..]
  {
    var i := FindIndex(ns, id);
    if i >= 0 {
      assert 0 <= i < |ns| && ns[i].id == id && Removed(ns, id) == ns[..i] + ns[i + 1..];
    }
  }

  /** With ordered ids, removing by id leaves no toast with that id and keeps the order. */
  lemma RemovedKeepsOrder(ns: seq<Notification>, nextId: int, id: int)
    requires Ordered(ns, nextId)
    ensures Ordered(Removed(ns, id), nextId)
    ensures forall j :: 0 <= j < |Removed(ns, id)| ==> Removed(ns, id)[j].id != id
  {
    var i := FindIndex(ns, id);
    if i >= 0 {
      var r := Removed(ns, id);
      assert forall j :: 0 <= j < |r| ==> r[j] == (if j < i then ns[j] else ns[j + 1]);
    }
  }

  /** A toast added and then removed by its own id (the timer firing) leaves the list as it was. */
  lemma RemoveUndoesAdd(ns: seq<Notification>, nextId: int, n: Notification)
    requires Ordered(ns, nextId) && n.id == nextId
    ensures Removed(ns + [n], n.id) == ns
  {
    var s := ns + [n];
    assert forall j :: 0 <= j < |ns| ==> s[j].id != n.id;
    assert s[|ns|].id == n.id;
    assert FindIndex(s, n.id) == |ns|;
    assert s[..|ns|] == ns;
  }

  // ---------------------------------------------------------------- the store

  class Store {
    var notifications: seq<Notification>
    var nextId: int

    ghost predicate Valid()
      reads this
    {
      Ordered(notifications, nextId)
    }

    /** The store's initial state: no toast, and the first id handed out is 1. */
    constructor()
      ensures notifications == [] && nextId == 1 && Valid()
    {
      notifications := [];
      nextId := 1;
    }

    /**
     * `addNotification(message, type = 'info', duration = 5000)`: the toast gets the current
     * `nextId`, which then moves on, and goes to the end of the list; a removal is scheduled
     * exactly when `duration > 0`.
     */
    method AddNotification(now: int, message: string, kind: string := DefaultKind, duration: int := DefaultDuration)
      returns (id: int, scheduled: bool)
      requires Valid()
      modifies this
      ensures Valid()
      ensures id == old(nextId) && nextId == old(nextId) + 1
      ensures notifications == old(notifications) + [Notification(id, message, kind, now)]
      ensures scheduled <==> duration > 0
    {
      id := nextId;
      nextId := nextId + 1;
      notifications := notifications + [Notification(id, message, kind, now)];
      scheduled := duration > 0;
    }

    /** `removeNotification(id)`: a `findIndex` scan, then a one-element splice when it found something. */
    method RemoveNotification(id: int)
      modifies this
      ensures notifications == Removed(old(notifications), id)
      ensures nextId == old(nextId)
      ensures old(Valid()) ==> Valid()
    {
      ghost var wasValid := Valid();
      var k := 0;
      while k < |notifications| && notifications[k].id != id
        invariant 0 <= k <= |notifications|
        invariant forall j :: 0 <= j < k ==> notifications[j].id != id
        decreases |notifications| - k
      {
        k := k + 1;
      }
      var index := if k < |notifications| then k else -1;
      assert index == FindIndex(notifications, id);
      if index > -1 {
        notifications := notifications[..index] + notifications[index + 1..];
      }
      if wasValid {
        RemovedKeepsOrder(old(notifications), nextId, id);
      }
    }

    /** `success(message, duration)`. */
    method Success(now: int, message: string, duration: int := DefaultDuration) returns (id: int, scheduled: bool)
      requires Valid()
      modifies this
      ensures Valid() && id == old(nextId) && nextId == old(nextId) + 1
      ensures notifications == old(notifications) + [Notification(id, message, "success", now)]
      ensures scheduled <==> duration > 0
    {
      id, scheduled := AddNotification(now, message, "success", duration);
    }

    /** `error(message, duration)`. */
    method Error(now: int, message: string, duration: int := DefaultDuration) returns (id: int, scheduled: bool)
      requires Valid()
      modifies this
      ensures Valid() && id == old(nextId) && nextId == old(nextId) + 1
      ensures notifications == old(notifications) + [Notification(id, message, "error", now)]
      ensures scheduled <==> duration > 0
    {
      id, scheduled := AddNotification(now, message, "error", duration);
    }

    /** `info(message, duration)`. */
    method Info(now: int, message: string, duration: int := DefaultDuration) returns (id: int, scheduled: bool)
      requires Valid()
      modifies this
      ensures Valid() && id == old(nextId) && nextId == old(nextId) + 1
      ensures notifications == old(notifications) + [Notification(id, message, "info", now)]
      ensures scheduled <==> duration > 0
    {
      id, scheduled := AddNotification(now, message, "info", duration);
    }

    /** `warning(message, duration)`. */
    method Warning(now: int, message: string, duration: int := DefaultDuration) returns (id: int, scheduled: bool)
      requires Valid()
      modifies this
      ensures Valid() && id == old(nextId) && nextId == old(nextId) + 1
      ensures notifications == old(notifications) + [Notification(id, message, "warning", now)]
      ensures scheduled <==> duration > 0
    {
      id, scheduled := AddNotification(now, message, "warning", duration);
    }
  }

  /** Two toasts added one after the other get consecutive ids, the first one 1 in a fresh store. */
  method TwoToasts(now: int) returns (s: Store, first: int, second: int)
    ensures first == 1 && second == 2
    ensures s.notifications == [Notification(1, "a", "info", now), Notification(2, "b", "error", now)]
  {
    s := new Store();
    var scheduled;
    first, scheduled := s.AddNotification(now, "a");
    second, scheduled := s.Error(now, "b", 0);
  }
}
