/** The notification store (shared/stores/notifications.js): a list of
    notifications shown to the user and the counter that numbers them.

    setTimeout is not run here: a notification added with a positive timeout
    leaves a pending Timer, and the timer firing is a call to Remove. */
module Notifications {
  import opened Common

  datatype Notification = Notification(id: int, message: string, kind: string)

  /** A scheduled automatic removal. */
  datatype Timer = Timer(id: int, delay: int)

  /** The notifications without those carrying `id`, in their order. */
  function Without(items: seq<Notification>, id: int): (rest: seq<Notification>)
    ensures |rest| <= |items|
    ensures forall n :: n in rest <==> n in items && n.id != id
  {
    if |items| == 0 then []
    else
      var init := Without(items[..|items| - 1], id);
      var last := items[|items| - 1];
      assert forall n :: n in items <==> n in items[..|items| - 1] || n == last;
      if last.id == id then init else init + [last]
  }

  /** Ids strictly increase along the list. */
  predicate Ascending(items: seq<Notification>) {
    forall i, j :: 0 <= i < j < |items| ==> items[i].id < items[j].id
  }

  /** Removing an id no notification carries changes nothing. */
  lemma {:induction false} WithoutAbsent(items: seq<Notification>, id: int)
    requires forall n :: n in items ==> n.id != id
    ensures Without(items, id) == items
  {
    if |items| > 0 {
      var n := |items| - 1;
      WithoutAbsent(items[..n], id);
      assert items[..n] + [items[n]] == items;
    }
  }

  /** Removing twice is removing once. */
  lemma WithoutIdempotent(items: seq<Notification>, id: int)
    ensures Without(Without(items, id), id) == Without(items, id)
  {
    WithoutAbsent(Without(items, id), id);
  }

  /** Removal keeps the others in their order: what remains of an ascending
      list is still ascending. */
  lemma {:induction false} WithoutAscending(items: seq<Notification>, id: int)
    requires Ascending(items)
    ensures Ascending(Without(items, id))
  {
    if |items| > 0 {
      var n := |items| - 1;
      assert Ascending(items[..n]);
      WithoutAscending(items[..n], id);
      var rest := Without(items[..n], id);
      forall k | 0 <= k < |rest| ensures rest[k].id < items[n].id {
        assert rest[k] in items[..n];
      }
    }
  }

  /** In an ascending list no two notifications share an id, so removing an id
      removes exactly one notification when it is there. */
  lemma {:induction false} WithoutPresent(items: seq<Notification>, k: nat)
    requires Ascending(items) && k < |items|
    ensures |Without(items, items[k].id)| == |items| - 1
  {
    var n := |items| - 1;
    var id := items[k].id;
    var init, last := items[..n], items[n];
    assert Ascending(init);
    if k == n {
      forall m | m in init ensures m.id != id {
        var j :| 0 <= j < n && init[j] == m;
        assert items[j] == m;
      }
      WithoutAbsent(init, id);
      assert Without(items, id) == Without(init, id);
    } else {
      assert init[k] == items[k];
      WithoutPresent(init, k);
      assert last.id != id;
      assert Without(items, id) == Without(init, id) + [last];
    }
  }

  /** What removing an id does to an ascending list. */
  lemma WithoutEffect(items: seq<Notification>, id: int)
    requires Ascending(items)
    ensures Ascending(Without(items, id))
    ensures (forall n :: n in items ==> n.id != id) ==> Without(items, id) == items
    ensures (exists n :: n in items && n.id == id) ==> |Without(items, id)| == |items| - 1
  {
    WithoutAscending(items, id);
    if k :| 0 <= k < |items| && items[k].id == id {
      WithoutPresent(items, k);
    } else {
      WithoutAbsent(items, id);
    }
  }

  class NotificationStore {
    var items: seq<Notification>
    var nextId: int
    /** The automatic removals scheduled and not yet fired. */
    var timers: seq<Timer>

    ghost predicate Valid()
      reads this
    {
      && nextId >= 1
      && Ascending(items)
      && (forall n :: n in items ==> 1 <= n.id < nextId)
    }

    /** createNotificationStore */
    constructor ()
      ensures Valid() && items == [] && nextId == 1 && timers == []
    {
      items, nextId, timers := [], 1, [];
    }

    /** add(message, type = 'info', timeout = 5000): appends the notification
        under the next id, schedules its removal when the timeout is positive,
        and returns the id. */
    method Add(message: string, kind: Option<string>, timeout: Option<int>) returns (id: int)
      requires Valid()
      modifies this
      ensures Valid()
      ensures id == old(nextId) && nextId == old(nextId) + 1
      ensures forall n :: n in old(items) ==> n.id < id
      ensures items == old(items) + [Notification(id, message, if kind.Some? then kind.value else "info")]
      ensures var delay := if timeout.Some? then timeout.value else 5000;
              timers == old(timers) + (if delay > 0 then [Timer(id, delay)] else [])
    {
      id := nextId;
      nextId := nextId + 1;
      var notification := Notification(id, message, if kind.Some? then kind.value else "info");
      items := items + [notification];
      var delay := if timeout.Some? then timeout.value else 5000;
      if delay > 0 {
        timers := timers + [Timer(id, delay)];
      }
    }

    /** success(message, timeout = 5000) */
    method Success(message: string, timeout: Option<int>) returns (id: int)
      requires Valid()
      modifies this
      ensures Valid()
      ensures id == old(nextId) && nextId == old(nextId) + 1
      ensures items == old(items) + [Notification(id, message, "success")]
      ensures var delay := if timeout.Some? then timeout.value else 5000;
              timers == old(timers) + (if delay > 0 then [Timer(id, delay)] else [])
    {
      id := Add(message, Some("success"), Some(if timeout.Some? then timeout.value else 5000));
    }

    /** error(message, timeout = 8000): shown with the "danger" style. */
    method Error(message: string, timeout: Option<int>) returns (id: int)
      requires Valid()
      modifies this
      ensures Valid()
      ensures id == old(nextId) && nextId == old(nextId) + 1
      ensures items == old(items) + [Notification(id, message, "danger")]
      ensures var delay := if timeout.Some? then timeout.value else 8000;
              timers == old(timers) + (if delay > 0 then [Timer(id, delay)] else [])
    {
      id := Add(message, Some("danger"), Some(if timeout.Some? then timeout.value else 8000));
    }

    /** warning(message, timeout = 6000) */
    method Warning(message: string, timeout: Option<int>) returns (id: int)
      requires Valid()
      modifies this
      ensures Valid()
      ensures id == old(nextId) && nextId == old(nextId) + 1
      ensures items == old(items) + [Notification(id, message, "warning")]
      ensures var delay := if timeout.Some? then timeout.value else 6000;
              timers == old(timers) + (if delay > 0 then [Timer(id, delay)] else [])
    {
      id := Add(message, Some("warning"), Some(if timeout.Some? then timeout.value else 6000));
    }

    /** info(message, timeout = 5000) */
    method Info(message: string, timeout: Option<int>) returns (id: int)
      requires Valid()
      modifies this
      ensures Valid()
      ensures id == old(nextId) && nextId == old(nextId) + 1
      ensures items == old(items) + [Notification(id, message, "info")]
      ensures var delay := if timeout.Some? then timeout.value else 5000;
              timers == old(timers) + (if delay > 0 then [Timer(id, delay)] else [])
    {
      id := Add(message, Some("info"), Some(if timeout.Some? then timeout.value else 5000));
    }

    /** remove(id): drops the notification with that id, keeping the others in
        order; an unknown or already removed id changes nothing. Also what a
        timer does when it fires. */
    method Remove(id: int)
      requires Valid()
      modifies this
      ensures Valid() && nextId == old(nextId) && timers == old(timers)
      ensures items == Without(old(items), id)
      ensures (forall n :: n in old(items) ==> n.id != id) ==> items == old(items)
      ensures (exists n :: n in old(items) && n.id == id) ==> |items| == |old(items)| - 1
    {
      WithoutEffect(items, id);
      items := Without(items, id);
    }

    /** A scheduled removal firing: the timer is gone and its notification is
        removed, if it is still there. */
    method FireTimer(k: nat)
      requires Valid() && k < |timers|
      modifies this
      ensures Valid() && nextId == old(nextId)
      ensures timers == old(timers[..k] + timers[k + 1..])
      ensures items == Without(old(items), old(timers[k].id))
    {
      var id := timers[k].id;
      timers := timers[..k] + timers[k + 1..];
      WithoutAscending(items, id);
      items := Without(items, id);
    }

    /** clear(): empties the list; the counter goes on, so later ids never
        repeat earlier ones. */
    method Clear()
      requires Valid()
      modifies this
      ensures Valid() && items == [] && nextId == old(nextId) && timers == old(timers)
    {
      items := [];
    }
  }
}
