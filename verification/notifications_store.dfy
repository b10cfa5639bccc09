/** The notification table: rows a user reads newest first, whose only
    mutable column is the `read` flag. */
module NotificationsStore {
  import opened Common

  datatype NotificationType = Email | Sms | InApp

  datatype Notification = Notification(
    id: Id, userId: Id, kind: NotificationType, title: string, message: string, read: bool)

  /** The notifications of one user, in table order. */
  function OfUser(rows: seq<Notification>, userId: Id): (r: seq<Notification>)
    ensures |r| <= |rows|
    ensures forall n :: n in r <==> n in rows && n.userId == userId
  {
    if rows == [] then []
    else
      var last := rows[|rows| - 1];
      OfUser(rows[..|rows| - 1], userId) + (if last.userId == userId then [last] else [])
  }

  lemma OfUserAppend(rows: seq<Notification>, n: Notification, userId: Id)
    ensures OfUser(rows + [n], userId) == OfUser(rows, userId) + (if n.userId == userId then [n] else [])
  {
    assert (rows + [n])[..|rows|] == rows;
  }

  /** The notification with that id. */
  function NotificationById(rows: seq<Notification>, id: Id): (r: Option<Notification>)
    ensures r.Some? ==> r.value in rows && r.value.id == id
    ensures r.None? <==> forall n :: n in rows ==> n.id != id
  {
    if rows == [] then None
    else if rows[0].id == id then Some(rows[0])
    else NotificationById(rows[1..], id)
  }

  /** The table with the row of that id flagged as read. */
  function MarkRow(rows: seq<Notification>, id: Id): (r: seq<Notification>)
    ensures |r| == |rows|
    ensures forall i :: 0 <= i < |rows| ==> r[i] == if rows[i].id == id then rows[i].(read := true) else rows[i]
  {
    if rows == [] then [] else [if rows[0].id == id then rows[0].(read := true) else rows[0]] + MarkRow(rows[1..], id)
  }

  /** Marking a row read twice is the same as marking it once. */
  lemma MarkRowIdempotent(rows: seq<Notification>, id: Id)
    ensures MarkRow(MarkRow(rows, id), id) == MarkRow(rows, id)
  {
  }

  /** Marking a row read changes no user's listing except for that row's
      flag: filtering by user and marking commute. */
  lemma {:induction false} MarkRowKeepsListing(rows: seq<Notification>, id: Id, userId: Id)
    ensures OfUser(MarkRow(rows, id), userId) == MarkRow(OfUser(rows, userId), id)
  {
    if rows != [] {
      var init, last := rows[..|rows| - 1], rows[|rows| - 1];
      var m := if last.id == id then last.(read := true) else last;
      var tail := if last.userId == userId then [last] else [];
      assert rows == init + [last];
      MarkRowAppend(init, [last], id);
      assert MarkRow([last], id) == [m];
      OfUserAppend(MarkRow(init, id), m, userId);
      MarkRowKeepsListing(init, id, userId);
      OfUserAppend(init, last, userId);
      MarkRowAppend(OfUser(init, userId), tail, id);
      assert MarkRow(tail, id) == if m.userId == userId then [m] else [];
    }
  }

  lemma MarkRowAppend(a: seq<Notification>, b: seq<Notification>, id: Id)
    ensures MarkRow(a + b, id) == MarkRow(a, id) + MarkRow(b, id)
  {
  }

  class NotificationsRepository {
    /** The notification rows, in insertion (sending) order. */
    var rows: seq<Notification>
    /** The next row id the store hands out. */
    var nextId: nat

    ghost predicate Valid()
      reads this
    {
      && (forall i :: 0 <= i < |rows| ==> rows[i].id < nextId)
      && (forall i, j :: 0 <= i < j < |rows| ==> rows[i].id != rows[j].id)
    }

    constructor ()
      ensures Valid() && rows == [] && nextId == 0
    {
      rows, nextId := [], 0;
    }

    /** `create`: adds one row; `read` is false unless it is supplied. */
    method Create(userId: Id, kind: NotificationType, title: string, message: string, read: Option<bool>)
      returns (r: Notification)
      requires Valid()
      modifies this
      ensures Valid()
      ensures r == Notification(old(nextId), userId, kind, title, message, read.Some? && read.value)
      ensures rows == old(rows) + [r] && nextId == old(nextId) + 1
    {
      r := Notification(nextId, userId, kind, title, message, if read.Some? then read.value else false);
      rows := rows + [r];
      nextId := nextId + 1;
    }

    /** `listByUser`: the user's notifications, newest first, after `skip`, at most `take`. */
    function ListByUser(userId: Id, skip: nat, take: nat): (r: seq<Notification>)
      reads this
      ensures |r| <= take
      ensures |r| == PageLength(|OfUser(rows, userId)|, skip, take)
      ensures forall n :: n in r ==> n in rows && n.userId == userId
      ensures var mine := OfUser(rows, userId);
        forall i :: 0 <= i < |r| ==> skip + i < |mine| && r[i] == mine[|mine| - 1 - (skip + i)]
    {
      Window(NewestFirst(OfUser(rows, userId)), skip, take)
    }

    /** `countByUser`. */
    function CountByUser(userId: Id): (n: nat)
      reads this
      ensures n <= |rows|
      ensures n == |OfUser(rows, userId)|
    {
      |OfUser(rows, userId)|
    }

    /** `findById`. */
    function FindById(id: Id): (r: Option<Notification>)
      reads this
      ensures r.Some? ==> r.value in rows && r.value.id == id
      ensures r.None? <==> forall n :: n in rows ==> n.id != id
    {
      NotificationById(rows, id)
    }

    /** `markRead`: flags that row as read and changes nothing else; a
        missing row makes the update fail. */
    method MarkRead(id: Id) returns (r: Result<Notification>)
      requires Valid()
      modifies this
      ensures Valid()
      ensures NotificationById(old(rows), id).None? ==> r == Failure(Persistence) && unchanged(this)
      ensures NotificationById(old(rows), id).Some? ==>
        && r == Success(NotificationById(old(rows), id).value.(read := true))
        && rows == MarkRow(old(rows), id) && nextId == old(nextId)
    {
      var found := NotificationById(rows, id);
      if found.None? {
        return Failure(Persistence);
      }
      rows := MarkRow(rows, id);
      r := Success(found.value.(read := true));
    }
  }
}
