/** The notification service: records a notification, then hands the same
    payload to the delivery queue; lists a user's notifications by page; and
    marks one read for its owner only. The queue is modelled as the `outbox`
    sequence of payloads handed over, in order. */
module Notifications {
  import opened Common
  import opened NotificationsStore
  import Response

  const MissingFields: string := "Missing required notification fields"
  const NotificationNotFound: string := "Notification not found"

  /** What a caller asks to send; absent or empty parts are missing. */
  datatype Payload = Payload(userId: Option<Id>, kind: Option<NotificationType>, title: string, message: string)

  /** One page of a user's notifications. */
  datatype NotificationPage = NotificationPage(
    notifications: seq<Notification>, total: nat, page: int, limit: nat, totalPages: nat)

  /** The payload names a user, a type, a title and a message. */
  predicate Complete(p: Payload)
  {
    p.userId.Some? && p.kind.Some? && p.title != "" && p.message != ""
  }

  class NotificationsService {
    const repo: NotificationsRepository
    /** The payloads handed to the delivery queue, oldest first. */
    var outbox: seq<Payload>

    ghost predicate Valid()
      reads this, repo
    {
      repo.Valid()
    }

    constructor (repo: NotificationsRepository)
      requires repo.Valid()
      ensures this.repo == repo && outbox == [] && Valid()
    {
      this.repo := repo;
      outbox := [];
    }

    /** `notify`: an incomplete payload is refused with nothing recorded or
        queued; otherwise one unread notification carrying the payload is
        recorded and the payload is queued after it. */
    method Notify(p: Payload) returns (r: Result<Notification>)
      requires Valid()
      modifies this, repo
      ensures Valid()
      ensures !Complete(p) ==> r == Failure(BadRequest(MissingFields)) && unchanged(this, repo)
      ensures Complete(p) ==>
        && r.Success?
        && r.value.id == old(repo.nextId)
        && r.value.userId == p.userId.value && r.value.kind == p.kind.value
        && r.value.title == p.title && r.value.message == p.message
        && !r.value.read
        && repo.rows == old(repo.rows) + [r.value] && repo.nextId == old(repo.nextId) + 1
        && outbox == old(outbox) + [p]
    {
      if p.userId.None? || p.title == "" || p.message == "" || p.kind.None? {
        return Failure(BadRequest(MissingFields));
      }
      var record := repo.Create(p.userId.value, p.kind.value, p.title, p.message, Some(false));
      outbox := outbox + [p];
      r := Success(record);
    }

    /** `list`: one page, newest first, of the user's notifications, with
        the user's total count and the page count. */
    function List(userId: Id, page: int, limit: nat): (r: NotificationPage)
      reads this, repo
      requires page >= 1 && limit >= 1
      ensures |r.notifications| <= limit && r.page == page && r.limit == limit
      ensures r.total == |OfUser(repo.rows, userId)|
      ensures forall n :: n in r.notifications ==> n in repo.rows && n.userId == userId
      ensures r.notifications == repo.ListByUser(userId, Response.Offset(page, limit), limit)
      ensures r.totalPages == Response.TotalPages(r.total, limit)
      ensures r.totalPages * limit >= r.total && (r.totalPages == 0 <==> r.total == 0)
    {
      var total := repo.CountByUser(userId);
      NotificationPage(repo.ListByUser(userId, Response.Offset(page, limit), limit), total, page, limit,
                       Response.TotalPages(total, limit))
    }

    /** `markAsRead`: a missing notification and someone else's give the same
        NotFound and change nothing; the owner's is flagged read and no other
        row changes. */
    method MarkAsRead(userId: Id, notificationId: Id) returns (r: Result<()>)
      requires Valid()
      modifies repo
      ensures Valid()
      ensures !Owns(old(repo.rows), userId, notificationId) ==>
        r == Failure(NotFound(NotificationNotFound)) && unchanged(repo)
      ensures Owns(old(repo.rows), userId, notificationId) ==>
        r == Success(()) && repo.rows == MarkRow(old(repo.rows), notificationId)
        && repo.nextId == old(repo.nextId)
    {
      var notif := repo.FindById(notificationId);
      if notif.None? || notif.value.userId != userId {
        return Failure(NotFound(NotificationNotFound));
      }
      var _ := repo.MarkRead(notificationId);
      r := Success(());
    }
  }

  /** The notification with that id exists and belongs to the user. */
  predicate Owns(rows: seq<Notification>, userId: Id, id: Id)
  {
    NotificationById(rows, id).Some? && NotificationById(rows, id).value.userId == userId
  }

  /** After `markAsRead` the notification is read, its owner still sees the
      same number of notifications, and a second call changes nothing more. */
  lemma MarkAsReadEffect(rows: seq<Notification>, userId: Id, id: Id)
    requires Owns(rows, userId, id)
    ensures NotificationById(MarkRow(rows, id), id) == Some(NotificationById(rows, id).value.(read := true))
    ensures Owns(MarkRow(rows, id), userId, id)
    ensures forall u :: |OfUser(MarkRow(rows, id), u)| == |OfUser(rows, u)|
    ensures MarkRow(MarkRow(rows, id), id) == MarkRow(rows, id)
  {
    ByIdAfterMark(rows, id);
    forall u ensures |OfUser(MarkRow(rows, id), u)| == |OfUser(rows, u)| {
      MarkRowKeepsListing(rows, id, u);
    }
    MarkRowIdempotent(rows, id);
  }

  lemma {:induction false} ByIdAfterMark(rows: seq<Notification>, id: Id)
    requires NotificationById(rows, id).Some?
    ensures NotificationById(MarkRow(rows, id), id) == Some(NotificationById(rows, id).value.(read := true))
  {
    if rows[0].id != id {
      assert MarkRow(rows, id)[1..] == MarkRow(rows[1..], id);
      ByIdAfterMark(rows[1..], id);
    }
  }
}
