/** The credit store: the credit-request table and the append-only repayment
    table. Request ids are unique, every repayment points at an existing
    request (foreign key), and repayment references are unique. */
module CreditStore {
  import opened Common

  datatype CreditStatus = Pending | Approved | Rejected

  datatype CreditRequest = CreditRequest(
    id: Id, userId: Id, amount: real, purpose: string, durationMonths: int,
    interestRate: real, status: CreditStatus,
    approvedBy: Option<Id>, rejectionReason: Option<string>)

  datatype CreditRepayment = CreditRepayment(
    id: Id, creditRequestId: Id, amount: real, referenceNumber: string)

  /** The `data` of a request update: only the supplied fields are written. */
  datatype RequestUpdate = RequestUpdate(
    status: Option<CreditStatus>, approvedBy: Option<Id>, rejectionReason: Option<string>)

  /** The `where` of a request listing: the owner, and a status name when one is given. */
  datatype RequestFilter = RequestFilter(userId: Id, status: Option<string>)

  /** The name under which a status is stored and filtered. */
  function StatusName(s: CreditStatus): string
  {
    match s
    case Pending => "pending"
    case Approved => "approved"
    case Rejected => "rejected"
  }

  predicate Matches(r: CreditRequest, f: RequestFilter)
  {
    r.userId == f.userId && (f.status.None? || StatusName(r.status) == f.status.value)
  }

  function ApplyUpdate(r: CreditRequest, u: RequestUpdate): (q: CreditRequest)
    ensures q.id == r.id && q.userId == r.userId && q.amount == r.amount
    ensures q.interestRate == r.interestRate && q.purpose == r.purpose && q.durationMonths == r.durationMonths
    ensures q.status == (if u.status.Some? then u.status.value else r.status)
    ensures q.approvedBy == (if u.approvedBy.Some? then u.approvedBy else r.approvedBy)
    ensures q.rejectionReason == (if u.rejectionReason.Some? then u.rejectionReason else r.rejectionReason)
  {
    r.(status := if u.status.Some? then u.status.value else r.status,
       approvedBy := if u.approvedBy.Some? then u.approvedBy else r.approvedBy,
       rejectionReason := if u.rejectionReason.Some? then u.rejectionReason else r.rejectionReason)
  }

  // ---------------------------------------------------------------------
  // Queries over the tables, as pure functions

  /** The first request (in table order) of the user with status pending. */
  function FirstPending(rs: seq<CreditRequest>, userId: Id): (r: Option<CreditRequest>)
    ensures r.Some? ==> r.value in rs && r.value.userId == userId && r.value.status == Pending
    ensures r.None? <==> forall q :: q in rs ==> !(q.userId == userId && q.status == Pending)
  {
    if rs == [] then None
    else if rs[0].userId == userId && rs[0].status == Pending then Some(rs[0])
    else FirstPending(rs[1..], userId)
  }

  /** The request with that id. */
  function RequestById(rs: seq<CreditRequest>, id: Id): (r: Option<CreditRequest>)
    ensures r.Some? ==> r.value in rs && r.value.id == id
    ensures r.None? <==> forall q :: q in rs ==> q.id != id
  {
    if rs == [] then None
    else if rs[0].id == id then Some(rs[0])
    else RequestById(rs[1..], id)
  }

  /** The requests a filter selects, in table order. */
  function Matching(rs: seq<CreditRequest>, f: RequestFilter): (r: seq<CreditRequest>)
    ensures |r| <= |rs|
    ensures forall q :: q in r <==> q in rs && Matches(q, f)
  {
    if rs == [] then []
    else (if Matches(rs[0], f) then [rs[0]] else []) + Matching(rs[1..], f)
  }

  /** The table with the request of that id updated. */
  function UpdateRow(rs: seq<CreditRequest>, id: Id, u: RequestUpdate): (r: seq<CreditRequest>)
    ensures |r| == |rs|
    ensures forall i :: 0 <= i < |rs| ==> r[i] == if rs[i].id == id then ApplyUpdate(rs[i], u) else rs[i]
  {
    if rs == [] then [] else [if rs[0].id == id then ApplyUpdate(rs[0], u) else rs[0]] + UpdateRow(rs[1..], id, u)
  }

  /** The repayments of one request, in table order. */
  function RepaymentsFor(ps: seq<CreditRepayment>, requestId: Id): (r: seq<CreditRepayment>)
    ensures |r| <= |ps|
    ensures forall p :: p in r <==> p in ps && p.creditRequestId == requestId
    ensures (forall p :: p in ps ==> p.creditRequestId != requestId) ==> r == []
  {
    if ps == [] then []
    else
      var last := ps[|ps| - 1];
      RepaymentsFor(ps[..|ps| - 1], requestId) + (if last.creditRequestId == requestId then [last] else [])
  }

  lemma RepaymentsForAppend(ps: seq<CreditRepayment>, p: CreditRepayment, requestId: Id)
    ensures RepaymentsFor(ps + [p], requestId)
         == RepaymentsFor(ps, requestId) + (if p.creditRequestId == requestId then [p] else [])
  {
    assert (ps + [p])[..|ps|] == ps;
  }

  /** The repayment holding that reference. */
  function RepaymentByReference(ps: seq<CreditRepayment>, reference: string): (r: Option<CreditRepayment>)
    ensures r.Some? ==> r.value in ps && r.value.referenceNumber == reference
    ensures r.None? <==> forall p :: p in ps ==> p.referenceNumber != reference
  {
    if ps == [] then None
    else if ps[0].referenceNumber == reference then Some(ps[0])
    else RepaymentByReference(ps[1..], reference)
  }

  /** The set of references already taken. */
  function References(ps: seq<CreditRepayment>): (refs: set<string>)
    ensures forall s :: s in refs <==> exists p :: p in ps && p.referenceNumber == s
  {
    set p | p in ps :: p.referenceNumber
  }

  // ---------------------------------------------------------------------
  // The store

  class CreditRepository {
    /** The request rows, in insertion order. */
    var requests: seq<CreditRequest>
    /** The repayment rows, in insertion order. */
    var repayments: seq<CreditRepayment>
    /** The next row id the store hands out. */
    var nextId: nat

    ghost predicate Valid()
      reads this
    {
      && (forall i :: 0 <= i < |requests| ==> requests[i].id < nextId)
      && UniqueRequestIds(requests)
      && (forall i :: 0 <= i < |repayments| ==> repayments[i].id < nextId)
      && ParentsExist(requests, repayments)
      && UniqueReferences(repayments)
    }

    constructor ()
      ensures Valid() && requests == [] && repayments == [] && nextId == 0
    {
      requests, repayments, nextId := [], [], 0;
    }

    /** `findPendingRequestByUser`: a pending request of the user, or none
        exactly when the user has no pending request. */
    function FindPendingRequestByUser(userId: Id): (r: Option<CreditRequest>)
      reads this
      ensures r.Some? ==> r.value in requests && r.value.userId == userId && r.value.status == Pending
      ensures r.None? <==> forall q :: q in requests ==> !(q.userId == userId && q.status == Pending)
    {
      FirstPending(requests, userId)
    }

    /** `createRequest`: adds exactly one request row with a fresh id. */
    method CreateRequest(userId: Id, amount: real, purpose: string, durationMonths: int,
                         interestRate: real, status: CreditStatus)
      returns (r: CreditRequest)
      requires Valid()
      modifies this
      ensures Valid()
      ensures r == CreditRequest(old(nextId), userId, amount, purpose, durationMonths, interestRate, status, None, None)
      ensures requests == old(requests) + [r] && repayments == old(repayments) && nextId == old(nextId) + 1
    {
      r := CreditRequest(nextId, userId, amount, purpose, durationMonths, interestRate, status, None, None);
      ParentsExistAfterRequest(requests, repayments, r);
      requests := requests + [r];
      nextId := nextId + 1;
    }

    /** `listRequests`: the selected requests, newest first, after `skip`, at most `take`. */
    function ListRequests(f: RequestFilter, skip: nat, take: nat): (r: seq<CreditRequest>)
      reads this
      ensures |r| <= take
      ensures |r| == PageLength(|Matching(requests, f)|, skip, take)
      ensures forall q :: q in r ==> q in requests && Matches(q, f)
      ensures var sel := Matching(requests, f);
        forall i :: 0 <= i < |r| ==> skip + i < |sel| && r[i] == sel[|sel| - 1 - (skip + i)]
    {
      Window(NewestFirst(Matching(requests, f)), skip, take)
    }

    /** `countRequests`: how many requests the filter selects. */
    function CountRequests(f: RequestFilter): (n: nat)
      reads this
      ensures n <= |requests|
      ensures n == |Matching(requests, f)|
    {
      |Matching(requests, f)|
    }

    /** `findRequestById`. */
    function FindRequestById(id: Id): (r: Option<CreditRequest>)
      reads this
      ensures r.Some? ==> r.value in requests && r.value.id == id
      ensures r.None? <==> forall q :: q in requests ==> q.id != id
    {
      RequestById(requests, id)
    }

    /** `findRequestWithRepayments`: the request together with all and only
        the repayments that point at it. */
    function FindRequestWithRepayments(id: Id): (r: Option<(CreditRequest, seq<CreditRepayment>)>)
      reads this
      ensures r.None? <==> forall q :: q in requests ==> q.id != id
      ensures r.Some? ==> r.value.0 in requests && r.value.0.id == id
      ensures r.Some? ==> forall p :: p in r.value.1 <==> p in repayments && p.creditRequestId == id
    {
      match RequestById(requests, id)
      case None => None
      case Some(q) => Some((q, RepaymentsFor(repayments, id)))
    }

    /** `findRepaymentByReference`. */
    function FindRepaymentByReference(reference: string): (r: Option<CreditRepayment>)
      reads this
      ensures r.Some? ==> r.value in repayments && r.value.referenceNumber == reference
      ensures r.None? <==> reference !in References(repayments)
    {
      RepaymentByReference(repayments, reference)
    }

    /** `createRepayment`: adds exactly one repayment row; the foreign key
        refuses a missing request and the unique key a taken reference. */
    method CreateRepayment(requestId: Id, amount: real, reference: string)
      returns (r: Result<CreditRepayment>)
      requires Valid()
      modifies this
      ensures Valid()
      ensures RequestById(old(requests), requestId).None? || reference in References(old(repayments)) ==>
        r == Failure(Persistence) && unchanged(this)
      ensures RequestById(old(requests), requestId).Some? && reference !in References(old(repayments)) ==>
        && r == Success(CreditRepayment(old(nextId), requestId, amount, reference))
        && repayments == old(repayments) + [r.value]
        && requests == old(requests) && nextId == old(nextId) + 1
    {
      if RequestById(requests, requestId).None? || RepaymentByReference(repayments, reference).Some? {
        return Failure(Persistence);
      }
      var p := CreditRepayment(nextId, requestId, amount, reference);
      ParentsExistAfterRepayment(requests, repayments, p);
      UniqueReferencesAfterRepayment(repayments, p);
      repayments := repayments + [p];
      nextId := nextId + 1;
      r := Success(p);
    }

    /** `listRepayments`: the request's repayments, newest first, after `skip`, at most `take`. */
    function ListRepayments(requestId: Id, skip: nat, take: nat): (r: seq<CreditRepayment>)
      reads this
      ensures |r| <= take
      ensures |r| == PageLength(|RepaymentsFor(repayments, requestId)|, skip, take)
      ensures forall p :: p in r ==> p in repayments && p.creditRequestId == requestId
      ensures var mine := RepaymentsFor(repayments, requestId);
        forall i :: 0 <= i < |r| ==> skip + i < |mine| && r[i] == mine[|mine| - 1 - (skip + i)]
    {
      Window(NewestFirst(RepaymentsFor(repayments, requestId)), skip, take)
    }

    /** `countRepayments`: how many repayments point at the request. */
    function CountRepayments(requestId: Id): (n: nat)
      reads this
      ensures n <= |repayments|
      ensures n == |RepaymentsFor(repayments, requestId)|
    {
      |RepaymentsFor(repayments, requestId)|
    }

    /** `updateRequestById`: writes the supplied fields of that request only. */
    method UpdateRequestById(id: Id, u: RequestUpdate) returns (r: Result<CreditRequest>)
      requires Valid()
      modifies this
      ensures Valid()
      ensures RequestById(old(requests), id).None? ==> r == Failure(Persistence) && unchanged(this)
      ensures RequestById(old(requests), id).Some? ==>
        && r == Success(ApplyUpdate(RequestById(old(requests), id).value, u))
        && requests == UpdateRow(old(requests), id, u)
        && repayments == old(repayments) && nextId == old(nextId)
    {
      var found := RequestById(requests, id);
      if found.None? {
        return Failure(Persistence);
      }
      var updated := UpdateRow(requests, id, u);
      ParentsExistAfterUpdate(requests, repayments, id, u);
      requests := updated;
      r := Success(ApplyUpdate(found.value, u));
    }
  }

  /** A request found before a row is appended is still found after. */
  lemma {:induction false} RequestByIdGrows(rs: seq<CreditRequest>, q: CreditRequest, id: Id)
    requires RequestById(rs, id).Some?
    ensures RequestById(rs + [q], id) == RequestById(rs, id)
  {
    if rs[0].id != id {
      assert (rs + [q])[1..] == rs[1..] + [q];
      RequestByIdGrows(rs[1..], q, id);
    }
  }

  /** Updating a request keeps every id findable. */
  lemma {:induction false} RequestByIdKeptByUpdate(rs: seq<CreditRequest>, id: Id, u: RequestUpdate, k: Id)
    requires RequestById(rs, k).Some?
    ensures RequestById(UpdateRow(rs, id, u), k).Some?
  {
    if rs[0].id != k {
      RequestByIdKeptByUpdate(rs[1..], id, u, k);
    }
  }

  /** No two requests share an id. */
  ghost predicate UniqueRequestIds(rs: seq<CreditRequest>)
  {
    forall i, j :: 0 <= i < j < |rs| ==> rs[i].id != rs[j].id
  }

  /** Every repayment points at an existing request (the foreign key). */
  ghost predicate ParentsExist(rs: seq<CreditRequest>, ps: seq<CreditRepayment>)
  {
    forall i :: 0 <= i < |ps| ==> RequestById(rs, ps[i].creditRequestId).Some?
  }

  /** No two repayments share a reference. */
  ghost predicate UniqueReferences(ps: seq<CreditRepayment>)
  {
    forall i, j :: 0 <= i < j < |ps| ==> ps[i].referenceNumber != ps[j].referenceNumber
  }

  /** Appending a request keeps every repayment's request findable. */
  lemma ParentsExistAfterRequest(rs: seq<CreditRequest>, ps: seq<CreditRepayment>, q: CreditRequest)
    requires ParentsExist(rs, ps)
    ensures ParentsExist(rs + [q], ps)
  {
    forall i | 0 <= i < |ps| ensures RequestById(rs + [q], ps[i].creditRequestId).Some? {
      RequestByIdGrows(rs, q, ps[i].creditRequestId);
    }
  }

  /** Updating a request keeps every repayment's request findable. */
  lemma ParentsExistAfterUpdate(rs: seq<CreditRequest>, ps: seq<CreditRepayment>, id: Id, u: RequestUpdate)
    requires ParentsExist(rs, ps)
    ensures ParentsExist(UpdateRow(rs, id, u), ps)
  {
    forall i | 0 <= i < |ps| ensures RequestById(UpdateRow(rs, id, u), ps[i].creditRequestId).Some? {
      RequestByIdKeptByUpdate(rs, id, u, ps[i].creditRequestId);
    }
  }

  /** Appending a repayment of an existing request keeps the foreign key. */
  lemma ParentsExistAfterRepayment(rs: seq<CreditRequest>, ps: seq<CreditRepayment>, p: CreditRepayment)
    requires ParentsExist(rs, ps) && RequestById(rs, p.creditRequestId).Some?
    ensures ParentsExist(rs, ps + [p])
  {
    forall i | 0 <= i < |ps| + 1 ensures RequestById(rs, (ps + [p])[i].creditRequestId).Some? {
      if i < |ps| {
        assert (ps + [p])[i] == ps[i];
      }
    }
  }

  /** Appending a repayment under a reference no repayment holds keeps
      references unique. */
  lemma UniqueReferencesAfterRepayment(ps: seq<CreditRepayment>, p: CreditRepayment)
    requires UniqueReferences(ps)
    requires forall k :: k in ps ==> k.referenceNumber != p.referenceNumber
    ensures UniqueReferences(ps + [p])
  {
    var ps' := ps + [p];
    forall i, j | 0 <= i < j < |ps'| ensures ps'[i].referenceNumber != ps'[j].referenceNumber {
      if j == |ps| {
        assert ps'[i] in ps;
      }
    }
  }
}
