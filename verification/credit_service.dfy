/** The credit service: credit requests (one pending request per user, a
    fixed 5% interest rate) and repayments against approved requests. The
    remaining balance is never stored: it is derived from the repayment
    table each time. Repayment references are drawn from a generator until
    one is found that no repayment holds. */
module Credit {
  import opened Common
  import opened CreditStore
  import Response

  /** The interest rate every new request gets, in percent. */
  const InterestRate: real := 5.0
  const MinDuration: int := 1
  const MaxDuration: int := 120

  const AmountNotPositive: string := "Amount must be greater than 0"
  const DurationOutOfRange: string := "Duration must be between 1 and 120 months"
  const PendingExists: string := "You already have a pending credit request"
  const RequestNotFound: string := "Credit request not found"
  const NotApproved: string := "Credit request must be approved before making repayments"
  const ExceedsRemaining: string := "Payment amount exceeds remaining balance"
  const PaymentNotPositive: string := "Payment amount must be greater than 0"

  /** One page of a user's requests. */
  datatype RequestPage = RequestPage(
    requests: seq<CreditRequest>, total: nat, page: int, limit: nat, totalPages: nat)

  /** One page of a request's repayments. */
  datatype RepaymentHistory = RepaymentHistory(
    repayments: seq<CreditRepayment>, total: nat, page: int, limit: nat, totalPages: nat)

  // ---------------------------------------------------------------------
  // The derived balance

  /** What the borrower owes in all: principal plus interest. */
  function TotalOwed(q: CreditRequest): (owed: real)
    ensures q.amount >= 0.0 && q.interestRate >= 0.0 ==> owed >= q.amount
    ensures q.interestRate == InterestRate ==> owed == q.amount * 1.05
  {
    q.amount * (1.0 + q.interestRate / 100.0)
  }

  /** The sum of the repayment amounts. */
  function Repaid(ps: seq<CreditRepayment>): (sum: real)
    ensures (forall p :: p in ps ==> p.amount >= 0.0) ==> sum >= 0.0
  {
    if ps == [] then 0.0 else Repaid(ps[..|ps| - 1]) + ps[|ps| - 1].amount
  }

  /** The repaid total of two runs of repayments is the sum of their totals. */
  lemma {:induction false} RepaidAppend(a: seq<CreditRepayment>, b: seq<CreditRepayment>)
    ensures Repaid(a + b) == Repaid(a) + Repaid(b)
    decreases |b|
  {
    if b == [] {
      assert a + b == a;
    } else {
      var init := b[..|b| - 1];
      assert (a + b)[..|a + b| - 1] == a + init;
      RepaidAppend(a, init);
    }
  }

  /** What is still owed on a request, given the whole repayment table. */
  function Remaining(q: CreditRequest, ps: seq<CreditRepayment>): (rem: real)
    ensures (forall p :: p in ps ==> p.creditRequestId != q.id) ==> rem == TotalOwed(q)
  {
    TotalOwed(q) - Repaid(RepaymentsFor(ps, q.id))
  }

  /** Recording a repayment lowers the remaining balance of its own request
      by exactly its amount and leaves every other request's untouched. */
  lemma RemainingAfterRepayment(q: CreditRequest, ps: seq<CreditRepayment>, p: CreditRepayment)
    ensures p.creditRequestId == q.id ==> Remaining(q, ps + [p]) == Remaining(q, ps) - p.amount
    ensures p.creditRequestId != q.id ==> Remaining(q, ps + [p]) == Remaining(q, ps)
  {
    RepaymentsForAppend(ps, p, q.id);
    var mine := RepaymentsFor(ps, q.id);
    if p.creditRequestId == q.id {
      assert (mine + [p])[..|mine|] == mine;
    } else {
      assert mine + [] == mine;
    }
  }

  /** The index of the first candidate reference that is not yet taken. */
  function FirstUnused(candidates: seq<string>, used: set<string>): (k: nat)
    requires exists k :: 0 <= k < |candidates| && candidates[k] !in used
    ensures k < |candidates| && candidates[k] !in used
    ensures forall j :: 0 <= j < k ==> candidates[j] in used
  {
    if candidates[0] !in used then 0
    else
      UnusedInTail(candidates, used);
      1 + FirstUnused(candidates[1..], used)
  }

  lemma UnusedInTail(candidates: seq<string>, used: set<string>)
    requires exists k :: 0 <= k < |candidates| && candidates[k] !in used
    requires candidates[0] in used
    ensures exists k :: 0 <= k < |candidates| - 1 && candidates[1..][k] !in used
  {
    var k :| 0 <= k < |candidates| && candidates[k] !in used;
    assert candidates[1..][k - 1] == candidates[k];
  }

  /** A request id that no request holds has no repayments (foreign key). */
  lemma NoRepaymentsForFreshRequest(repo: CreditRepository, id: Id)
    requires repo.Valid()
    requires forall q :: q in repo.requests ==> q.id != id
    ensures RepaymentsFor(repo.repayments, id) == []
  {
    forall p | p in repo.repayments ensures p.creditRequestId != id {
      var i :| 0 <= i < |repo.repayments| && repo.repayments[i] == p;
      assert RequestById(repo.requests, p.creditRequestId).Some?;
    }
  }

  /** Request ids are unique, so looking one up finds the row that holds it. */
  lemma {:induction false} RequestByIdUnique(rs: seq<CreditRequest>, q: CreditRequest)
    requires forall i, j :: 0 <= i < j < |rs| ==> rs[i].id != rs[j].id
    requires q in rs
    ensures RequestById(rs, q.id) == Some(q)
  {
    if rs[0] != q {
      assert rs[0].id != q.id by {
        var j :| 0 <= j < |rs| && rs[j] == q;
        assert j > 0;
      }
      RequestByIdUnique(rs[1..], q);
    }
  }

  /** No user has two pending requests in the table. */
  ghost predicate OnePendingPerUser(rs: seq<CreditRequest>)
  {
    forall i, j :: 0 <= i < j < |rs| && rs[i].userId == rs[j].userId ==>
      !(rs[i].status == Pending && rs[j].status == Pending)
  }

  /** No request has been repaid beyond what it owes. */
  ghost predicate RepaidWithin(rs: seq<CreditRequest>, ps: seq<CreditRepayment>)
  {
    forall q :: q in rs ==> Repaid(RepaymentsFor(ps, q.id)) <= TotalOwed(q)
  }

  /** Adding a request for a user with no pending request keeps every user
      at one pending request at most. */
  lemma AddPendingKeepsOnePending(rs: seq<CreditRequest>, q: CreditRequest)
    requires OnePendingPerUser(rs)
    requires forall k :: k in rs ==> !(k.userId == q.userId && k.status == Pending)
    ensures OnePendingPerUser(rs + [q])
  {
    var rs' := rs + [q];
    forall i, j | 0 <= i < j < |rs'| && rs'[i].userId == rs'[j].userId
      ensures !(rs'[i].status == Pending && rs'[j].status == Pending)
    {
      if j == |rs| {
        assert rs'[i] in rs;
      }
    }
  }

  /** Adding a request that owes something and has no repayments yet keeps
      every request within what it owes. */
  lemma AddRequestKeepsWithinOwed(rs: seq<CreditRequest>, ps: seq<CreditRepayment>, q: CreditRequest)
    requires RepaidWithin(rs, ps)
    requires RepaymentsFor(ps, q.id) == [] && TotalOwed(q) >= 0.0
    ensures RepaidWithin(rs + [q], ps)
  {
    forall k | k in rs + [q] ensures Repaid(RepaymentsFor(ps, k.id)) <= TotalOwed(k) {
      if k != q {
        assert k in rs;
      }
    }
  }

  /** Recording a repayment no larger than what its request still owes keeps
      every request within what it owes. */
  lemma AddRepaymentKeepsWithinOwed(rs: seq<CreditRequest>, ps: seq<CreditRepayment>, p: CreditRepayment)
    requires RepaidWithin(rs, ps)
    requires forall k :: k in rs && k.id == p.creditRequestId ==> p.amount <= Remaining(k, ps)
    ensures RepaidWithin(rs, ps + [p])
  {
    forall k | k in rs ensures Repaid(RepaymentsFor(ps + [p], k.id)) <= TotalOwed(k) {
      RemainingAfterRepayment(k, ps, p);
    }
  }

  class CreditService {
    const repo: CreditRepository

    ghost predicate Valid()
      reads this, repo
    {
      repo.Valid()
    }

    /** No user has two pending requests. */
    ghost predicate AtMostOnePending()
      reads this, repo
    {
      OnePendingPerUser(repo.requests)
    }

    /** No request has been repaid beyond what it owes. */
    ghost predicate WithinOwed()
      reads this, repo
    {
      RepaidWithin(repo.requests, repo.repayments)
    }

    constructor (repo: CreditRepository)
      requires repo.Valid()
      ensures this.repo == repo && Valid()
    {
      this.repo := repo;
    }

    /** `requestCredit`: the amount must be positive and the duration within
        [1, 120] months; a user with a pending request is refused; otherwise one
        pending request at 5% interest is added. */
    method RequestCredit(userId: Id, amount: real, purpose: string, durationMonths: int)
      returns (r: Result<CreditRequest>)
      requires Valid()
      modifies repo
      ensures Valid()
      ensures amount <= 0.0 ==> r == Failure(BadRequest(AmountNotPositive)) && unchanged(repo)
      ensures amount > 0.0 && !(MinDuration <= durationMonths <= MaxDuration) ==>
        r == Failure(BadRequest(DurationOutOfRange)) && unchanged(repo)
      ensures amount > 0.0 && MinDuration <= durationMonths <= MaxDuration
              && old(repo.FindPendingRequestByUser(userId)).Some? ==>
        r == Failure(Conflict(PendingExists)) && unchanged(repo)
      ensures amount > 0.0 && MinDuration <= durationMonths <= MaxDuration
              && old(repo.FindPendingRequestByUser(userId)).None? ==>
        && r == Success(CreditRequest(old(repo.nextId), userId, amount, purpose, durationMonths,
                                      InterestRate, Pending, None, None))
        && repo.requests == old(repo.requests) + [r.value]
        && repo.repayments == old(repo.repayments)
      ensures old(AtMostOnePending()) ==> AtMostOnePending()
      ensures old(WithinOwed()) ==> WithinOwed()
    {
      if amount <= 0.0 {
        return Failure(BadRequest(AmountNotPositive));
      }
      if durationMonths < MinDuration || durationMonths > MaxDuration {
        return Failure(BadRequest(DurationOutOfRange));
      }
      if repo.FindPendingRequestByUser(userId).Some? {
        return Failure(Conflict(PendingExists));
      }
      ghost var newId, rs, ps := repo.nextId, repo.requests, repo.repayments;
      assert forall q :: q in rs ==> q.id != newId;
      NoRepaymentsForFreshRequest(repo, newId);
      var q := repo.CreateRequest(userId, amount, purpose, durationMonths, InterestRate, Pending);
      r := Success(q);
      if OnePendingPerUser(rs) {
        AddPendingKeepsOnePending(rs, q);
      }
      if RepaidWithin(rs, ps) {
        AddRequestKeepsWithinOwed(rs, ps, q);
      }
    }

    /** `getCreditRequests`: one page (newest first) of the user's requests,
        narrowed to a status when a non-empty one is given. */
    function GetCreditRequests(userId: Id, page: int, limit: nat, status: Option<string>): (r: RequestPage)
      reads this, repo
      requires page >= 1 && limit >= 1
      ensures |r.requests| <= limit && r.page == page && r.limit == limit
      ensures forall q :: q in r.requests ==>
        q in repo.requests && q.userId == userId
        && (status.Some? && status.value != "" ==> StatusName(q.status) == status.value)
      ensures var filter := RequestFilter(userId, if status.Some? && status.value != "" then status else None);
        && r.total == |Matching(repo.requests, filter)|
        && r.requests == repo.ListRequests(filter, Response.Offset(page, limit), limit)
      ensures r.totalPages == Response.TotalPages(r.total, limit)
      ensures r.totalPages * limit >= r.total && (r.totalPages == 0 <==> r.total == 0)
    {
      var filter := RequestFilter(userId, if status.Some? && status.value != "" then status else None);
      var skip := Response.Offset(page, limit);
      var total := repo.CountRequests(filter);
      RequestPage(repo.ListRequests(filter, skip, limit), total, page, limit, Response.TotalPages(total, limit))
    }

    /** `getCreditRequestById`: the request, only to its owner; a missing
        request and someone else's request give the same NotFound. */
    function GetCreditRequestById(requestId: Id, userId: Id): (r: Result<CreditRequest>)
      reads this, repo
      requires Valid()
      ensures r.Success? ==> r.value in repo.requests && r.value.id == requestId && r.value.userId == userId
      ensures r.Failure? ==> r.error == NotFound(RequestNotFound)
      ensures r.Failure? <==> forall q :: q in repo.requests ==> !(q.id == requestId && q.userId == userId)
    {
      match repo.FindRequestById(requestId)
      case None => Failure(NotFound(RequestNotFound))
      case Some(q) =>
        if q.userId != userId then
          (OwnedLookup(repo.requests, q, requestId, userId); Failure(NotFound(RequestNotFound)))
        else Success(q)
    }

    /** `makeRepayment`: only the owner of an approved request may repay; a
        payment above the remaining balance is refused before a non-positive
        one; a successful payment records exactly one repayment under the
        first generated reference that no repayment holds. */
    method MakeRepayment(requestId: Id, userId: Id, amount: real, candidates: seq<string>)
      returns (r: Result<CreditRepayment>)
      requires Valid()
      requires exists k :: 0 <= k < |candidates| && candidates[k] !in References(repo.repayments)
      modifies repo
      ensures Valid()
      ensures Owner(old(repo.requests), requestId) != Some(userId) ==>
        r == Failure(NotFound(RequestNotFound)) && unchanged(repo)
      ensures Owner(old(repo.requests), requestId) == Some(userId) ==>
        var q := RequestById(old(repo.requests), requestId).value;
        var remaining := Remaining(q, old(repo.repayments));
        && (q.status != Approved ==> r == Failure(BadRequest(NotApproved)) && unchanged(repo))
        && (q.status == Approved && amount > remaining ==>
              r == Failure(BadRequest(ExceedsRemaining)) && unchanged(repo))
        && (q.status == Approved && amount <= remaining && amount <= 0.0 ==>
              r == Failure(BadRequest(PaymentNotPositive)) && unchanged(repo))
        && (q.status == Approved && 0.0 < amount <= remaining ==>
              var used := References(old(repo.repayments));
              && r == Success(CreditRepayment(old(repo.nextId), requestId, amount,
                                              candidates[FirstUnused(candidates, used)]))
              && r.value.referenceNumber !in used
              && repo.repayments == old(repo.repayments) + [r.value]
              && repo.requests == old(repo.requests)
              && Remaining(q, repo.repayments) == remaining - amount
              && Remaining(q, repo.repayments) >= 0.0)
      ensures old(WithinOwed()) ==> WithinOwed()
      ensures repo.requests == old(repo.requests)
    {
      var found := repo.FindRequestWithRepayments(requestId);
      if found.None? {
        return Failure(NotFound(RequestNotFound));
      }
      var q := found.value.0;
      if q.userId != userId {
        return Failure(NotFound(RequestNotFound));
      }
      if q.status != Approved {
        return Failure(BadRequest(NotApproved));
      }
      var totalRepayments := RepaidAmount(found.value.1, 0.0);
      var remaining := TotalOwed(q) - totalRepayments;
      if amount > remaining {
        return Failure(BadRequest(ExceedsRemaining));
      }
      if amount <= 0.0 {
        return Failure(BadRequest(PaymentNotPositive));
      }

      ghost var used := References(repo.repayments);
      ghost var free := FirstUnused(candidates, used);
      var i := 0;
      var reference := candidates[0];
      var existing := repo.FindRepaymentByReference(reference);
      while existing.Some?
        invariant 0 <= i <= free
        invariant reference == candidates[i]
        invariant existing.Some? <==> reference in used
        invariant forall j :: 0 <= j < i ==> candidates[j] in used
        decreases free - i
      {
        i := i + 1;
        reference := candidates[i];
        existing := repo.FindRepaymentByReference(reference);
      }
      assert i == free;

      ghost var rs, before := repo.requests, repo.repayments;
      r := repo.CreateRepayment(requestId, amount, reference);
      RemainingAfterRepayment(q, before, r.value);
      if RepaidWithin(rs, before) {
        OwnedLookup(rs, q, requestId, userId);
        AddRepaymentKeepsWithinOwed(rs, before, r.value);
      }
    }

    /** `getRepaymentHistory`: one page (newest first) of a request's
        repayments, only to its owner; missing and foreign give the same NotFound. */
    function GetRepaymentHistory(requestId: Id, userId: Id, page: int, limit: nat): (r: Result<RepaymentHistory>)
      reads this, repo
      requires Valid()
      requires page >= 1 && limit >= 1
      ensures r.Failure? ==> r.error == NotFound(RequestNotFound)
      ensures r.Failure? <==> Owner(repo.requests, requestId) != Some(userId)
      ensures r.Success? ==>
        && r.value.total == |RepaymentsFor(repo.repayments, requestId)|
        && |r.value.repayments| <= limit && r.value.page == page && r.value.limit == limit
        && (forall p :: p in r.value.repayments ==> p in repo.repayments && p.creditRequestId == requestId)
        && r.value.repayments == repo.ListRepayments(requestId, Response.Offset(page, limit), limit)
        && r.value.totalPages == Response.TotalPages(r.value.total, limit)
        && r.value.totalPages * limit >= r.value.total
        && (r.value.totalPages == 0 <==> r.value.total == 0)
    {
      var skip := Response.Offset(page, limit);
      match repo.FindRequestById(requestId)
      case None => Failure(NotFound(RequestNotFound))
      case Some(q) =>
        if q.userId != userId then Failure(NotFound(RequestNotFound))
        else
          var total := repo.CountRepayments(requestId);
          Success(RepaymentHistory(repo.ListRepayments(requestId, skip, limit), total, page, limit,
                                   Response.TotalPages(total, limit)))
    }
  }

  /** The `reduce` that sums the repayment amounts of a request: from the
      running sum `acc`, each amount is added in table order. Whatever the
      order, it comes to `acc` plus the repaid total. */
  function RepaidAmount(ps: seq<CreditRepayment>, acc: real): (sum: real)
    ensures sum == acc + Repaid(ps)
    decreases |ps|
  {
    if ps == [] then acc
    else
      RepaidAppend([ps[0]], ps[1..]);
      assert [ps[0]] + ps[1..] == ps;
      assert Repaid([ps[0]]) == ps[0].amount by {
        assert [ps[0]][..0] == [];
      }
      RepaidAmount(ps[1..], acc + ps[0].amount)
  }

  /** The owner of the request with that id, if there is one. */
  function Owner(rs: seq<CreditRequest>, requestId: Id): Option<Id>
  {
    match RequestById(rs, requestId)
    case None => None
    case Some(q) => Some(q.userId)
  }

  /** With unique ids, the row found under an id is the only one: if it is
      someone else's, the user owns no request with that id. */
  lemma OwnedLookup(rs: seq<CreditRequest>, found: CreditRequest, requestId: Id, userId: Id)
    requires forall i, j :: 0 <= i < j < |rs| ==> rs[i].id != rs[j].id
    requires RequestById(rs, requestId) == Some(found)
    ensures forall q :: q in rs && q.id == requestId ==> q == found
  {
    forall q | q in rs && q.id == requestId ensures q == found {
      RequestByIdUnique(rs, q);
    }
  }
}
