/** Shared vocabulary of the backend: row identifiers, optional values,
    the service error taxonomy, and the query semantics that every
    repository listing uses (newest first, then `skip`/`take`). */
module Common {

  /** A database row identifier (the store hands out fresh ones). */
  type Id = nat

  datatype Option<+T> = None | Some(value: T)

  /** The domain errors a service throws; each carries its message. */
  datatype Error =
    | BadRequest(message: string)
    | NotFound(message: string)
    | Conflict(message: string)
    | Unauthorized(message: string)
    /** A store constraint (unique key, foreign key, missing row) rejected a write. */
    | Persistence

  datatype Result<+T> = Success(value: T) | Failure(error: Error)

  /** `value || fallback` for an optional string: absent and empty both fall back. */
  function OrDefault(value: Option<string>, fallback: string): (r: string)
    ensures value.Some? && value.value != "" ==> r == value.value
    ensures value.None? || value.value == "" ==> r == fallback
  {
    match value
    case Some(v) => if v != "" then v else fallback
    case None => fallback
  }

  /** The rows in the reverse of their insertion order (newest first). */
  function NewestFirst<T>(rows: seq<T>): (r: seq<T>)
    ensures |r| == |rows|
    ensures forall i :: 0 <= i < |rows| ==> r[i] == rows[|rows| - 1 - i]
  {
    if rows == [] then [] else NewestFirst(rows[1..]) + [rows[0]]
  }

  /** How many of `n` rows a query returns after skipping `skip` and taking
      at most `take`: `min(take, n - skip)`, and none past the end. */
  function PageLength(n: nat, skip: nat, take: nat): nat
  {
    if skip >= n then 0 else if skip + take <= n then take else n - skip
  }

  /** What a query returns after skipping `skip` rows and taking at most `take`. */
  function Window<T>(rows: seq<T>, skip: nat, take: nat): (r: seq<T>)
    ensures |r| <= take
    ensures skip >= |rows| ==> r == []
    ensures |r| == PageLength(|rows|, skip, take)
    ensures forall i :: 0 <= i < |r| ==> r[i] == rows[skip + i]
  {
    if skip >= |rows| then []
    else if skip + take <= |rows| then rows[skip..skip + take]
    else rows[skip..]
  }
}
