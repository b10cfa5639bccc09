/** The client's UI store: a loading flag and the list of toasts on screen.
    A toast's id is the clock reading when it was shown; showing a toast
    also schedules its removal after its duration (5000 ms by default),
    which is `RemoveToast` on that id. */
module UI {
  import opened Common

  datatype ToastType = SuccessToast | ErrorToast | InfoToast | WarningToast

  datatype Toast = Toast(id: nat, kind: ToastType, message: string, duration: Option<int>)

  /** The removal `showToast` schedules: which toast, after how many milliseconds. */
  datatype Expiry = Expiry(id: nat, delay: int)

  const DefaultDuration: int := 5000

  /** `toasts.filter(t => t.id !== id)`. */
  function WithoutId(toasts: seq<Toast>, id: nat): (r: seq<Toast>)
    ensures |r| <= |toasts|
    ensures forall t :: t in r <==> t in toasts && t.id != id
    ensures (forall t :: t in toasts ==> t.id != id) ==> r == toasts
  {
    if toasts == [] then []
    else (if toasts[0].id != id then [toasts[0]] else []) + WithoutId(toasts[1..], id)
  }

  /** Filtering distributes over concatenation, so the kept toasts stay in
      their order. */
  lemma {:induction false} WithoutIdAppend(a: seq<Toast>, b: seq<Toast>, id: nat)
    ensures WithoutId(a + b, id) == WithoutId(a, id) + WithoutId(b, id)
  {
    if a == [] {
      assert a + b == b;
    } else {
      assert (a + b)[0] == a[0] && (a + b)[1..] == a[1..] + b;
      WithoutIdAppend(a[1..], b, id);
    }
  }

  /** Removing twice is removing once, and removals commute. */
  lemma {:induction false} WithoutIdLaws(toasts: seq<Toast>, id: nat, other: nat)
    ensures WithoutId(WithoutId(toasts, id), id) == WithoutId(toasts, id)
    ensures WithoutId(WithoutId(toasts, id), other) == WithoutId(WithoutId(toasts, other), id)
  {
    if toasts != [] {
      var h, tail := toasts[0], toasts[1..];
      var keepId := if h.id != id then [h] else [];
      var keepOther := if h.id != other then [h] else [];
      var both := if h.id != id && h.id != other then [h] else [];
      assert WithoutId(toasts, id) == keepId + WithoutId(tail, id);
      assert WithoutId(toasts, other) == keepOther + WithoutId(tail, other);
      assert WithoutId(keepId, id) == keepId;
      assert WithoutId(keepId, other) == both && WithoutId(keepOther, id) == both;
      WithoutIdAppend(keepId, WithoutId(tail, id), id);
      WithoutIdAppend(keepId, WithoutId(tail, id), other);
      WithoutIdAppend(keepOther, WithoutId(tail, other), id);
      WithoutIdLaws(tail, id, other);
    }
  }

  /** The scheduled removal of a toast just shown takes away that toast (and
      any older one that happens to share its id) and leaves the rest in order. */
  lemma ExpiryUndoesShow(toasts: seq<Toast>, t: Toast)
    ensures WithoutId(toasts + [t], t.id) == WithoutId(toasts, t.id)
    ensures (forall u :: u in toasts ==> u.id != t.id) ==> WithoutId(toasts + [t], t.id) == toasts
  {
    WithoutIdAppend(toasts, [t], t.id);
    assert WithoutId([t], t.id) == [] + WithoutId([t][1..], t.id);
  }

  /** `duration || 5000`: an absent or zero duration means the default. */
  function DelayOf(duration: Option<int>): (d: int)
    ensures duration.Some? && duration.value != 0 ==> d == duration.value
    ensures duration.None? || duration.value == 0 ==> d == DefaultDuration
  {
    if duration.Some? && duration.value != 0 then duration.value else DefaultDuration
  }

  class UIStore {
    var isLoading: bool
    /** The toasts on screen, oldest first. */
    var toasts: seq<Toast>

    constructor ()
      ensures !isLoading && toasts == []
    {
      isLoading := false;
      toasts := [];
    }

    /** `setLoading`: changes only the loading flag. */
    method SetLoading(loading: bool)
      modifies this
      ensures isLoading == loading && toasts == old(toasts)
    {
      isLoading := loading;
    }

    /** `showToast`: appends exactly one toast, stamped with the clock, and
        returns the removal it schedules. */
    method ShowToast(kind: ToastType, message: string, duration: Option<int>, now: nat) returns (e: Expiry)
      modifies this
      ensures toasts == old(toasts) + [Toast(now, kind, message, duration)]
      ensures isLoading == old(isLoading)
      ensures e == Expiry(now, DelayOf(duration))
    {
      toasts := toasts + [Toast(now, kind, message, duration)];
      e := Expiry(now, DelayOf(duration));
    }

    /** `removeToast` (and the removal `showToast` schedules): drops every
        toast with that id and keeps the others in order. */
    method RemoveToast(id: nat)
      modifies this
      ensures toasts == WithoutId(old(toasts), id)
      ensures isLoading == old(isLoading)
    {
      toasts := WithoutId(toasts, id);
    }

    /** `clearToasts`. */
    method ClearToasts()
      modifies this
      ensures toasts == [] && isLoading == old(isLoading)
    {
      toasts := [];
    }
  }
}
