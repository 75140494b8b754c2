/** The appointment status state machine: the transition table consulted when
    an update asks for a new status, and the guards of the dedicated cancel,
    confirm, complete and delete operations. */
module AppointmentStatus {
  import opened Wrappers

  datatype Status = Scheduled | Confirmed | Completed | Cancelled | NoShow

  /** The text stored in the `status` column. */
  function Name(s: Status): string
  {
    match s
    case Scheduled => "scheduled"
    case Confirmed => "confirmed"
    case Completed => "completed"
    case Cancelled => "cancelled"
    case NoShow => "no_show"
  }

  /** The status a column text denotes, if any. */
  function ParseStatus(text: string): (r: Option<Status>)
    ensures r.Some? ==> Name(r.value) == text
    ensures forall s :: Name(s) == text ==> r == Some(s)
  {
    if text == "scheduled" then Some(Scheduled)
    else if text == "confirmed" then Some(Confirmed)
    else if text == "completed" then Some(Completed)
    else if text == "cancelled" then Some(Cancelled)
    else if text == "no_show" then Some(NoShow)
    else None
  }

  /** The `validTransitions` table: the statuses an update may move to. */
  function ValidTransitions(from: Status): seq<Status>
  {
    match from
    case Scheduled => [Confirmed, Cancelled]
    case Confirmed => [Completed, Cancelled, NoShow]
    case Completed => []
    case Cancelled => [Scheduled]
    case NoShow => []
  }

  predicate CanTransition(from: Status, to: Status)
  {
    to in ValidTransitions(from)
  }

  /** `validTransitions[current].includes(requested)` on the requested text. */
  predicate AcceptsRequest(from: Status, requested: string)
  {
    exists i :: 0 <= i < |ValidTransitions(from)| && Name(ValidTransitions(from)[i]) == requested
  }

  /** A requested text passes the table exactly when it names a status the
      table allows; any other text, known status or not, is refused. */
  lemma AcceptsRequestNamesTransition(from: Status, requested: string)
    ensures AcceptsRequest(from, requested) <==>
      ParseStatus(requested).Some? && CanTransition(from, ParseStatus(requested).value)
  {
    if AcceptsRequest(from, requested) {
      var i :| 0 <= i < |ValidTransitions(from)| && Name(ValidTransitions(from)[i]) == requested;
      assert ParseStatus(requested) == Some(ValidTransitions(from)[i]);
    }
    if ParseStatus(requested).Some? && CanTransition(from, ParseStatus(requested).value) {
      var to := ParseStatus(requested).value;
      var i :| 0 <= i < |ValidTransitions(from)| && ValidTransitions(from)[i] == to;
      assert Name(ValidTransitions(from)[i]) == requested;
    }
  }

  /** `completed` and `no_show` have no exits; nothing re-enters `scheduled`
      except a reopened cancellation; `completed` and `no_show` are reached
      only from `confirmed`. */
  lemma TableShape(from: Status, to: Status)
    ensures (from == Completed || from == NoShow) ==> !CanTransition(from, to)
    ensures CanTransition(from, Scheduled) <==> from == Cancelled
    ensures CanTransition(from, Completed) <==> from == Confirmed
    ensures CanTransition(from, NoShow) <==> from == Confirmed
    ensures !CanTransition(from, from)
  {
  }

  /** A sequence of statuses in which each step is allowed by the table. */
  predicate ValidWalk(w: seq<Status>)
  {
    forall i :: 0 < i < |w| ==> CanTransition(w[i - 1], w[i])
  }

  /** Along any walk of the table, `completed` and `no_show` can only be last,
      and a walk that starts `scheduled` passes through `confirmed` before it
      reaches `completed`. */
  lemma {:induction false} WalkFacts(w: seq<Status>, j: nat)
    requires ValidWalk(w) && j < |w|
    ensures (w[j] == Completed || w[j] == NoShow) ==> j == |w| - 1
    ensures w[0] == Scheduled && w[j] == Completed ==> exists i :: 0 <= i < j && w[i] == Confirmed
  {
    if j + 1 < |w| {
      TableShape(w[j], w[j + 1]);
    }
    if w[0] == Scheduled && w[j] == Completed {
      assert j > 0;
      TableShape(w[j - 1], Completed);
      assert w[j - 1] == Confirmed;
    }
  }

  /** `cancelAppointment` refuses `cancelled` (first, with its own message),
      then `completed` and `no_show`. */
  predicate CanCancel(s: Status) { s != Cancelled && s != Completed && s != NoShow }

  /** `confirmAppointment` accepts only `scheduled`. */
  predicate CanConfirm(s: Status) { s == Scheduled }

  /** `completeAppointment` accepts `scheduled` and `confirmed`. */
  predicate CanComplete(s: Status) { s == Scheduled || s == Confirmed }

  /** `deleteAppointment` refuses only `completed`. */
  predicate CanDelete(s: Status) { s != Completed }

  /** How the dedicated operations relate to the table: cancel and confirm
      accept exactly the statuses the table lets move to `cancelled` and
      `confirmed`; complete accepts more than the table, because it also moves
      `scheduled` straight to `completed`; delete accepts every status but
      `completed`, terminal `no_show` included. */
  lemma DedicatedPathsAgainstTable(s: Status)
    ensures CanCancel(s) <==> CanTransition(s, Cancelled)
    ensures CanConfirm(s) <==> CanTransition(s, Confirmed)
    ensures CanTransition(s, Completed) ==> CanComplete(s)
    ensures CanComplete(Scheduled) && !CanTransition(Scheduled, Completed)
    ensures CanDelete(s) <==> s != Completed
  {
  }
}
