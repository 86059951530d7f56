/**
 * A booked session as a card: the status actions the viewer is offered, and the status
 * update those actions request from the store.
 */
module SessionCard {
  import opened Wrappers
  import Store

  /** The five statuses the `sessions` table accepts. */
  datatype SessionStatus = Pending | Confirmed | Completed | Cancelled | Scheduled

  /** The string stored for each status. */
  function StatusName(s: SessionStatus): string
  {
    match s
    case Pending => "pending"
    case Confirmed => "confirmed"
    case Completed => "completed"
    case Cancelled => "cancelled"
    case Scheduled => "scheduled"
  }

  /** Reading a stored string back as a status: exactly the five names are statuses. */
  function ParseStatus(name: string): (r: Option<SessionStatus>)
    ensures r.Some? ==> StatusName(r.value) == name
    ensures r.None? ==> forall s: SessionStatus :: StatusName(s) != name
  {
    match name
    case "pending" => Some(Pending)
    case "confirmed" => Some(Confirmed)
    case "completed" => Some(Completed)
    case "cancelled" => Some(Cancelled)
    case "scheduled" => Some(Scheduled)
    case _ => None
  }

  /** Every status is stored under its own name, so the stored string determines the status. */
  lemma StatusNameRoundTrip(s: SessionStatus)
    ensures ParseStatus(StatusName(s)) == Some(s)
  {
  }

  /** Different statuses are stored under different names. */
  lemma StatusNameInjective(s: SessionStatus, t: SessionStatus)
    ensures StatusName(s) == StatusName(t) ==> s == t
  {
    StatusNameRoundTrip(s);
    StatusNameRoundTrip(t);
  }

  /** The card's three buttons. */
  datatype Action = Confirm | Decline | MarkCompleted

  /** The status each button asks the store to write. */
  function Requested(a: Action): SessionStatus
  {
    match a
    case Confirm => Confirmed
    case Decline => Cancelled
    case MarkCompleted => Completed
  }

  datatype Button = Button(action: Action, enabled: bool)

  /**
   * The buttons shown: Confirm and Decline to the teacher of a scheduled session, Mark as
   * Completed to either party of a confirmed one, none otherwise; all of them disabled
   * while an update is in flight.
   */
  function Buttons(status: SessionStatus, isTeacher: bool, isUpdating: bool): (bs: seq<Button>)
    ensures forall i :: 0 <= i < |bs| ==> bs[i].enabled == !isUpdating
    ensures forall i, j :: 0 <= i < j < |bs| ==> bs[i].action != bs[j].action
    ensures Offered(bs, Confirm) <==> status == Scheduled && isTeacher
    ensures Offered(bs, Decline) <==> status == Scheduled && isTeacher
    ensures Offered(bs, MarkCompleted) <==> status == Confirmed
    ensures status in {Pending, Completed, Cancelled} ==> bs == []
  {
    var choices := if status == Scheduled && isTeacher then [Confirm, Decline] else [];
    var completion := if status == Confirmed then [MarkCompleted] else [];
    var bs := seq(|choices + completion|, i requires 0 <= i < |choices + completion| =>
      Button((choices + completion)[i], !isUpdating));
    assert Offered(bs, Confirm) ==> status == Scheduled && isTeacher;
    assert status == Scheduled && isTeacher ==> bs[0].action == Confirm && bs[1].action == Decline;
    assert status == Confirmed ==> bs[|bs| - 1].action == MarkCompleted;
    bs
  }

  predicate Offered(bs: seq<Button>, a: Action)
  {
    exists i :: 0 <= i < |bs| && bs[i].action == a
  }

  /** A status can move forward at most this many more times through the card's buttons. */
  function Potential(s: SessionStatus): nat
  {
    match s
    case Scheduled => 2
    case Confirmed => 1
    case _ => 0
  }

  /** Every offered action strictly lowers the potential, so no status comes back. */
  lemma OfferedLowersPotential(status: SessionStatus, isTeacher: bool, a: Action)
    requires Offered(Buttons(status, isTeacher, false), a)
    ensures Potential(Requested(a)) < Potential(status)
  {
  }

  /**
   * A run of the card: each status in turn is reached from the one before by an action the
   * card offered (to the same viewer).
   */
  ghost predicate IsRun(statuses: seq<SessionStatus>, isTeacher: bool)
  {
    forall i :: 0 <= i < |statuses| - 1 ==>
      exists a :: Offered(Buttons(statuses[i], isTeacher, false), a) && Requested(a) == statuses[i + 1]
  }

  /**
   * Runs are short: a run takes at most as many steps as its first status's potential, so
   * at most two (scheduled, confirmed, completed).
   */
  lemma {:induction false} RunsAreShort(statuses: seq<SessionStatus>, isTeacher: bool)
    requires |statuses| > 0 && IsRun(statuses, isTeacher)
    ensures |statuses| - 1 <= Potential(statuses[0])
    ensures |statuses| <= 3
  {
    if |statuses| > 1 {
      var tail := statuses[1..];
      assert IsRun(tail, isTeacher) by {
        forall i | 0 <= i < |tail| - 1
          ensures exists a :: Offered(Buttons(tail[i], isTeacher, false), a) && Requested(a) == tail[i + 1]
        {
          assert tail[i] == statuses[i + 1] && tail[i + 1] == statuses[i + 2];
        }
      }
      RunsAreShort(tail, isTeacher);
      var a :| Offered(Buttons(statuses[0], isTeacher, false), a) && Requested(a) == statuses[1];
      OfferedLowersPotential(statuses[0], isTeacher, a);
    }
  }

  /** Completed is entered only from Confirmed, and Cancelled only from Scheduled. */
  lemma EntryPoints(status: SessionStatus, isTeacher: bool, a: Action)
    requires Offered(Buttons(status, isTeacher, false), a)
    ensures Requested(a) == Completed ==> status == Confirmed
    ensures Requested(a) == Cancelled ==> status == Scheduled && isTeacher
  {
  }

  /** A row of the `sessions` table, with the fields the card reads. */
  datatype SessionRow = SessionRow(
    id: string,
    status: SessionStatus,
    pointsAmount: int,
    teacherId: string,
    studentId: string,
    timeSlotId: string,
    offerId: string)

  /**
   * The table after `update({ status }).eq('id', id)`: rows with that id get the new status
   * and keep every other field; all other rows are untouched.
   */
  function WithStatus(rows: seq<SessionRow>, id: string, status: SessionStatus): (r: seq<SessionRow>)
    ensures |r| == |rows|
    ensures forall i :: 0 <= i < |r| ==> r[i].(status := rows[i].status) == rows[i]
    ensures forall i :: 0 <= i < |r| ==>
      r[i].status == (if rows[i].id == id then status else rows[i].status)
  {
    seq(|rows|, i requires 0 <= i < |rows| =>
      if rows[i].id == id then rows[i].(status := status) else rows[i])
  }

  /** Writing the status a row already has changes nothing; a second identical write neither. */
  lemma WithStatusIdempotent(rows: seq<SessionRow>, id: string, status: SessionStatus)
    ensures WithStatus(WithStatus(rows, id, status), id, status) == WithStatus(rows, id, status)
  {
  }

  class SessionCardView {
    /** The session shown, as passed in by the parent. */
    const session: SessionRow
    const isTeacher: bool
    var isUpdating: bool
    /** How many times the card has called the parent's `onStatusUpdate`. */
    var statusUpdateCalls: nat

    constructor (session: SessionRow, isTeacher: bool)
      ensures this.session == session && this.isTeacher == isTeacher
      ensures !isUpdating && statusUpdateCalls == 0
    {
      this.session := session;
      this.isTeacher := isTeacher;
      isUpdating := false;
      statusUpdateCalls := 0;
    }

    function ShownButtons(): seq<Button>
      reads this
    {
      Buttons(session.status, isTeacher, isUpdating)
    }

    /** The first half of `updateSessionStatus`: the flag goes up and every button is disabled. */
    method StartUpdate()
      modifies this
      ensures isUpdating && statusUpdateCalls == old(statusUpdateCalls)
      ensures forall i :: 0 <= i < |ShownButtons()| ==> !ShownButtons()[i].enabled
    {
      isUpdating := true;
    }

    /**
     * The second half, once the store answers: on success the session's row gets the new
     * status and the parent is told; on error nothing is written and the parent is not
     * told; either way the flag comes down.
     */
    method FinishUpdate(db: Store.Table<SessionRow>, newStatus: SessionStatus, outcome: WriteOutcome)
      modifies this, db
      ensures !isUpdating
      ensures outcome == WriteOk ==>
        db.rows == WithStatus(old(db.rows), session.id, newStatus)
        && statusUpdateCalls == old(statusUpdateCalls) + 1
      ensures outcome == WriteError ==>
        db.rows == old(db.rows) && statusUpdateCalls == old(statusUpdateCalls)
    {
      if outcome == WriteOk {
        db.rows := WithStatus(db.rows, session.id, newStatus);
        statusUpdateCalls := statusUpdateCalls + 1;
      }
      isUpdating := false;
    }

    /** `updateSessionStatus(newStatus)` from start to finish. */
    method UpdateSessionStatus(db: Store.Table<SessionRow>, newStatus: SessionStatus, outcome: WriteOutcome)
      modifies this, db
      ensures !isUpdating
      ensures outcome == WriteOk ==>
        db.rows == WithStatus(old(db.rows), session.id, newStatus)
        && statusUpdateCalls == old(statusUpdateCalls) + 1
      ensures outcome == WriteError ==>
        db.rows == old(db.rows) && statusUpdateCalls == old(statusUpdateCalls)
    {
      StartUpdate();
      FinishUpdate(db, newStatus, outcome);
    }

    /**
     * A click on button `a`: an offered, enabled button runs the update with the status it
     * requests; a button that is absent or disabled does nothing.
     */
    method Click(db: Store.Table<SessionRow>, a: Action, outcome: WriteOutcome)
      modifies this, db
      ensures var bs := old(ShownButtons());
        if exists i :: 0 <= i < |bs| && bs[i].action == a && bs[i].enabled then
          !isUpdating
          && (outcome == WriteOk ==>
                db.rows == WithStatus(old(db.rows), session.id, Requested(a))
                && statusUpdateCalls == old(statusUpdateCalls) + 1)
          && (outcome == WriteError ==>
                db.rows == old(db.rows) && statusUpdateCalls == old(statusUpdateCalls))
        else
          db.rows == old(db.rows) && isUpdating == old(isUpdating)
          && statusUpdateCalls == old(statusUpdateCalls)
    {
      var bs := ShownButtons();
      if exists i :: 0 <= i < |bs| && bs[i].action == a && bs[i].enabled {
        UpdateSessionStatus(db, Requested(a), outcome);
      }
    }
  }
}
