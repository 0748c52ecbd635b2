/** The dashboard page with optimistic moves: a move is written into the
    held list before the store answers, then confirmed with the store's
    ticket or rolled back to the status the ticket had. */
module DashboardPage {
  import opened Tickets
  import KanbanBoard

  /** What an in-flight move keeps across its `await`: the target id, the
      requested status, the status to roll back to, and the request body. */
  datatype PendingMove = PendingMove(id: string, newStatus: string, originalStatus: string, request: Ticket)

  /** Right after the optimistic write, and before the store answers, the
      board draws every entry with the moved id in the new status's column
      and in no other column. */
  lemma OptimisticMoveIsVisible(ts: seq<Ticket>, id: string, newStatus: string, column: string)
    ensures var moved := SetStatus(ts, id, newStatus);
      forall i :: 0 <= i < |ts| && ts[i].id == id ==>
        (moved[i] in KanbanBoard.ColumnTickets(moved, column) <==> column == newStatus)
  {
    SetStatusSpec(ts, id, newStatus);
    KanbanBoard.ColumnShowsExactly(SetStatus(ts, id, newStatus), column);
  }

  class Dashboard {
    /** The held ticket list, drawn by the board. */
    var tickets: seq<Ticket>
    /** Whether the new-ticket dialog is open. */
    var dialogOpen: bool
    /** The notifications shown so far, oldest first. */
    var toasts: seq<Toast>

    constructor ()
      ensures tickets == [] && !dialogOpen && toasts == []
    {
      tickets := [];
      dialogOpen := false;
      toasts := [];
    }

    /** The initial load: on success the store's list replaces the held one;
        a failure is only logged. */
    method LoadTickets(reply: Reply<seq<Ticket>>)
      modifies this
      ensures tickets == (if reply.Ok? then reply.value else old(tickets))
      ensures dialogOpen == old(dialogOpen) && toasts == old(toasts)
    {
      if reply.Ok? {
        tickets := reply.value;
      }
    }

    /** The "new ticket" button and the dialog's own open/close requests. */
    method SetDialogOpen(open: bool)
      modifies this
      ensures dialogOpen == open
      ensures tickets == old(tickets) && toasts == old(toasts)
    {
      dialogOpen := open;
    }

    /** Creating a ticket: the store's ticket (with the id and creation time
        it assigned) is appended and the dialog closes; on failure nothing is
        inserted. */
    method AddTicket(reply: Reply<Ticket>)
      modifies this
      ensures reply.Ok? ==> tickets == old(tickets) + [reply.value] && !dialogOpen
      ensures reply.Ok? ==> toasts == old(toasts) + [Succeeded(Create)]
      ensures reply.Err? ==> tickets == old(tickets) && dialogOpen == old(dialogOpen)
      ensures reply.Err? ==> toasts == old(toasts) + [Failed(Create)]
    {
      match reply {
        case Ok(created) =>
          tickets := tickets + [created];
          toasts := toasts + [Succeeded(Create)];
          dialogOpen := false;
        case Err =>
          toasts := toasts + [Failed(Create)];
      }
    }

    /** The part of a move that runs before the store answers. An id that is
        not held changes nothing and sends nothing. Otherwise the first entry
        with the id is looked up, its status kept for a rollback, every entry
        with the id gets the new status at once, and the request body is the
        looked-up entry with only its status replaced. */
    method MoveBegin(id: string, newStatus: string) returns (pending: Option<PendingMove>)
      modifies this
      ensures pending.None? <==> !HasId(old(tickets), id)
      ensures pending.None? ==> tickets == old(tickets)
      ensures pending.Some? ==>
        var t := Find(old(tickets), id).value;
        && pending.value == PendingMove(id, newStatus, t.status, t.(status := newStatus))
        && tickets == SetStatus(old(tickets), id, newStatus)
      ensures dialogOpen == old(dialogOpen) && toasts == old(toasts)
    {
      var found := Find(tickets, id);
      if found.None? {
        return None;
      }
      var oldTicket := found.value;
      var originalStatus := oldTicket.status;
      tickets := SetStatus(tickets, id, newStatus);
      pending := Some(PendingMove(id, newStatus, originalStatus, oldTicket.(status := newStatus)));
    }

    /** The part of a move that runs when the store answers: on success every
        entry with the id becomes the store's ticket; on failure every entry
        with the id gets the captured status back and an error is shown. */
    method MoveFinish(pending: PendingMove, reply: Reply<Ticket>)
      modifies this
      ensures reply.Ok? ==> tickets == ReplaceById(old(tickets), pending.id, reply.value)
      ensures reply.Ok? ==> toasts == old(toasts)
      ensures reply.Err? ==> tickets == SetStatus(old(tickets), pending.id, pending.originalStatus)
      ensures reply.Err? ==> toasts == old(toasts) + [Failed(Move)]
      ensures dialogOpen == old(dialogOpen)
    {
      match reply {
        case Ok(updated) =>
          tickets := ReplaceById(tickets, pending.id, updated);
        case Err =>
          tickets := SetStatus(tickets, pending.id, pending.originalStatus);
          toasts := toasts + [Failed(Move)];
      }
    }

    /** A whole move with no other operation in between; `reply` is what the
        store answers if a request is sent. The optimistic status leaves no
        trace: a confirmed move ends as if the store's ticket had been put in
        directly, and with distinct ids a rejected move ends with the list
        exactly as it was. */
    method MoveTicket(id: string, newStatus: string, reply: Reply<Ticket>) returns (request: Option<Ticket>)
      modifies this
      ensures request.None? <==> !HasId(old(tickets), id)
      ensures request.Some? ==> request.value == Find(old(tickets), id).value.(status := newStatus)
      ensures request.None? ==> tickets == old(tickets) && toasts == old(toasts)
      ensures request.Some? && reply.Ok? ==>
        tickets == ReplaceById(old(tickets), id, reply.value) && toasts == old(toasts)
      ensures request.Some? && reply.Err? ==>
        && tickets == SetStatus(old(tickets), id, Find(old(tickets), id).value.status)
        && toasts == old(toasts) + [Failed(Move)]
      ensures request.Some? && reply.Err? && UniqueIds(old(tickets)) ==> tickets == old(tickets)
      ensures dialogOpen == old(dialogOpen)
    {
      ghost var before := tickets;
      var pending := MoveBegin(id, newStatus);
      if pending.None? {
        return None;
      }
      request := Some(pending.value.request);
      MoveFinish(pending.value, reply);
      if reply.Ok? {
        ConfirmOverridesGuess(before, id, newStatus, reply.value);
      } else {
        SetStatusTwice(before, id, newStatus, pending.value.originalStatus);
        if UniqueIds(before) {
          RollbackRestores(before, id, newStatus);
        }
      }
    }

    /** Editing: the edited ticket is sent as it is; on success every entry
        with its id becomes the store's ticket; a failure is only logged. */
    method EditTicket(updated: Ticket, reply: Reply<Ticket>)
      modifies this
      ensures tickets == (if reply.Ok? then ReplaceById(old(tickets), updated.id, reply.value) else old(tickets))
      ensures dialogOpen == old(dialogOpen) && toasts == old(toasts)
    {
      if reply.Ok? {
        tickets := ReplaceById(tickets, updated.id, reply.value);
      }
    }

    /** Deleting: the request is sent whether or not the id is held; on
        success every entry with the id is dropped and the rest keep their
        order; a failure is only logged. */
    method DeleteTicket(id: string, reply: Reply<()>)
      modifies this
      ensures tickets == (if reply.Ok? then RemoveById(old(tickets), id) else old(tickets))
      ensures dialogOpen == old(dialogOpen) && toasts == old(toasts)
    {
      if reply.Ok? {
        tickets := RemoveById(tickets, id);
      }
    }
  }
}
