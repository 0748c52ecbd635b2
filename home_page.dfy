/** The home page variant: nothing is written before the store answers; a
    confirmed move is followed by re-fetching the whole list, a rejected one
    leaves the list alone. */
module HomePage {
  import opened Tickets

  class Home {
    /** The held ticket list, drawn by the board. */
    var tickets: seq<Ticket>
    /** While true the page shows a loading message instead of the board. */
    var isLoading: bool
    /** Whether the new-ticket dialog is open. */
    var dialogOpen: bool
    /** The notifications shown so far, oldest first. */
    var toasts: seq<Toast>

    constructor ()
      ensures tickets == [] && isLoading && !dialogOpen && toasts == []
      ensures Shown() == None
    {
      tickets := [];
      isLoading := true;
      dialogOpen := false;
      toasts := [];
    }

    /** The board is drawn only when the page is not loading. */
    function Shown(): Option<seq<Ticket>>
      reads this
    {
      if isLoading then None else Some(tickets)
    }

    /** Fetching: on success the store's list replaces the held one
        wholesale (an empty list included); on failure the list is kept and
        an error is shown; either way the page stops loading. */
    method FetchTickets(reply: Reply<seq<Ticket>>)
      modifies this
      ensures tickets == (if reply.Ok? then reply.value else old(tickets))
      ensures toasts == old(toasts) + (if reply.Ok? then [] else [Failed(Load)])
      ensures !isLoading && Shown() == Some(tickets)
      ensures dialogOpen == old(dialogOpen)
    {
      isLoading := true;
      match reply {
        case Ok(fetched) =>
          tickets := fetched;
        case Err =>
          toasts := toasts + [Failed(Load)];
      }
      isLoading := false;
    }

    method SetDialogOpen(open: bool)
      modifies this
      ensures dialogOpen == open
      ensures tickets == old(tickets) && isLoading == old(isLoading) && toasts == old(toasts)
    {
      dialogOpen := open;
    }

    /** Creating: the store's ticket is appended and a success is shown; on
        failure the list is kept and an error is shown. The dialog is left
        as it is. */
    method AddTicket(reply: Reply<Ticket>)
      modifies this
      ensures tickets == (if reply.Ok? then old(tickets) + [reply.value] else old(tickets))
      ensures toasts == old(toasts) + [if reply.Ok? then Succeeded(Create) else Failed(Create)]
      ensures isLoading == old(isLoading) && dialogOpen == old(dialogOpen)
    {
      match reply {
        case Ok(created) =>
          tickets := tickets + [created];
          toasts := toasts + [Succeeded(Create)];
        case Err =>
          toasts := toasts + [Failed(Create)];
      }
    }

    /** The part of a move that runs before the store answers. It changes
        nothing (there is no `modifies` clause): an id that is not held sends
        nothing, otherwise the request is the first entry with the id with
        only its status replaced. */
    method MoveRequest(id: string, newStatus: string) returns (request: Option<Ticket>)
      ensures request.None? <==> !HasId(tickets, id)
      ensures request.Some? ==>
        && request.value.id == id && request.value.status == newStatus
        && exists i :: FirstWithId(tickets, id, i) && request.value == tickets[i].(status := newStatus)
    {
      var found := Find(tickets, id);
      if found.None? {
        return None;
      }
      request := Some(found.value.(status := newStatus));
    }

    /** The part of a move that runs when the store answers. The ticket the
        store returns is not used: a confirmed move re-fetches the list (see
        FetchTickets, whose own failure is shown as a load error); a rejected
        one keeps the list and shows a move error. */
    method MoveFinish(updateReply: Reply<Ticket>, fetchReply: Reply<seq<Ticket>>)
      modifies this
      ensures updateReply.Ok? ==>
        && tickets == (if fetchReply.Ok? then fetchReply.value else old(tickets))
        && toasts == old(toasts) + (if fetchReply.Ok? then [] else [Failed(Load)])
        && !isLoading && Shown() == Some(tickets)
      ensures updateReply.Err? ==>
        && tickets == old(tickets) && isLoading == old(isLoading)
        && toasts == old(toasts) + [Failed(Move)]
      ensures dialogOpen == old(dialogOpen)
    {
      match updateReply {
        case Ok(_) =>
          FetchTickets(fetchReply);
        case Err =>
          toasts := toasts + [Failed(Move)];
      }
    }

    /** A whole move with no other operation in between. `updateReply` is what
        the store answers to the update and `fetchReply` to the re-fetch that
        follows a confirmed update. */
    method MoveTicket(id: string, newStatus: string, updateReply: Reply<Ticket>, fetchReply: Reply<seq<Ticket>>)
      returns (request: Option<Ticket>)
      modifies this
      ensures request.None? <==> !HasId(old(tickets), id)
      ensures request.Some? ==> request.value == Find(old(tickets), id).value.(status := newStatus)
      ensures request.None? ==>
        tickets == old(tickets) && toasts == old(toasts) && isLoading == old(isLoading)
      ensures request.Some? && updateReply.Ok? && fetchReply.Ok? ==> tickets == fetchReply.value
      ensures request.Some? && updateReply.Ok? ==> !isLoading && Shown() == Some(tickets)
      ensures request.Some? && updateReply.Err? ==> isLoading == old(isLoading)
      ensures request.Some? && (updateReply.Err? || fetchReply.Err?) ==> tickets == old(tickets)
      ensures request.Some? ==>
        toasts == old(toasts) + (if updateReply.Err? then [Failed(Move)]
                                 else if fetchReply.Err? then [Failed(Load)] else [])
      ensures dialogOpen == old(dialogOpen)
    {
      request := MoveRequest(id, newStatus);
      if request.Some? {
        ghost var i :| FirstWithId(tickets, id, i) && request.value == tickets[i].(status := newStatus);
        ghost var k :| FirstWithId(tickets, id, k) && tickets[k] == Find(tickets, id).value;
        FirstWithIdUnique(tickets, id, i, k);
        MoveFinish(updateReply, fetchReply);
      }
    }

    /** Editing: on success every entry with the edited ticket's id becomes
        the store's ticket and a success is shown; on failure the list is
        kept and an error is shown. */
    method EditTicket(updated: Ticket, reply: Reply<Ticket>)
      modifies this
      ensures tickets == (if reply.Ok? then ReplaceById(old(tickets), updated.id, reply.value) else old(tickets))
      ensures toasts == old(toasts) + [if reply.Ok? then Succeeded(Edit) else Failed(Edit)]
      ensures isLoading == old(isLoading) && dialogOpen == old(dialogOpen)
    {
      match reply {
        case Ok(result) =>
          tickets := ReplaceById(tickets, updated.id, result);
          toasts := toasts + [Succeeded(Edit)];
        case Err =>
          toasts := toasts + [Failed(Edit)];
      }
    }
  }
}
