/** The kanban board: four status columns, each showing the held tickets
    whose status is the column's id, and the drag-and-drop state that turns
    a drop on a column into a move request. */
module KanbanBoard {
  import opened Tickets

  /** The column ids, left to right. */
  const ColumnIds: seq<string> := ["pendente", "em_andamento", "em_teste", "concluido"]

  /** The status whose cards are drawn compact. */
  const DoneStatus: string := "concluido"

  /** No two of the given column ids are equal. */
  predicate Distinct(columns: seq<string>) {
    forall i, j :: 0 <= i < j < |columns| ==> columns[i] != columns[j]
  }

  /** There are four columns in this order, and no two share an id. */
  lemma ColumnIdsDistinct()
    ensures |ColumnIds| == 4
    ensures ColumnIds[0] == "pendente" && ColumnIds[1] == "em_andamento"
    ensures ColumnIds[2] == "em_teste" && ColumnIds[3] == "concluido"
    ensures Distinct(ColumnIds)
  {
  }

  /** The test a column applies: the ticket's status is the column's id. */
  function InColumn(column: string): Ticket -> bool {
    (t: Ticket) => t.status == column
  }

  /** The cards a column shows, in list order. */
  function ColumnTickets(ts: seq<Ticket>, column: string): seq<Ticket> {
    Filter(ts, InColumn(column))
  }

  /** The number in a column's header. */
  function ColumnCount(ts: seq<Ticket>, column: string): nat {
    |ColumnTickets(ts, column)|
  }

  /** A card is drawn compact when its ticket's status is the done status. */
  predicate IsCompact(t: Ticket) {
    t.status == DoneStatus
  }

  /** A column shows exactly the tickets with its status: all of them, and
      only them. */
  lemma ColumnShowsExactly(ts: seq<Ticket>, column: string)
    ensures forall t :: t in ColumnTickets(ts, column) <==> t in ts && t.status == column
  {
    forall t {
      FilterMembership(ts, InColumn(column), t);
    }
  }

  /** Columns keep list order: the cards of a list made of two parts are the
      first part's cards followed by the second part's. */
  lemma ColumnKeepsOrder(a: seq<Ticket>, b: seq<Ticket>, column: string)
    ensures ColumnTickets(a + b, column) == ColumnTickets(a, column) + ColumnTickets(b, column)
  {
    FilterConcat(a, b, InColumn(column));
  }

  /** A list of one ticket shows that ticket in its own column only. */
  lemma ColumnOfOne(t: Ticket, column: string)
    ensures ColumnTickets([t], column) == (if t.status == column then [t] else [])
  {
  }

  /** The statuses of the held tickets, in list order. */
  function Statuses(ts: seq<Ticket>): (r: seq<string>)
    ensures |r| == |ts|
    ensures forall i :: 0 <= i < |ts| ==> r[i] == ts[i].status
  {
    if ts == [] then [] else [ts[0].status] + Statuses(ts[1..])
  }

  /** A column's count is how often its id occurs among the statuses. */
  lemma {:induction false} ColumnCountIsOccurrences(ts: seq<Ticket>, column: string)
    ensures ColumnCount(ts, column) == multiset(Statuses(ts))[column]
  {
    if ts != [] {
      ColumnCountIsOccurrences(ts[1..], column);
      assert Statuses(ts) == [ts[0].status] + Statuses(ts[1..]);
    }
  }

  /** A ticket is shown in at most one column. */
  lemma AtMostOneColumn(ts: seq<Ticket>, t: Ticket, i: int, j: int)
    requires 0 <= i < |ColumnIds| && 0 <= j < |ColumnIds|
    requires t in ColumnTickets(ts, ColumnIds[i]) && t in ColumnTickets(ts, ColumnIds[j])
    ensures i == j
  {
  }

  /** A ticket whose status is no column id is shown in no column. */
  lemma UnknownStatusHidden(ts: seq<Ticket>, t: Ticket)
    requires t.status !in ColumnIds
    ensures forall i :: 0 <= i < |ColumnIds| ==> t !in ColumnTickets(ts, ColumnIds[i])
  {
  }

  /** A card is compact exactly when it is shown in the last column. */
  lemma CompactExactlyInDoneColumn(ts: seq<Ticket>, t: Ticket)
    requires t in ts
    ensures IsCompact(t) <==> t in ColumnTickets(ts, ColumnIds[3])
  {
    ColumnShowsExactly(ts, ColumnIds[3]);
  }

  /** The header counts of the given columns, added up. */
  function CountSum(ts: seq<Ticket>, columns: seq<string>): nat {
    if columns == [] then 0 else ColumnCount(ts, columns[0]) + CountSum(ts, columns[1..])
  }

  /** Over distinct column ids, one ticket adds one to the counts when its
      status is one of them and nothing otherwise. */
  lemma {:induction false} CountSumCons(t: Ticket, rest: seq<Ticket>, columns: seq<string>)
    requires Distinct(columns)
    ensures CountSum([t] + rest, columns) == (if t.status in columns then 1 else 0) + CountSum(rest, columns)
  {
    if columns != [] {
      CountSumCons(t, rest, columns[1..]);
      ColumnKeepsOrder([t], rest, columns[0]);
      ColumnOfOne(t, columns[0]);
      forall k | 0 <= k < |columns[1..]| ensures columns[1..][k] != columns[0] {
        assert columns[1..][k] == columns[k + 1];
      }
      assert t.status in columns <==> t.status == columns[0] || t.status in columns[1..] by {
        assert columns == [columns[0]] + columns[1..];
      }
    }
  }

  /** The tickets no column shows. */
  function Unplaced(columns: seq<string>): Ticket -> bool {
    (t: Ticket) => t.status !in columns
  }

  /** Over distinct column ids, the counts add up to the list length minus
      the tickets whose status is none of them. */
  lemma {:induction false} CountSumExact(ts: seq<Ticket>, columns: seq<string>)
    requires Distinct(columns)
    ensures CountSum(ts, columns) + |Filter(ts, Unplaced(columns))| == |ts|
  {
    if ts == [] {
      CountSumEmpty(columns);
    } else {
      CountSumExact(ts[1..], columns);
      assert ts == [ts[0]] + ts[1..];
      CountSumCons(ts[0], ts[1..], columns);
    }
  }

  lemma {:induction false} CountSumEmpty(columns: seq<string>)
    ensures CountSum([], columns) == 0
  {
    if columns != [] {
      CountSumEmpty(columns[1..]);
    }
  }

  /** The four header counts add up to the number of held tickets minus those
      whose status is none of the column ids, so never to more than the
      number of held tickets. */
  lemma BoardCountsAddUp(ts: seq<Ticket>)
    ensures CountSum(ts, ColumnIds) + |Filter(ts, Unplaced(ColumnIds))| == |ts|
    ensures CountSum(ts, ColumnIds) <= |ts|
  {
    ColumnIdsDistinct();
    CountSumExact(ts, ColumnIds);
  }

  /** What a drop asks of the page: move this ticket to this status. */
  datatype MoveIntent = MoveIntent(ticketId: string, newStatus: string)

  /** The board's own state: the card being dragged, which is drawn faded,
      and the ticket whose edit dialog is open. The drag's data (its
      "ticketId" entry) belongs to the drag, not to the board: drag start
      returns what it writes there, and a drop is given what its own drag
      carries. */
  class Board {
    var draggingId: Option<string>
    var editingTicket: Option<Ticket>

    constructor ()
      ensures draggingId == None && editingTicket == None
    {
      draggingId := None;
      editingTicket := None;
    }

    /** The card being dragged is drawn faded. */
    predicate IsFaded(t: Ticket)
      reads this
    {
      draggingId == Some(t.id)
    }

    /** The board holds an edit dialog open exactly while a ticket is being
        edited. */
    predicate EditDialogOpen()
      reads this
    {
      editingTicket.Some?
    }

    /** Starting a drag records the card's id as the dragged one and writes
        it as the drag's "ticketId" entry, which is returned. */
    method HandleDragStart(ticketId: string) returns (transferred: string)
      modifies this
      ensures transferred == ticketId
      ensures draggingId == Some(ticketId)
      ensures forall t :: IsFaded(t) <==> t.id == ticketId
      ensures editingTicket == old(editingTicket)
    {
      draggingId := Some(ticketId);
      transferred := ticketId;
    }

    /** A drop on the column with id `status` asks to move the ticket named
        by the dropped drag's "ticketId" entry there, then clears the dragged
        id. `transferred` is that entry: "" for a drag that set none, such as
        dragged text or a file, since any drag may be dropped. */
    method HandleDrop(status: string, transferred: string) returns (intent: MoveIntent)
      modifies this
      ensures intent == MoveIntent(transferred, status)
      ensures draggingId == None && forall t :: !IsFaded(t)
      ensures editingTicket == old(editingTicket)
    {
      intent := MoveIntent(transferred, status);
      draggingId := None;
    }

    /** The edit button on a card opens the edit dialog for that ticket. */
    method HandleEditTicket(t: Ticket)
      modifies this
      ensures editingTicket == Some(t) && EditDialogOpen()
      ensures draggingId == old(draggingId)
    {
      editingTicket := Some(t);
    }

    /** The dialog asking to close forgets the ticket; asking to open changes
        nothing. */
    method HandleEditDialogOpenChange(open: bool)
      modifies this
      ensures editingTicket == (if open then old(editingTicket) else None)
      ensures !open ==> !EditDialogOpen()
      ensures draggingId == old(draggingId)
    {
      if !open {
        editingTicket := None;
      }
    }
  }

  /** A drag of a card followed by a drop of that same drag on a column asks
      to move that card to that column, and leaves nothing being dragged. */
  method DragCardToColumn(board: Board, ticketId: string, column: nat) returns (intent: MoveIntent)
    requires column < |ColumnIds|
    modifies board
    ensures intent == MoveIntent(ticketId, ColumnIds[column])
    ensures board.draggingId == None && board.editingTicket == old(board.editingTicket)
  {
    var transferred := board.HandleDragStart(ticketId);
    intent := board.HandleDrop(ColumnIds[column], transferred);
  }
}
