# Ticket board reconciler — a Dafny model

This project models the client side of a kanban ticket tracker for an IT
support team. It covers how the page's held list of tickets changes when the
remote ticket store answers, and how the board groups that list into status
columns. The remote store is not modelled. Each of its answers is a
`Reply<T>` argument: `Ok(value)` or `Err`. The model has four modules:

- `Tickets` (`tickets.dfy`) holds the `Ticket` record, `Reply`, the
  notification ("toast") record, and the list transforms the pages use. These
  are `find` by id, `map` by id (a status write or a replacement) and
  `filter` (delete by id, and column membership). Lemmas state what each
  transform does to every entry, to the order and to the length, and how the
  transforms combine.
- `DashboardPage` (`dashboard.dfy`) models the dashboard page, whose moves are
  optimistic. Class `Dashboard` holds `tickets`, the new-ticket dialog flag and
  the toasts. A move is split at its `await`. `MoveBegin` writes the new status
  at once and returns a `PendingMove`: the status to roll back to, plus the
  request body. `MoveFinish(reply)` then confirms with the store's ticket or
  rolls back. `MoveTicket` runs both steps back to back.
- `HomePage` (`home_page.dfy`) models the home page, which waits for the store
  and then re-fetches. Class `Home` has no optimistic write. `MoveRequest`
  changes nothing and only builds the request. A confirmed update re-fetches
  the whole list through `FetchTickets`. A rejected update leaves the list
  alone.
- `KanbanBoard` (`kanban_board.dfy`) covers the board: the four column ids,
  each column's cards and count, and the compact-card rule. Class `Board`
  holds the drag and edit state (`draggingId` and `editingTicket`). A drop
  returns the `MoveIntent` that the board hands to the page's move handler.

The model follows the code as written. That includes parts of its behaviour
that a reader might expect to be different:

- A move sends its request even when the new status equals the current one.
- A delete always sends its request and drops entries with the id. An id
  that is not held gets no "not found" report.
- No completion step checks whether its target is stale.
- The home page's move has no rollback. It re-fetches instead of patching.
- The dashboard page reports failures of the initial load, of an edit and of
  a delete only to the console, so the model shows no toast for them.
- The dashboard page passes a delete handler to the board, but the board does
  not accept one. So on that page a delete cannot be reached from the board.
  `DeleteTicket` models the handler itself.
- The board accepts a drop of any drag. A drag that set no "ticketId" entry,
  such as dragged text, is dropped as a move of the id `""`. When no held
  ticket has that id, the page's lookup finds nothing and nothing is sent.
- The board has no handler for a drag that ends without a drop. After such a
  drag the card stays faded until the next drag start or drop.

Ticket ids are never checked for uniqueness on the client. Contracts that
hold for any list talk about *every* entry with a given id. The lemmas that
need distinct ids require `UniqueIds`.

## Model

| member | source | states |
|---|---|---|
| `Tickets.Find` | app/dashboard/page.tsx:50-54 | Returns nothing exactly when no entry has the id. Otherwise it returns the first entry with that id. |
| `Tickets.FindUnique` | app/page.tsx:66 | When ids are distinct, the lookup returns the one entry that has the id. |
| `Tickets.Filter` | app/dashboard/page.tsx:111 | The result is never longer than the input, and it holds only input elements that pass the test. |
| `Tickets.FilterMembership` | components/kanban-board.tsx:67 | An element is kept exactly when it occurs in the input and passes the test. |
| `Tickets.FilterConcat` | app/dashboard/page.tsx:111 | Filtering distributes over concatenation, so kept elements keep their relative order. |
| `Tickets.MapWhereAt` | app/dashboard/page.tsx:61-63 | Position `i` of a map by id holds `f(ts[i])` when that entry has the id, and `ts[i]` otherwise. |
| `Tickets.SetStatusSpec` | app/dashboard/page.tsx:60-64 | An optimistic status write gives every entry with the id the new status. It changes none of their other fields, no other entry, and neither the order nor the length. |
| `Tickets.ReplaceByIdSpec` | app/dashboard/page.tsx:75-79 | A confirmation makes every entry with the id exactly the store's ticket. Other entries and the length are unchanged. |
| `Tickets.MapWhereAbsent` | app/dashboard/page.tsx:60-64 | A map keyed by an id that no entry has returns the list unchanged. |
| `Tickets.SetStatusTwice` | app/dashboard/page.tsx:85-89 | When two status writes hit the same id, the later one decides, so a rollback overwrites the optimistic status. |
| `Tickets.ConfirmOverridesGuess` | app/dashboard/page.tsx:75-79 | A confirmed move ends as if the store's ticket had been put in directly, whatever status was written before the reply. |
| `Tickets.RollbackRestores` | app/dashboard/page.tsx:57-89 | When ids are distinct, writing back the captured original status after any status write gives back the exact list from before the move. |
| `Tickets.ReplacementsCommute` | app/dashboard/page.tsx:75-79 | Confirmations for two different ids commute when neither returned ticket has the other's id. |
| `Tickets.RemoveByIdSpec` | app/dashboard/page.tsx:108-115 | A delete drops exactly the entries with the id and keeps all the others. No entry with the id remains, and the length shrinks by the number dropped. An id that is not held changes nothing; a held one shortens the list. |
| `Tickets.RemoveByIdIdempotent` | app/dashboard/page.tsx:111 | Deleting the same id twice equals deleting it once. |
| `Tickets.UniqueIdsPreserved` | app/dashboard/page.tsx:36-111 | Distinct ids stay distinct under every transform: a status write, a delete, a replacement that keeps the id, and an append of a fresh id. |
| `DashboardPage.OptimisticMoveIsVisible` | app/dashboard/page.tsx:59-64 | Right after the optimistic write, before the store answers, the board shows every entry with the moved id in the new status's column (kanban-board.tsx:66-67) and in no other column. |
| `DashboardPage.Dashboard.constructor` | app/dashboard/page.tsx:14-15 | The page starts with no tickets, the dialog closed and no toasts. |
| `DashboardPage.Dashboard.LoadTickets` | app/dashboard/page.tsx:18-28 | On success the store's list replaces the held one. On failure nothing changes and no toast is shown. |
| `DashboardPage.Dashboard.SetDialogOpen` | app/dashboard/page.tsx:123-138 | Only the dialog flag changes. |
| `DashboardPage.Dashboard.AddTicket` | app/dashboard/page.tsx:30-46 | On success the store's ticket is appended at the end, a success toast is shown and the dialog closes. On failure the list and the dialog are unchanged and an error toast is shown. |
| `DashboardPage.Dashboard.MoveBegin` | app/dashboard/page.tsx:48-72 | An id that is not held changes nothing and sends nothing. Otherwise every entry with the id gets the new status. The original status of the first match is captured. The request body is that entry with only its status replaced. |
| `DashboardPage.Dashboard.MoveFinish` | app/dashboard/page.tsx:74-92 | On success every entry with the id becomes the store's ticket and no toast is shown. On failure those entries get the captured status back and an error toast is shown. |
| `DashboardPage.Dashboard.MoveTicket` | app/dashboard/page.tsx:48-93 | A whole move: it returns the request sent, if any. On success the list is the old one with the store's ticket in place. On failure the captured status is written back; when ids are distinct, the list ends exactly as it was. |
| `DashboardPage.Dashboard.EditTicket` | app/dashboard/page.tsx:95-106 | On success every entry with the edited ticket's id becomes the store's ticket. On failure nothing changes. |
| `DashboardPage.Dashboard.DeleteTicket` | app/dashboard/page.tsx:108-115 | On success every entry with the id is removed. On failure nothing changes. |
| `HomePage.Home.constructor` | app/page.tsx:15-17 | The page starts with no tickets, loading, the dialog closed and no toasts, so it draws the loading message and no board. |
| `HomePage.Home.FetchTickets` | app/page.tsx:30-45 | On success the store's list replaces the held one wholesale. On failure the list is kept and an error toast is shown. Either way loading ends, so the board is drawn again with the held list (`Shown`, the loading test at app/page.tsx:107-109). |
| `HomePage.Home.SetDialogOpen` | app/page.tsx:116-128 | Only the dialog flag changes. |
| `HomePage.Home.AddTicket` | app/page.tsx:47-63 | On success the store's ticket is appended with a success toast. On failure the list is kept with an error toast. The dialog flag is untouched. |
| `HomePage.Home.MoveRequest` | app/page.tsx:65-69 | The method changes no state. It sends nothing for an id that is not held; otherwise it sends the first entry with the id, with only its status replaced. |
| `HomePage.Home.MoveFinish` | app/page.tsx:69-78 | A confirmed update re-fetches: the store's list replaces the held one, or a failed fetch keeps it and shows a load error; either way the board is drawn again with the held list. A rejected update keeps the list and the loading flag, and shows a move error. |
| `HomePage.Home.MoveTicket` | app/page.tsx:65-80 | A whole move: nothing is sent or changed for an id that is not held. Otherwise the list becomes the re-fetched list, or stays as it was when the update or the re-fetch fails. A rejected update shows a move error and leaves the loading flag alone; a failed re-fetch shows a load error; a confirmed update ends with the board drawn with the held list. |
| `HomePage.Home.EditTicket` | app/page.tsx:84-100 | On success every entry with the edited ticket's id becomes the store's ticket, with a success toast. On failure the list is kept with an error toast. |
| `KanbanBoard.ColumnIdsDistinct` | components/kanban-board.tsx:19-24 | The column ids are `pendente`, `em_andamento`, `em_teste` and `concluido`, in that order, and no two are equal. |
| `KanbanBoard.ColumnShowsExactly` | components/kanban-board.tsx:66-67 | A column shows every held ticket whose status is its id, and no other ticket. |
| `KanbanBoard.ColumnKeepsOrder` | components/kanban-board.tsx:66-68 | A column's cards appear in list order: the cards of `a + b` are those of `a` followed by those of `b`. |
| `KanbanBoard.ColumnOfOne` | components/kanban-board.tsx:67 | A single ticket appears only in the column whose id is its status. |
| `KanbanBoard.ColumnCountIsOccurrences` | components/kanban-board.tsx:57 | A column's count equals the number of held tickets whose status is its id. |
| `KanbanBoard.AtMostOneColumn` | components/kanban-board.tsx:19-67 | No ticket is shown in two different columns. |
| `KanbanBoard.UnknownStatusHidden` | components/kanban-board.tsx:19-67 | A ticket whose status is not a column id is shown in no column. |
| `KanbanBoard.CompactExactlyInDoneColumn` | components/kanban-board.tsx:75 | A held ticket's card is compact exactly when it is shown in the `concluido` column. |
| `KanbanBoard.BoardCountsAddUp` | components/kanban-board.tsx:19-57 | The four counts plus the number of tickets with no matching column equal the list length, so the counts never add up to more than the length. |
| `KanbanBoard.Board.constructor` | components/kanban-board.tsx:16-17 | Nothing is being dragged or edited at first. |
| `KanbanBoard.Board.HandleDragStart` | components/kanban-board.tsx:26-30 | The dragged id becomes the card's id, and the card's id is what the drag carries as its "ticketId" entry. That card, and only cards with its id, are drawn faded. |
| `KanbanBoard.Board.HandleDrop` | components/kanban-board.tsx:36-42 | A drop asks to move the ticket named by the dropped drag's own "ticketId" entry ("" for a drag that set none) to the column's id. Afterwards nothing is being dragged. |
| `KanbanBoard.Board.HandleEditTicket` | components/kanban-board.tsx:45-47 | The ticket becomes the one being edited, and the edit dialog is open. |
| `KanbanBoard.Board.HandleEditDialogOpenChange` | components/kanban-board.tsx:83-90 | A request to close forgets the edited ticket. A request to open changes nothing. |
| `KanbanBoard.DragCardToColumn` | components/kanban-board.tsx:26-42 | Dragging a card and dropping that drag on column `k` asks to move that card's id to `ColumnIds[k]`. It leaves nothing being dragged and the edited ticket unchanged. |

## Left out

- The HTTP client (`lib/api.ts`) and URL building: each call's outcome is a `Reply` argument.
- Overlapping requests: each handler is a sequence of synchronous steps. A move's split into `MoveBegin` and `MoveFinish` exposes its one `await`, but no interleavings are modelled. Stale-closure effects are therefore out of scope, such as the home page computing its new list from the `tickets` value its handler captured.
- Request bodies of create and edit: they are the handler's argument, passed on unchanged, so the model does not carry them.
- Console logging; the wording, titles and styles of toasts (a toast is its action plus success or failure).
- The login gate and logout (`localStorage`, router redirects) of the home page: the model starts with the page logged in.
- Form dialogs and their validation (`components/new-ticket-dialog.tsx`, `components/edit-ticket-dialog.tsx`), the ticket-creation page `app/criar-chamado/page.tsx` (a timer and a toast), card rendering and date formatting (`components/ticket-card.tsx`), and the page shell (`app/layout.tsx`).
- Column titles and colours: rendering only.
- The contents of `lib/types`, which is not part of this model: status and priority are plain strings. The board only knows the four column ids.
- The browser's drag data store as an object: each drag's "ticketId" entry is a value, returned by `HandleDragStart` and passed to `HandleDrop`. The model does not tie a drop to the drag it ends; `DragCardToColumn` is the case where it is the card's own drag.
