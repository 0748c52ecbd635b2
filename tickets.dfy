/** Tickets as the pages hold them, the answers of the remote ticket store,
    and the list transforms (`find`, `map`, `filter`) that the page handlers
    apply to the held `tickets` list. */
module Tickets {

  datatype Option<T> = None | Some(value: T)

  /** What the remote ticket store answered to one request: the returned
      value, or a failure (network error or non-success response). */
  datatype Reply<T> = Ok(value: T) | Err

  /** One support ticket. `priority` and `status` are the strings the user
      interface uses ("baixa", "pendente", "em_andamento", ...); the store
      assigns `id` and `createdAt`. */
  datatype Ticket = Ticket(
    id: string,
    title: string,
    description: string,
    priority: string,
    status: string,
    assignee: string,
    createdAt: string)

  /** The handler that produced a notification. */
  datatype Action = Load | Create | Move | Edit

  /** A notification shown to the user (a "toast"). */
  datatype Toast = Succeeded(action: Action) | Failed(action: Action)

  predicate HasId(ts: seq<Ticket>, id: string) {
    exists i :: 0 <= i < |ts| && ts[i].id == id
  }

  /** The store is expected to hand out distinct ids; nothing on the client
      enforces it, so the lemmas that need it say so. */
  predicate UniqueIds(ts: seq<Ticket>) {
    forall i, j :: 0 <= i < j < |ts| ==> ts[i].id != ts[j].id
  }

  /** `i` is the position of the first entry of `ts` with this id. */
  predicate FirstWithId(ts: seq<Ticket>, id: string, i: int) {
    && 0 <= i < |ts|
    && ts[i].id == id
    && forall j :: 0 <= j < i ==> ts[j].id != id
  }

  /** There is only one first entry with a given id. */
  lemma FirstWithIdUnique(ts: seq<Ticket>, id: string, i: int, k: int)
    requires FirstWithId(ts, id, i) && FirstWithId(ts, id, k)
    ensures i == k
  {
  }

  /** The lookup by id: the first entry with that id, if there is one. */
  function Find(ts: seq<Ticket>, id: string): (r: Option<Ticket>)
    ensures r.None? <==> !HasId(ts, id)
    ensures r.Some? ==> exists i :: FirstWithId(ts, id, i) && ts[i] == r.value
  {
    if ts == [] then None
    else if ts[0].id == id then
      assert FirstWithId(ts, id, 0);
      Some(ts[0])
    else
      var r := Find(ts[1..], id);
      assert HasId(ts[1..], id) ==> HasId(ts, id);
      assert HasId(ts, id) ==> HasId(ts[1..], id) by {
        if HasId(ts, id) {
          var i :| 0 <= i < |ts| && ts[i].id == id;
          assert ts[1..][i - 1].id == id;
        }
      }
      assert r.Some? ==> exists i :: FirstWithId(ts, id, i) && ts[i] == r.value by {
        if r.Some? {
          var k :| FirstWithId(ts[1..], id, k) && ts[1..][k] == r.value;
          assert FirstWithId(ts, id, k + 1);
        }
      }
      r
  }

  /** With distinct ids, `find` returns the one entry carrying the id. */
  lemma FindUnique(ts: seq<Ticket>, id: string, i: int)
    requires UniqueIds(ts)
    requires 0 <= i < |ts| && ts[i].id == id
    ensures Find(ts, id) == Some(ts[i])
  {
  }

  // ----- filter -----

  /** The elements satisfying `p`, in their original order. */
  function Filter<T>(s: seq<T>, p: T -> bool): (r: seq<T>)
    ensures |r| <= |s|
    ensures forall x :: x in r ==> x in s && p(x)
  {
    if s == [] then [] else (if p(s[0]) then [s[0]] else []) + Filter(s[1..], p)
  }

  /** An element is kept exactly when it occurs and satisfies `p`. */
  lemma {:induction false} FilterMembership<T>(s: seq<T>, p: T -> bool, x: T)
    ensures x in Filter(s, p) <==> x in s && p(x)
  {
    if s != [] {
      FilterMembership(s[1..], p, x);
      assert s == [s[0]] + s[1..];
    }
  }

  /** Filtering distributes over concatenation; with the one-element cases
      this pins the result down as "the kept elements, in list order". */
  lemma {:induction false} FilterConcat<T>(a: seq<T>, b: seq<T>, p: T -> bool)
    ensures Filter(a + b, p) == Filter(a, p) + Filter(b, p)
  {
    if a == [] {
      assert a + b == b;
    } else {
      assert (a + b)[1..] == a[1..] + b;
      FilterConcat(a[1..], b, p);
    }
  }

  /** Nothing is dropped when every element satisfies `p`. */
  lemma {:induction false} FilterKeepsAll<T>(s: seq<T>, p: T -> bool)
    requires forall i :: 0 <= i < |s| ==> p(s[i])
    ensures Filter(s, p) == s
  {
    if s != [] {
      FilterKeepsAll(s[1..], p);
    }
  }

  /** Each element is kept by `p` or by its negation `q`, never both. */
  lemma {:induction false} FilterComplement<T>(s: seq<T>, p: T -> bool, q: T -> bool)
    requires forall x :: q(x) == !p(x)
    ensures |Filter(s, p)| + |Filter(s, q)| == |s|
  {
    if s != [] {
      FilterComplement(s[1..], p, q);
    }
  }

  // ----- map by id -----

  /** The map by id: each entry with that id is replaced by `f` of it, every
      other entry is kept, and the order is kept. */
  function MapWhere(ts: seq<Ticket>, id: string, f: Ticket -> Ticket): (r: seq<Ticket>)
    ensures |r| == |ts|
  {
    if ts == [] then []
    else [if ts[0].id == id then f(ts[0]) else ts[0]] + MapWhere(ts[1..], id, f)
  }

  lemma {:induction false} MapWhereAt(ts: seq<Ticket>, id: string, f: Ticket -> Ticket, i: int)
    requires 0 <= i < |ts|
    ensures MapWhere(ts, id, f)[i] == if ts[i].id == id then f(ts[i]) else ts[i]
  {
    if i > 0 {
      MapWhereAt(ts[1..], id, f, i - 1);
    }
  }

  /** The entries with `id` get status `s`, all their other fields kept. */
  function SetStatus(ts: seq<Ticket>, id: string, s: string): seq<Ticket> {
    MapWhere(ts, id, (t: Ticket) => t.(status := s))
  }

  /** The entries with `id` become `u`. */
  function ReplaceById(ts: seq<Ticket>, id: string, u: Ticket): seq<Ticket> {
    MapWhere(ts, id, (_: Ticket) => u)
  }

  /** The entries whose id is not `id`, in their original order. */
  function RemoveById(ts: seq<Ticket>, id: string): seq<Ticket> {
    Filter(ts, (t: Ticket) => t.id != id)
  }

  /** Setting a status changes the status field of the entries with that id
      and nothing else: not their other fields, not the other entries, not
      the order or the length. */
  lemma SetStatusSpec(ts: seq<Ticket>, id: string, s: string)
    ensures |SetStatus(ts, id, s)| == |ts|
    ensures forall i :: 0 <= i < |ts| && ts[i].id == id ==>
      SetStatus(ts, id, s)[i] == ts[i].(status := s) && SetStatus(ts, id, s)[i].status == s
    ensures forall i :: 0 <= i < |ts| && ts[i].id != id ==> SetStatus(ts, id, s)[i] == ts[i]
  {
    forall i | 0 <= i < |ts| {
      MapWhereAt(ts, id, (t: Ticket) => t.(status := s), i);
    }
  }

  /** Every entry with that id becomes exactly `u`; the rest stay put. */
  lemma ReplaceByIdSpec(ts: seq<Ticket>, id: string, u: Ticket)
    ensures |ReplaceById(ts, id, u)| == |ts|
    ensures forall i :: 0 <= i < |ts| && ts[i].id == id ==> ReplaceById(ts, id, u)[i] == u
    ensures forall i :: 0 <= i < |ts| && ts[i].id != id ==> ReplaceById(ts, id, u)[i] == ts[i]
  {
    forall i | 0 <= i < |ts| {
      MapWhereAt(ts, id, (_: Ticket) => u, i);
    }
  }

  /** A map keyed by an id that no entry carries is the identity. */
  lemma MapWhereAbsent(ts: seq<Ticket>, id: string, f: Ticket -> Ticket)
    requires !HasId(ts, id)
    ensures MapWhere(ts, id, f) == ts
  {
  }

  /** Of two status writes to the same id, the later one wins. */
  lemma SetStatusTwice(ts: seq<Ticket>, id: string, s1: string, s2: string)
    ensures SetStatus(SetStatus(ts, id, s1), id, s2) == SetStatus(ts, id, s2)
  {
    SetStatusSpec(ts, id, s1);
    SetStatusSpec(SetStatus(ts, id, s1), id, s2);
    SetStatusSpec(ts, id, s2);
  }

  /** Confirming with the server's ticket erases the optimistic guess: it
      does not matter which status was written before the reply. */
  lemma ConfirmOverridesGuess(ts: seq<Ticket>, id: string, s: string, u: Ticket)
    ensures ReplaceById(SetStatus(ts, id, s), id, u) == ReplaceById(ts, id, u)
  {
    SetStatusSpec(ts, id, s);
    ReplaceByIdSpec(SetStatus(ts, id, s), id, u);
    ReplaceByIdSpec(ts, id, u);
  }

  /** With distinct ids, writing the first match's own status back after
      any status write gives the original list back. */
  lemma RollbackRestores(ts: seq<Ticket>, id: string, s: string)
    requires UniqueIds(ts)
    requires Find(ts, id).Some?
    ensures SetStatus(SetStatus(ts, id, s), id, Find(ts, id).value.status) == ts
  {
    var orig := Find(ts, id).value;
    SetStatusTwice(ts, id, s, orig.status);
    SetStatusSpec(ts, id, orig.status);
    forall i | 0 <= i < |ts| && ts[i].id == id ensures ts[i].(status := orig.status) == ts[i] {
      FindUnique(ts, id, i);
    }
  }

  /** Replacements for two different ids commute, as long as neither
      replacement carries the other's id. */
  lemma ReplacementsCommute(ts: seq<Ticket>, a: string, ua: Ticket, b: string, ub: Ticket)
    requires a != b && ua.id != b && ub.id != a
    ensures ReplaceById(ReplaceById(ts, a, ua), b, ub) == ReplaceById(ReplaceById(ts, b, ub), a, ua)
  {
    ReplaceByIdSpec(ts, a, ua);
    ReplaceByIdSpec(ts, b, ub);
    ReplaceByIdSpec(ReplaceById(ts, a, ua), b, ub);
    ReplaceByIdSpec(ReplaceById(ts, b, ub), a, ua);
  }

  /** Removing by id drops exactly the entries with that id, keeps every
      other entry, and shortens the list by the number of entries it drops.
      That the kept entries stay in list order is `FilterConcat`. */
  lemma RemoveByIdSpec(ts: seq<Ticket>, id: string)
    ensures forall t :: t in RemoveById(ts, id) <==> t in ts && t.id != id
    ensures !HasId(RemoveById(ts, id), id)
    ensures |RemoveById(ts, id)| + |Filter(ts, (t: Ticket) => t.id == id)| == |ts|
    ensures !HasId(ts, id) ==> RemoveById(ts, id) == ts
    ensures HasId(ts, id) ==> |RemoveById(ts, id)| < |ts|
  {
    forall t {
      FilterMembership(ts, (t: Ticket) => t.id != id, t);
    }
    var r := RemoveById(ts, id);
    if HasId(r, id) {
      var i :| 0 <= i < |r| && r[i].id == id;
      assert r[i] in r;
    }
    FilterComplement(ts, (t: Ticket) => t.id != id, (t: Ticket) => t.id == id);
    if !HasId(ts, id) {
      FilterKeepsAll(ts, (t: Ticket) => t.id != id);
    } else {
      var i :| 0 <= i < |ts| && ts[i].id == id;
      FilterMembership(ts, (t: Ticket) => t.id == id, ts[i]);
      assert ts[i] in Filter(ts, (t: Ticket) => t.id == id);
    }
  }

  /** Deleting the same id twice is the same as deleting it once. */
  lemma RemoveByIdIdempotent(ts: seq<Ticket>, id: string)
    ensures RemoveById(RemoveById(ts, id), id) == RemoveById(ts, id)
  {
    RemoveByIdSpec(ts, id);
    RemoveByIdSpec(RemoveById(ts, id), id);
  }

  /** The reconciling transforms keep ids distinct: a status write and a
      deletion always, a replacement when the server's ticket keeps the id,
      an append when the new id is fresh. */
  lemma UniqueIdsPreserved(ts: seq<Ticket>, id: string, s: string, u: Ticket)
    requires UniqueIds(ts)
    ensures UniqueIds(SetStatus(ts, id, s))
    ensures u.id == id ==> UniqueIds(ReplaceById(ts, id, u))
    ensures UniqueIds(RemoveById(ts, id))
    ensures !HasId(ts, u.id) ==> UniqueIds(ts + [u])
  {
    SetStatusSpec(ts, id, s);
    ReplaceByIdSpec(ts, id, u);
    FilterUniqueIds(ts, (t: Ticket) => t.id != id);
  }

  lemma {:induction false} FilterUniqueIds(ts: seq<Ticket>, p: Ticket -> bool)
    requires UniqueIds(ts)
    ensures UniqueIds(Filter(ts, p))
  {
    if ts != [] {
      FilterUniqueIds(ts[1..], p);
      var rest := Filter(ts[1..], p);
      if p(ts[0]) {
        forall i | 0 <= i < |rest| ensures rest[i].id != ts[0].id {
          assert rest[i] in rest;
          var k :| 0 <= k < |ts[1..]| && ts[1..][k] == rest[i];
          assert ts[k + 1] == rest[i];
        }
        assert Filter(ts, p) == [ts[0]] + rest;
      }
    }
  }
}
