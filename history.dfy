/** The event history of src/lib.rs: a circular doubly-linked list stored in a
    vector of nodes. Node 0 is the sentinel that both begins and ends the
    list (`BEGIN == END == 0`); node 1 is a second sentinel that is created
    but never linked in; pushed events occupy nodes 2, 3, ... in push order. */
module History {
  import opened RustTypes

  /** `Event<M>`: an invocation, whose `ret_event` is back-patched with the
      position of its matching return, or a return carrying the value. */
  datatype Event<Op, Value> = Invoke(op: Op, retEvent: nat) | Ret(val: Value)

  /** `Node<M>`: `ev` is `None` exactly for the sentinels. */
  datatype Node<Op, Value> = Node(ev: Option<Event<Op, Value>>, next: nat, prev: nat)

  const BEGIN: nat := 0
  const END: nat := 0

  /** The successor of node `k` in a history with `n` nodes: 0 -> 2 -> 3 ->
      ... -> n-1 -> 0, or 0 -> 0 when no event was pushed. */
  function Succ(k: nat, n: nat): nat
  {
    if k == 0 then (if n > 2 then 2 else 0)
    else if k + 1 < n then k + 1 else 0
  }

  /** The predecessor of node `k` in a history with `n` nodes. */
  function Pred(k: nat, n: nat): nat
  {
    if k == 0 then (if n > 2 then n - 1 else 0)
    else if k > 2 then k - 1 else 0
  }

  /** Following a link and then the opposite link returns to the start, for
      every node of the list (every node but the unlinked sentinel 1). */
  lemma LinksAreInverse(k: nat, n: nat)
    requires 2 <= n && k < n && k != 1
    ensures Succ(k, n) < n && Succ(k, n) != 1 && Pred(Succ(k, n), n) == k
    ensures Pred(k, n) < n && Pred(k, n) != 1 && Succ(Pred(k, n), n) == k
  {
  }

  class Hist<Op, Value> {
    /** `events: Vec<Node<M>>`. */
    var events: seq<Node<Op, Value>>

    /** The list invariant: both sentinels have no event, node 1 is never
        linked, every other node is linked in push order, and every node
        after the sentinels carries an event. */
    ghost predicate Valid()
      reads this
    {
      && 2 <= |events| < ISIZE_MAX
      && events[0].ev == None
      && events[1] == Node(None, END, BEGIN)
      && (forall k :: 0 <= k < |events| && k != 1 ==>
            events[k].next == Succ(k, |events|) && events[k].prev == Pred(k, |events|))
      && (forall k :: 2 <= k < |events| ==> events[k].ev.Some?)
    }

    /** The pushed events, in push order. */
    ghost function Contents(): (s: seq<Event<Op, Value>>)
      reads this
      requires Valid()
      ensures |s| == |events| - 2
      ensures forall k :: 0 <= k < |s| ==> events[k + 2].ev == Some(s[k])
    {
      var nodes := events;
      seq(|nodes| - 2, k requires 0 <= k < |nodes| - 2 => nodes[k + 2].ev.value)
    }

    /** The doubly-linked invariant `push_back` keeps: on every linked node,
        following `next` and then `prev`, or `prev` and then `next`, comes
        back to that node. */
    lemma LinksRoundTrip()
      requires Valid()
      ensures forall i :: 0 <= i < |events| && i != 1 ==>
                && events[i].next < |events| && events[i].next != 1
                && events[events[i].next].prev == i
                && events[i].prev < |events| && events[i].prev != 1
                && events[events[i].prev].next == i
    {
      forall i | 0 <= i < |events| && i != 1
        ensures && events[i].next < |events| && events[i].next != 1
                && events[events[i].next].prev == i
                && events[i].prev < |events| && events[i].prev != 1
                && events[events[i].prev].next == i
      {
        LinksAreInverse(i, |events|);
      }
    }

    /** `Hist::with_capacity(cap)`: just the two sentinels, each linked to 0.
        `cap` only reserves room in the vector; `cap + 2` is computed in
        `usize` and must not overflow. */
    constructor WithCapacity(cap: nat)
      requires cap + 2 <= USIZE_MAX
      ensures Valid()
      ensures events == [Node(None, END, BEGIN), Node(None, END, BEGIN)]
      ensures Contents() == [] && Len() == 0
    {
      events := [Node(None, END, BEGIN), Node(None, END, BEGIN)];
    }

    /** `Hist::len`: the number of pushed events. */
    function Len(): (n: nat)
      reads this
      requires Valid()
      ensures n == |Contents()|
    {
      |events| - 2
    }

    /** `Hist::push_back(ev)`: appends a node after the current last one and
        relinks the end sentinel and the old last node to it in place.
        Returns the new node's position, the old length of `events`. */
    method PushBack(ev: Event<Op, Value>) returns (pos: nat)
      requires Valid()
      requires |events| + 1 < ISIZE_MAX
      modifies this
      ensures Valid()
      ensures pos == old(|events|) && |events| == pos + 1
      ensures Contents() == old(Contents()) + [ev]
      ensures Len() == old(Len()) + 1
      ensures events[pos] == Node(Some(ev), END, old(events[END].prev))
      ensures events[END].prev == pos
      ensures events[old(events[END].prev)].next == pos
    {
      pos := |events|;
      var oldLast := events[END].prev;
      events := events[END := events[END].(prev := pos)];
      events := events[oldLast := events[oldLast].(next := pos)];
      events := events + [Node(Some(ev), END, oldLast)];
      assert forall k :: 0 <= k < pos - 2 ==> Contents()[k] == old(Contents())[k];
    }

    /** `Hist::get_mut_from_eid(eid)`: the event stored at `eid`; both
        `unwrap`s panic unless `eid` is in range and not a sentinel. Under
        the invariant those are the positions of pushed events. */
    function GetMutFromEid(eid: nat): (e: Event<Op, Value>)
      reads this
      requires eid < |events| && events[eid].ev.Some?
      ensures Valid() ==> 2 <= eid && e == Contents()[eid - 2]
    {
      events[eid].ev.value
    }

    /** Writing `e` through the reference `get_mut_from_eid(eid)` returns;
        the links are untouched. */
    method WriteEid(eid: nat, e: Event<Op, Value>)
      requires Valid()
      requires eid < |events| && events[eid].ev.Some?
      modifies this
      ensures Valid()
      ensures events == old(events)[eid := old(events[eid]).(ev := Some(e))]
      ensures Contents() == old(Contents())[eid - 2 := e]
    {
      events := events[eid := events[eid].(ev := Some(e))];
    }

    /** `Hist::iter`: a cursor at the begin sentinel. */
    method Iter() returns (it: EventIter<Op, Value>)
      requires Valid()
      ensures fresh(it)
      ensures it.hist == this && it.eid == BEGIN && it.Valid()
    {
      it := new EventIter(this);
    }
  }

  /** `Iter<'a, M>`: a cursor over an immutably borrowed history. */
  class EventIter<Op, Value> {
    const hist: Hist<Op, Value>
    var eid: nat

    ghost predicate Valid()
      reads this, hist
    {
      hist.Valid() && eid < |hist.events| && eid != 1
    }

    constructor (h: Hist<Op, Value>)
      requires h.Valid()
      ensures hist == h && eid == BEGIN && Valid()
    {
      hist := h;
      eid := BEGIN;
    }

    /** `Iter::next`: moves the cursor along `next` and yields that node's
        event, or `None` on reaching the sentinel. */
    method Next() returns (r: Option<Event<Op, Value>>)
      requires Valid()
      modifies this
      ensures Valid()
      ensures eid == Succ(old(eid), |hist.events|)
      ensures r == if eid == 0 then None else Some(hist.Contents()[eid - 2])
    {
      var nextEid := hist.events[eid].next;
      var next := hist.events[nextEid];
      eid := nextEid;
      r := next.ev;
    }
  }

  /** `for ev in &hist`: the iterator yields every pushed event, in push
      order, and then stops at the sentinel. */
  method CollectEvents<Op, Value>(h: Hist<Op, Value>) returns (evs: seq<Event<Op, Value>>)
    requires h.Valid()
    ensures evs == h.Contents()
  {
    var it := h.Iter();
    evs := [];
    var r := it.Next();
    while r.Some?
      invariant it.Valid() && it.hist == h
      invariant |evs| <= |h.Contents()|
      invariant evs == h.Contents()[..|evs|]
      invariant r.Some? ==> |evs| < |h.Contents()| && it.eid == |evs| + 2 && r == Some(h.Contents()[|evs|])
      invariant r.None? ==> |evs| == |h.Contents()|
      decreases |h.Contents()| - |evs|
    {
      evs := evs + [r.value];
      r := it.Next();
    }
  }

  /** `Checker<M>`: the history and the `lin` bits, one per call. */
  class Checker<Op, Value> {
    const hist: Hist<Op, Value>
    var lin: seq<bool>

    /** `Checker::new(hist)`: `lin` holds `hist.len() / 2` bits, all clear. */
    constructor (h: Hist<Op, Value>)
      requires h.Valid()
      ensures hist == h
      ensures |lin| == h.Len() / 2
      ensures forall i :: 0 <= i < |lin| ==> !lin[i]
    {
      hist := h;
      lin := seq(h.Len() / 2, _ => false);
    }

    /** `Checker::check_linearizability`: reports every history linearizable. */
    method CheckLinearizability() returns (ok: bool)
      ensures ok
    {
      ok := true;
    }
  }
}
