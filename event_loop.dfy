/** The shared event loop's descriptor table (struct EventLoop,
    src/thread.h:36-42) and the sequential operations on it in
    src/thread.c: add_event, update_event, delete_event, and the claim and
    re-registration steps of worker_main.

    The event backend (aeApiAddEvent, aeApiUpdateEvent, aeApiDelEvent,
    aeApiPoll) is not part of this model: each call's success is an input,
    and a poll is the list of ready descriptors it reports. The claim runs
    under the leader lock in the source, so it is one step here. */
module Dispatch {

  /** Return codes of the ae layer (ae.h is not part of this model). */
  const AE_OK: int := 0
  const AE_ERR: int := -1

  /** A connection. drive_machine (not part of this model) leaves in
      evFlags the events the connection wants next; 0 means none. */
  class Conn {
    var evFlags: int

    constructor (flags: int)
      ensures evFlags == flags
    {
      evFlags := flags;
    }
  }

  /** What a claim step found: a ready descriptor and its connection, or
      no ready descriptor left (the worker then polls again). */
  datatype Claim = Claimed(fd: nat, conn: Conn) | Drained

  class EventLoop {
    /** conns[fd]: the connection registered for fd; AE_SETSIZE slots. */
    const conns: array<Conn?>
    /** fired[0..nready): descriptors the last poll reported and no worker
        has taken yet. */
    const fired: array<nat>
    var nready: nat

    ghost predicate Valid()
      reads this, fired
    {
      && fired.Length == conns.Length
      && nready <= fired.Length
      && forall i :: 0 <= i < nready ==> fired[i] < conns.Length
    }

    /** thread_init zeroes the loop (src/thread.c:91). */
    constructor (setSize: nat)
      ensures Valid() && fresh(conns) && fresh(fired)
      ensures conns.Length == setSize && nready == 0
      ensures forall fd :: 0 <= fd < setSize ==> conns[fd] == null
    {
      conns := new Conn?[setSize](_ => null);
      fired := new nat[setSize];
      nready := 0;
    }

    /** add_event (src/thread.c:97-112): a descriptor beyond the table is
        refused; otherwise the slot, which must be empty, takes c, and is
        emptied again when the backend refuses the descriptor. */
    method AddEvent(fd: nat, mask: int, c: Conn, backendOk: bool) returns (r: int)
      requires Valid()
      requires fd < conns.Length ==> conns[fd] == null
      modifies conns
      ensures r == AE_OK || r == AE_ERR
      ensures r == AE_OK <==> fd < conns.Length && backendOk
      ensures r == AE_OK ==> conns[..] == old(conns[..])[fd := c]
      ensures r == AE_ERR ==> conns[..] == old(conns[..])
    {
      if fd >= conns.Length {
        return AE_ERR;
      }
      conns[fd] := c;
      if !backendOk {
        conns[fd] := null;
        return AE_ERR;
      }
      return AE_OK;
    }

    /** update_event (src/thread.c:114-122): the slot takes c, and is
        emptied when the backend refuses. There is no range check, so the
        descriptor must be inside the table. */
    method UpdateEvent(fd: nat, mask: int, c: Conn, backendOk: bool) returns (r: int)
      requires Valid() && fd < conns.Length
      modifies conns
      ensures r == (if backendOk then AE_OK else AE_ERR)
      ensures conns[..] == old(conns[..])[fd := if backendOk then c else null]
    {
      conns[fd] := c;
      if !backendOk {
        conns[fd] := null;
        return AE_ERR;
      }
      return AE_OK;
    }

    /** delete_event (src/thread.c:124-132): -1 beyond the table; 0 for an
        empty slot, without asking the backend; -1 when the backend refuses,
        keeping the entry; otherwise the slot is emptied and 0 returned. */
    method DeleteEvent(fd: nat, backendOk: bool) returns (r: int)
      requires Valid()
      modifies conns
      ensures fd >= conns.Length ==> r == -1 && conns[..] == old(conns[..])
      ensures fd < conns.Length && old(conns[fd]) == null ==> r == 0 && conns[..] == old(conns[..])
      ensures fd < conns.Length && old(conns[fd]) != null ==>
        (r == if backendOk then 0 else -1)
        && conns[..] == (if backendOk then old(conns[..])[fd := null] else old(conns[..]))
    {
      if fd >= conns.Length {
        return -1;
      }
      if conns[fd] == null {
        return 0;
      }
      if !backendOk {
        return -1;
      }
      conns[fd] := null;
      return 0;
    }

    /** aeApiPoll, called while no ready descriptor is left
        (src/thread.c:142-143): the backend reports the ready descriptors in
        fired and their number in nready. */
    method Poll(ready: seq<nat>)
      requires Valid() && nready == 0
      requires |ready| <= fired.Length
      requires forall i :: 0 <= i < |ready| ==> ready[i] < conns.Length
      modifies this, fired
      ensures Valid()
      ensures nready == |ready| && fired[..nready] == ready
    {
      forall i | 0 <= i < |ready| {
        fired[i] := ready[i];
      }
      nready := |ready|;
    }

    /** The claim step of worker_main (src/thread.c:149-157): take the last
        ready descriptor; if no connection is registered for it, drop it and
        try the next; otherwise empty its slot, so that no other worker can
        take the connection, and hand the connection to the caller. */
    method Claim() returns (r: Claim)
      requires Valid()
      modifies this, conns
      ensures Valid()
      ensures r.Claimed? ==>
        && nready < old(nready)
        && r.fd == fired[nready] && r.fd < conns.Length
        && old(conns[..])[r.fd] == r.conn
        && conns[..] == old(conns[..])[r.fd := null]
      ensures r.Claimed? ==> forall j :: nready < j < old(nready) ==> old(conns[..])[fired[j]] == null
      ensures r.Drained? ==> nready == 0 && conns[..] == old(conns[..])
      ensures r.Drained? ==> forall j :: 0 <= j < old(nready) ==> old(conns[..])[fired[j]] == null
    {
      while nready > 0
        invariant Valid()
        invariant nready <= old(nready)
        invariant conns[..] == old(conns[..])
        invariant forall j :: nready <= j < old(nready) ==> conns[fired[j]] == null
        decreases nready
      {
        nready := nready - 1;
        var fd := fired[nready];
        var c := conns[fd];
        if c != null {
          conns[fd] := null;
          return Claimed(fd, c);
        }
        // the source closes fd here; descriptors are not part of this model
      }
      return Drained;
    }

    /** After drive_machine (src/thread.c:161-163): a connection that still
        wants events is registered again through update_event; one that
        wants none leaves its slot empty. */
    method Reregister(fd: nat, c: Conn, backendOk: bool)
      requires Valid() && fd < conns.Length
      modifies conns
      ensures c.evFlags > 0 ==> conns[..] == old(conns[..])[fd := if backendOk then c else null]
      ensures c.evFlags <= 0 ==> conns[..] == old(conns[..])
    {
      if c.evFlags > 0 {
        var _ := UpdateEvent(fd, c.evFlags, c, backendOk);
      }
    }
  }

  /** Two workers that claim in turn, with no re-registration between
      them, never get the same descriptor: the first claim emptied its slot.
      This is the at-most-one-owner rule the leader lock protects. */
  method ClaimsAreExclusive(loop: EventLoop) returns (first: Claim, second: Claim)
    requires loop.Valid()
    modifies loop, loop.conns
    ensures first.Claimed? && second.Claimed? ==> first.fd != second.fd
    ensures second.Claimed? ==> second.fd < loop.conns.Length && loop.conns[second.fd] == null
  {
    first := loop.Claim();
    second := loop.Claim();
  }
}
