/** The process-wide table from port number to the socket wrapper that owns
    it. Each wrapper claims the lowest free port from 4827 upward when it is
    constructed and gives it back when it is closed. */
module PortRegistry {

  const DefaultMasterPortNumber := 4827

  /** The identity of a socket wrapper object. */
  type EndpointId = nat

  /** The keys of `m` at or above `from`: finitely many, and fewer each time
      the scan steps past a taken port. */
  function TakenFrom(m: map<int, EndpointId>, from: int): set<int>
  {
    set p | p in m && p >= from
  }

  lemma TakenShrinks(m: map<int, EndpointId>, from: int)
    requires from in m
    ensures |TakenFrom(m, from + 1)| < |TakenFrom(m, from)|
  {
    assert TakenFrom(m, from) == TakenFrom(m, from + 1) + {from};
    assert from !in TakenFrom(m, from + 1);
  }

  /** The first port at or above `from` that is not a key of `m`. */
  function LowestFree(m: map<int, EndpointId>, from: int): (r: int)
    ensures r >= from && r !in m
    ensures forall p :: from <= p < r ==> p in m
    decreases |TakenFrom(m, from)|
  {
    if from in m then
      TakenShrinks(m, from);
      LowestFree(m, from + 1)
    else from
  }

  /** Any port satisfying the three facts LowestFree promises is the one it returns. */
  lemma LowestFreeUnique(m: map<int, EndpointId>, from: int, r: int)
    requires r >= from && r !in m
    requires forall p :: from <= p < r ==> p in m
    ensures LowestFree(m, from) == r
  {
  }

  /** Releasing a port `p` makes the next allocation return `p`, unless a
      lower port was already free. */
  lemma ReleaseThenAllocate(m: map<int, EndpointId>, p: int)
    requires p in m && p >= DefaultMasterPortNumber
    ensures var before := LowestFree(m, DefaultMasterPortNumber);
            LowestFree(m - {p}, DefaultMasterPortNumber) == if before < p then before else p
  {
    var before := LowestFree(m, DefaultMasterPortNumber);
    if before < p {
      LowestFreeUnique(m - {p}, DefaultMasterPortNumber, before);
    } else {
      LowestFreeUnique(m - {p}, DefaultMasterPortNumber, p);
    }
  }

  /** Allocating a port and releasing it again leaves the table as it was. */
  lemma AllocateThenRelease(m: map<int, EndpointId>, t: EndpointId)
    ensures var p := LowestFree(m, DefaultMasterPortNumber);
            m[p := t] - {p} == m
  {
    var p := LowestFree(m, DefaultMasterPortNumber);
    assert (m[p := t] - {p}).Keys == m.Keys;
  }

  /** The static `portSocketMap_` together with the operations that use it. */
  class PortTable {
    var ports: map<int, EndpointId>

    constructor ()
      ensures ports == map[]
    {
      ports := map[];
    }

    /** `nextPortNumber`: scan upward from 4827 for a port that is not a key
        and record it for `t`. */
    method NextPortNumber(t: EndpointId) returns (port: int)
      modifies this
      ensures port >= DefaultMasterPortNumber && port !in old(ports)
      ensures forall p :: DefaultMasterPortNumber <= p < port ==> p in old(ports)
      ensures ports == old(ports)[port := t]
    {
      port := DefaultMasterPortNumber;
      while port in ports
        invariant ports == old(ports)
        invariant port >= DefaultMasterPortNumber
        invariant forall p :: DefaultMasterPortNumber <= p < port ==> p in ports
        decreases |TakenFrom(ports, port)|
      {
        TakenShrinks(ports, port);
        port := port + 1;
      }
      ports := ports[port := t];
    }

    /** `portSocketMap_.remove(port)`: drop the key, whoever owns it;
        removing an absent key changes nothing. */
    method Remove(port: int)
      modifies this
      ensures ports == old(ports) - {port}
    {
      ports := ports - {port};
    }
  }

  /** A port a wrapper can hold: the search for a free one starts at the master port. */
  type Port = p: int | p >= DefaultMasterPortNumber witness DefaultMasterPortNumber

  /** A socket wrapper as far as the port table is concerned: its identity
      and the port it claimed at construction. */
  class SocketWrapper {
    const id: EndpointId
    var port: Port

    /** The constructor claims the lowest free port for this wrapper. */
    constructor (table: PortTable, id: EndpointId)
      modifies table
      ensures this.id == id
      ensures port == LowestFree(old(table.ports), DefaultMasterPortNumber)
      ensures table.ports == old(table.ports)[port := id]
    {
      this.id := id;
      var p := table.NextPortNumber(id);
      LowestFreeUnique(old(table.ports), DefaultMasterPortNumber, p);
      port := p;
    }

    /** `getPort`: the port this wrapper claimed, never below the master port. */
    function GetPort(): (p: int)
      reads this
      ensures p == port && p >= DefaultMasterPortNumber
    {
      port
    }

    /** `close`: give the wrapper's own port back; every other entry stays. */
    method Close(table: PortTable)
      modifies table
      ensures table.ports == old(table.ports) - {port}
      ensures forall p :: p != port && p in old(table.ports) ==>
                p in table.ports && table.ports[p] == old(table.ports)[p]
    {
      table.Remove(GetPort());
    }
  }

  /** Two wrappers constructed one after the other on an empty table take
      4827 and 4828; once the first is closed, a third one takes 4827 back. */
  method ReuseAfterClose(table: PortTable) returns (a: SocketWrapper, b: SocketWrapper, c: SocketWrapper)
    modifies table
    requires table.ports == map[]
    ensures a.port == DefaultMasterPortNumber && b.port == DefaultMasterPortNumber + 1
    ensures c.port == a.port
    ensures table.ports == map[b.port := b.id, c.port := c.id]
  {
    a := new SocketWrapper(table, 1);
    b := new SocketWrapper(table, 2);
    assert b.port == DefaultMasterPortNumber + 1 by {
      LowestFreeUnique(map[DefaultMasterPortNumber := 1], DefaultMasterPortNumber, DefaultMasterPortNumber + 1);
    }
    a.Close(table);
    c := new SocketWrapper(table, 3);
    assert c.port == DefaultMasterPortNumber by {
      LowestFreeUnique(map[DefaultMasterPortNumber + 1 := 2], DefaultMasterPortNumber, DefaultMasterPortNumber);
    }
  }
}
