/** The list of connected clients. */
module ClientList {
  datatype Counters = Counters(incoming: nat, outgoing: nat, incomingHistory: nat, outgoingHistory: nat,
                               incomingDelta: nat, outgoingDelta: nat, loginTime: int, lastUpdated: int)

  datatype Client = Client(ip: string, mac: string, token: string, name: string, passwd: string,
                           state: int, oldState: int, access: int, oldAccess: int, fd: int, counters: Counters)

  /** client_get_new: cleared memory. */
  function Cleared(): (client: Client) {
    Client("", "", "", "", "", 0, 0, 0, 0, 0, Counters(0, 0, 0, 0, 0, 0, 0, 0))
  }

  class TClient {
    var id: nat
    var c: Client
    var next: TClient?

    constructor (c: Client)
      ensures this.c == c && next == null && id == 0
    {
      this.c, next, id := c, null, 0;
    }
  }

  ghost function At(nodes: seq<TClient>, i: nat): (r: TClient?) {
    if i < |nodes| then nodes[i] else null
  }

  ghost predicate Linked(head: TClient?, nodes: seq<TClient>)
    reads nodes`next
  {
    && head == At(nodes, 0)
    && (forall i :: 0 <= i < |nodes| ==> nodes[i].next == At(nodes, i + 1))
    && (forall i, j :: 0 <= i < j < |nodes| ==> nodes[i] != nodes[j])
  }

  ghost function ClientsOf(nodes: seq<TClient>): (cs: seq<Client>)
    reads nodes`c
    ensures |cs| == |nodes| && forall i :: 0 <= i < |cs| ==> cs[i] == nodes[i].c
  {
    if nodes == [] then [] else [nodes[0].c] + ClientsOf(nodes[1..])
  }

  ghost function IdsOf(nodes: seq<TClient>): (ids: seq<nat>)
    reads nodes`id
    ensures |ids| == |nodes| && forall i :: 0 <= i < |ids| ==> ids[i] == nodes[i].id
  {
    if nodes == [] then [] else [nodes[0].id] + IdsOf(nodes[1..])
  }

  /** Ids fall from the head on and stay below the next one. */
  predicate Falling(ids: seq<nat>, bound: nat) {
    (forall i :: 0 <= i < |ids| ==> ids[i] < bound) && (forall i, j :: 0 <= i < j < |ids| ==> ids[i] > ids[j])
  }

  function Without<T>(s: seq<T>, k: nat): (r: seq<T>)
    requires k < |s|
    ensures |r| == |s| - 1 && forall i :: 0 <= i < |r| ==> r[i] == s[if i < k then i else i + 1]
  {
    s[..k] + s[k + 1..]
  }

  // ----- Searching the specification -----

  function FirstIp(cs: seq<Client>, ip: string): (i: nat)
    ensures i <= |cs| && (i < |cs| ==> cs[i].ip == ip) && forall j :: 0 <= j < i ==> cs[j].ip != ip
  {
    if cs == [] || cs[0].ip == ip then 0 else 1 + FirstIp(cs[1..], ip)
  }

  function FirstIpMac(cs: seq<Client>, ip: string, mac: string): (i: nat)
    ensures i <= |cs| && (i < |cs| ==> cs[i].ip == ip && cs[i].mac == mac)
    ensures forall j :: 0 <= j < i ==> cs[j].ip != ip || cs[j].mac != mac
  {
    if cs == [] || (cs[0].ip == ip && cs[0].mac == mac) then 0 else 1 + FirstIpMac(cs[1..], ip, mac)
  }

  function FirstId(ids: seq<nat>, id: nat): (i: nat)
    ensures i <= |ids| && (i < |ids| ==> ids[i] == id) && forall j :: 0 <= j < i ==> ids[j] != id
  {
    if ids == [] || ids[0] == id then 0 else 1 + FirstId(ids[1..], id)
  }

  /** set_state_access on the first client with the address. */
  function StateSet(c: Client, state: int, access: int): (client: Client) {
    c.(oldState := c.state, state := state, oldAccess := c.access, access := access)
  }

  const ULLONG_MAX := 0xffff_ffff_ffff_ffff

  // ----- Runs -----

  datatype Snapshot = Snapshot(nodes: seq<TClient>, ids: seq<nat>, next: nat)

  predicate Distinct<T(==)>(s: seq<T>) {
    forall i, j :: 0 <= i < j < |s| ==> s[i] != s[j]
  }

  ghost predicate Good(s: Snapshot) {
    |s.nodes| == |s.ids| && Distinct(s.nodes) && Falling(s.ids, s.next)
  }

  ghost predicate Inserts(a: Snapshot, b: Snapshot) {
    && b.nodes != [] && b.nodes[0] !in a.nodes && b.nodes == [b.nodes[0]] + a.nodes
    && b.ids == [a.next] + a.ids && b.next == a.next + 1
  }

  ghost predicate Removes(a: Snapshot, b: Snapshot, k: nat) {
    && k < |a.nodes| == |a.ids|
    && b.nodes == Without(a.nodes, k) && b.ids == Without(a.ids, k) && b.next == a.next
  }

  ghost predicate Step(a: Snapshot, b: Snapshot) {
    a == b || Inserts(a, b) || exists k :: Removes(a, b, k)
  }

  ghost predicate Run(states: seq<Snapshot>) {
    states != [] && Good(states[0]) && forall i :: 0 <= i < |states| - 1 ==> Step(states[i], states[i + 1])
  }

  lemma {:induction false} InsertFalls(a: Snapshot, b: Snapshot)
    requires Good(a) && Inserts(a, b)
    ensures Good(b)
  {
    assert forall i :: 0 < i < |b.ids| ==> b.ids[i] == a.ids[i - 1] && b.nodes[i] == a.nodes[i - 1];
  }

  lemma RemoveFalls(a: Snapshot, b: Snapshot, k: nat)
    requires Good(a) && Removes(a, b, k)
    ensures Good(b)
  {
    assert forall i :: 0 <= i < |b.nodes| ==>
      b.nodes[i] == a.nodes[if i < k then i else i + 1] && b.ids[i] == a.ids[if i < k then i else i + 1];
  }

  /** In this state the id belongs to the node, if it is listed at all. */
  ghost predicate Owned(s: Snapshot, id: nat, n: TClient, listed: bool) {
    && Good(s) && id < s.next
    && (listed <==> id in s.ids)
    && forall j :: 0 <= j < |s.ids| && s.ids[j] == id ==> s.nodes[j] == n
  }

  lemma StepOwned(a: Snapshot, b: Snapshot, id: nat, n: TClient, listed: bool)
    requires Owned(a, id, n, listed) && Step(a, b)
    ensures Owned(b, id, n, listed && n in b.nodes)
  {
    if a == b {
      assert forall j :: 0 <= j < |a.ids| && a.ids[j] == id ==> a.nodes[j] in a.nodes;
    } else if Inserts(a, b) {
      InsertOwned(a, b, id, n, listed);
    } else {
      var k :| Removes(a, b, k);
      RemoveOwned(a, b, k, id, n, listed);
    }
  }

  lemma InsertOwned(a: Snapshot, b: Snapshot, id: nat, n: TClient, listed: bool)
    requires Owned(a, id, n, listed) && Inserts(a, b)
    ensures Owned(b, id, n, listed && n in b.nodes)
  {
    InsertFalls(a, b);
    assert forall i :: 0 < i < |b.ids| ==> b.ids[i] == a.ids[i - 1] && b.nodes[i] == a.nodes[i - 1];
    if listed {
      var j :| 0 <= j < |a.ids| && a.ids[j] == id;
      assert b.ids[j + 1] == id && b.nodes[j + 1] == n;
    } else {
      assert id !in b.ids;
    }
  }

  lemma RemoveOwned(a: Snapshot, b: Snapshot, k: nat, id: nat, n: TClient, listed: bool)
    requires Owned(a, id, n, listed) && Removes(a, b, k)
    ensures Owned(b, id, n, listed && n in b.nodes)
  {
    RemoveFalls(a, b, k);
    if listed {
      var j :| 0 <= j < |a.ids| && a.ids[j] == id;
      if j == k {
        assert n !in b.nodes;
        assert id !in b.ids;
      } else {
        var i := if j < k then j else j - 1;
        assert b.ids[i] == id && b.nodes[i] == n;
      }
    } else {
      assert id !in b.ids;
    }
  }

  /** The node is in the list in each of these states. */
  ghost predicate Stays(states: seq<Snapshot>, n: TClient) {
    forall i :: 0 <= i < |states| ==> n in states[i].nodes
  }

  lemma OwnedFirst(s: Snapshot, i: nat)
    requires Good(s) && i < |s.nodes|
    ensures Owned(s, s.ids[i], s.nodes[i], s.nodes[i] in s.nodes)
  {
  }

  lemma {:induction false} RunOwned(states: seq<Snapshot>, i: nat)
    requires Run(states) && i < |states[0].nodes|
    ensures var id, n := states[0].ids[i], states[0].nodes[i];
            Owned(states[|states| - 1], id, n, Stays(states, n))
    decreases |states|
  {
    hide Owned, Step;
    var id, n := states[0].ids[i], states[0].nodes[i];
    if |states| == 1 {
      OwnedFirst(states[0], i);
    } else {
      var k := |states| - 1;
      var before := states[..k];
      assert Run(before);
      RunOwned(before, i);
      StepOwned(states[k - 1], states[k], id, n, Stays(before, n));
      assert Stays(states, n) <==> Stays(before, n) && n in states[k].nodes;
    }
  }

  /** Over every run of inserts and removes, looking up the id that a client
      had gives that client as long as it has stayed in the list, and nothing
      once it has left: ids are not used twice. */
  lemma RunFinds(states: seq<Snapshot>, i: nat)
    requires Run(states) && i < |states[0].nodes|
    ensures var last := states[|states| - 1];
            var k := FirstId(last.ids, states[0].ids[i]);
            && |last.ids| == |last.nodes|
            && (k < |last.ids| <==> Stays(states, states[0].nodes[i]))
            && (k < |last.ids| ==> last.nodes[k] == states[0].nodes[i])
  {
    hide Run, Stays, Step;
    RunOwned(states, i);
  }

  // ----- The list -----

  class List {
    var firstclient: TClient?
    var clientId: nat
    ghost var nodes: seq<TClient>

    ghost predicate Valid()
      reads this, nodes
    {
      Linked(firstclient, nodes) && Falling(IdsOf(nodes), clientId) && 0 < clientId <= ULLONG_MAX
    }

    ghost function Clients(): (cs: seq<Client>)
      reads this`nodes, nodes`c
      ensures |cs| == |nodes|
    {
      ClientsOf(nodes)
    }

    ghost function Snap(): (snap: Snapshot)
      reads this, nodes`id
    {
      Snapshot(nodes, IdsOf(nodes), clientId)
    }

    constructor ()
      ensures Valid() && nodes == [] && clientId == 1
    {
      firstclient, clientId, nodes := null, 1, [];
    }

    /** client_list_insert_client, while the counter does not wrap around. */
    method Insert(client: TClient)
      requires Valid() && client !in nodes && clientId < ULLONG_MAX
      modifies this, client`id, client`next
      ensures Valid() && nodes == [client] + old(nodes) && client.id == old(clientId) && clientId == old(clientId) + 1
      ensures Inserts(old(Snap()), Snap())
      ensures Clients() == [client.c] + old(Clients())
    {
      hide Linked, IdsOf, ClientsOf, Falling;
      client.id := clientId;
      clientId := clientId + 1;
      var prevHead := firstclient;
      client.next := prevHead;
      firstclient := client;
      HeadLinked(client, nodes);
      HeadViews(client, nodes);
      HeadFalls(IdsOf(nodes), client.id);
      nodes := [client] + nodes;
    }

    /** client_list_add */
    method Add(ip: string, mac: string, token: string, name: string, passwd: string, now: int)
      returns (curclient: TClient)
      requires Valid() && clientId < ULLONG_MAX
      modifies this
      ensures Valid() && fresh(curclient) && nodes == [curclient] + old(nodes) && Inserts(old(Snap()), Snap())
      ensures Clients() == [Fresh(ip, mac, token, name, passwd, now)] + old(Clients())
    {
      hide Linked, IdsOf, ClientsOf, Falling;
      curclient := new TClient(Fresh(ip, mac, token, name, passwd, now));
      Insert(curclient);
    }

    /** client_list_find_by_client: matching by id. */
    method FindByClient(client: TClient) returns (c: TClient?)
      requires Valid()
      ensures c == At(nodes, FirstId(IdsOf(nodes), client.id))
    {
      hide IdsOf, FirstId;
      c := firstclient;
      ghost var i: nat, ids := 0, IdsOf(nodes);
      while c != null
        invariant i <= FirstId(ids, client.id) && c == At(nodes, i)
        decreases |nodes| - i
      {
        if c.id == client.id {
          return;
        }
        c, i := c.next, i + 1;
      }
    }

    /** client_list_find */
    method Find(ip: string, mac: string) returns (p: TClient?)
      requires Valid()
      ensures p == At(nodes, FirstIpMac(Clients(), ip, mac))
    {
      hide IdsOf, ClientsOf, FirstIpMac, Falling;
      p := firstclient;
      ghost var i: nat, cs := 0, Clients();
      while p != null
        invariant i <= FirstIpMac(cs, ip, mac) && p == At(nodes, i)
        decreases |nodes| - i
      {
        if p.c.ip == ip && p.c.mac == mac {
          return;
        }
        p, i := p.next, i + 1;
      }
    }

    /** client_list_find_by_ip */
    method FindByIp(ip: string) returns (p: TClient?)
      requires Valid()
      ensures p == At(nodes, FirstIp(Clients(), ip))
    {
      hide IdsOf, ClientsOf, FirstIp, Falling;
      p := firstclient;
      ghost var i: nat, cs := 0, Clients();
      while p != null
        invariant i <= FirstIp(cs, ip) && p == At(nodes, i)
        decreases |nodes| - i
      {
        if p.c.ip == ip {
          return;
        }
        p, i := p.next, i + 1;
      }
    }

    /** set_state_access */
    method SetStateAccess(ip: string, state: int, access: int) returns (ret: int)
      requires Valid()
      modifies nodes`c
      ensures Valid() && ret == if FirstIp(old(Clients()), ip) < |nodes| then 0 else -1
      ensures Clients() == StateAccessSet(old(Clients()), ip, state, access) && Snap() == old(Snap())
    {
      hide IdsOf, ClientsOf, FirstIp, Linked, Falling;
      ghost var before := Clients();
      var client := FindByIp(ip);
      if client == null {
        return -1;
      }
      ghost var i := FirstIp(before, ip);
      client.c := client.c.(oldState := client.c.state, state := state);
      client.c := client.c.(oldAccess := client.c.access, access := access);
      OneChanged(firstclient, nodes, i, before, StateSet(before[i], state, access));
      return 0;
    }

    /** get_2access */
    method Get2Access(ip: string) returns (ret: int, access: int, oldAccess: int)
      requires Valid()
      ensures var i := FirstIp(Clients(), ip);
              if i < |nodes|
              then ret == 0 && access == Clients()[i].access && oldAccess == Clients()[i].oldAccess
              else ret == -1
    {
      hide IdsOf, ClientsOf, FirstIp, Linked, Falling;
      access, oldAccess := 0, 0;
      var client := FindByIp(ip);
      if client == null {
        return -1, access, oldAccess;
      }
      return 0, client.c.access, client.c.oldAccess;
    }

    /** get_username */
    method GetUsername(ip: string) returns (found: bool, name: string)
      requires Valid()
      ensures var i := FirstIp(Clients(), ip);
              found == (i < |nodes|) && (found ==> name == Clients()[i].name)
    {
      hide IdsOf, ClientsOf, FirstIp, Linked, Falling;
      var client := FindByIp(ip);
      if client == null {
        return false, "";
      }
      return true, client.c.name;
    }

    /** client_list_remove: unlinks the client if it is listed. */
    method Remove(client: TClient) returns (ghost k: nat)
      requires Valid()
      modifies this`firstclient, this`nodes, nodes`next
      ensures Valid()
      ensures client !in old(nodes) ==> nodes == old(nodes)
      ensures client in old(nodes) ==>
                && k < |old(nodes)| && old(nodes)[k] == client && Removes(old(Snap()), Snap(), k)
                && Clients() == Without(old(Clients()), k)
    {
      hide List.Valid, IdsOf, ClientsOf, Falling, Linked, Without, Distinct;
      k := 0;
      ValidParts();
      if firstclient == null {
        return;
      }
      ghost var before := nodes;
      k := UnlinkClient(client);
      if k < |before| {
        WithoutViews(before, k);
        FallsWithout(IdsOf(before), clientId, k);
        nodes := Without(before, k);
      }
      ValidAgain();
    }

    lemma ValidParts()
      requires Valid()
      ensures Linked(firstclient, nodes) && Falling(IdsOf(nodes), clientId) && 0 < clientId <= ULLONG_MAX
      ensures firstclient == null <==> nodes == []
    {
    }

    lemma ValidAgain()
      requires Linked(firstclient, nodes) && Falling(IdsOf(nodes), clientId) && 0 < clientId <= ULLONG_MAX
      ensures Valid()
    {
    }

    method UnlinkClient(client: TClient) returns (ghost k: nat)
      requires Valid() && nodes != []
      modifies this`firstclient, nodes`next
      ensures k <= |nodes| && (k < |nodes| <==> client in nodes) && (k < |nodes| ==> nodes[k] == client)
      ensures Linked(firstclient, if k < |nodes| then Without(nodes, k) else nodes)
    {
      hide IdsOf, ClientsOf, Falling, Linked, Without, Distinct;
      LinkedFacts(firstclient, nodes);
      var p := firstclient;
      if p == client {
        k := 0;
        firstclient := p.next;
        UnlinkedFirst(client, nodes);
      } else {
        p, k := NodeBefore(client);
        if p.next == null {
          NotIn(nodes, client);
          return;
        }
        Unlink(p, client, firstclient, k, nodes);
      }
    }

    /** Loops forward until the next node is the client, or the end. */
    method NodeBefore(client: TClient) returns (p: TClient, ghost k: nat)
      requires Valid() && firstclient != null && firstclient != client
      ensures 0 < k <= |nodes| && p == nodes[k - 1]
      ensures p.next == At(nodes, k) && (p.next == null || p.next == client)
      ensures forall j :: 0 <= j < k ==> nodes[j] != client
    {
      hide IdsOf, Falling;
      p, k := firstclient, 1;
      while p.next != null && p.next != client
        invariant 0 < k <= |nodes| && p == nodes[k - 1]
        invariant forall j :: 0 <= j < k ==> nodes[j] != client
        decreases |nodes| - k
      {
        p, k := p.next, k + 1;
      }
    }

    /** client_list_delete: the first client with the address goes. */
    method Delete(ip: string) returns (ret: int)
      requires Valid()
      modifies this`firstclient, this`nodes, nodes`next
      ensures Valid()
      ensures var i := FirstIp(old(Clients()), ip);
              if i < |old(Clients())|
              then ret == 0 && Clients() == Without(old(Clients()), i) && Removes(old(Snap()), Snap(), i)
              else ret == -1 && nodes == old(nodes) && Clients() == old(Clients())
    {
      hide IdsOf, ClientsOf, FirstIp, Falling, Linked, Without;
      LinkedFacts(firstclient, nodes);
      var client := FindByIp(ip);
      if client == null {
        return -1;
      }
      ghost var k := Remove(client);
      return 0;
    }

    /** client_list_dup: fresh copies in the same order, all fields but fd. */
    method Dup() returns (dest: TClient?, copied: nat, ghost copies: seq<TClient>)
      requires Valid()
      ensures copied == |copies| == |nodes| && Linked(dest, copies)
      ensures forall i :: 0 <= i < |copies| ==> fresh(copies[i])
      ensures forall i :: 0 <= i < |copies| ==> copies[i].id == nodes[i].id && copies[i].c == nodes[i].c.(fd := 0)
    {
      hide List.Valid, IdsOf, ClientsOf, Falling, Linked, Distinct, CopiesOf, In;
      ValidParts();
      LinkedFacts(firstclient, nodes);
      var cur := firstclient;
      var prev: TClient? := null;
      dest, copied, copies := null, 0, [];
      NoneLinked();
      NoCopies(nodes);
      InNone({});
      ghost var made: set<TClient> := {};
      while cur != null
        invariant copied == |copies| <= |nodes| && cur == At(nodes, copied)
        invariant Linked(dest, copies) && prev == if copies == [] then null else copies[copied - 1]
        invariant fresh(made) && In(copies, made)
        invariant CopiesOf(copies, nodes)
        invariant Linked(firstclient, nodes)
        decreases |nodes| - copied
      {
        NextOf(firstclient, nodes, copied);
        var n := ClientDup(cur);
        dest := Attach(dest, prev, n, copies, made);
        prev := n;
        CopiesSnoc(copies, nodes, n);
        InSnoc(copies, made, n);
        copies, copied, made := copies + [n], copied + 1, made + {n};
        cur := cur.next;
      }
      CopiesFacts(copies, nodes);
      InFacts(copies, made);
    }
  }

  ghost predicate In(nodes: seq<TClient>, made: set<TClient>) {
    forall i :: 0 <= i < |nodes| ==> nodes[i] in made
  }

  lemma InNone(made: set<TClient>)
    ensures In([], made)
  {
  }

  lemma InFacts(nodes: seq<TClient>, made: set<TClient>)
    requires In(nodes, made)
    ensures forall i :: 0 <= i < |nodes| ==> nodes[i] in made
    ensures forall n :: n !in made ==> n !in nodes
  {
  }

  lemma InSnoc(nodes: seq<TClient>, made: set<TClient>, n: TClient)
    requires In(nodes, made)
    ensures In(nodes + [n], made + {n})
  {
  }

  /** The copies of the first of these nodes. */
  ghost predicate CopiesOf(copies: seq<TClient>, nodes: seq<TClient>)
    reads copies`id, copies`c, nodes`id, nodes`c
  {
    && |copies| <= |nodes|
    && forall i :: 0 <= i < |copies| ==> copies[i].id == nodes[i].id && copies[i].c == nodes[i].c.(fd := 0)
  }

  lemma CopiesFacts(copies: seq<TClient>, nodes: seq<TClient>)
    requires CopiesOf(copies, nodes)
    ensures forall i :: 0 <= i < |copies| ==> copies[i].id == nodes[i].id && copies[i].c == nodes[i].c.(fd := 0)
  {
  }

  lemma NoCopies(nodes: seq<TClient>)
    ensures CopiesOf([], nodes)
  {
  }

  lemma CopiesSnoc(copies: seq<TClient>, nodes: seq<TClient>, n: TClient)
    requires |copies| < |nodes| && CopiesOf(copies, nodes)
    requires n.id == nodes[|copies|].id && n.c == nodes[|copies|].c.(fd := 0)
    ensures CopiesOf(copies + [n], nodes)
  {
  }

  lemma NextOf(head: TClient?, nodes: seq<TClient>, k: nat)
    requires Linked(head, nodes) && k < |nodes|
    ensures nodes[k].next == At(nodes, k + 1)
  {
  }

  /** client_dup */
  method ClientDup(src: TClient) returns (n: TClient)
    ensures fresh(n) && n.id == src.id && n.c == src.c.(fd := 0) && n.next == null
  {
    n := new TClient(src.c.(fd := 0));
    n.id := src.id;
  }

  lemma LinkedFacts(head: TClient?, nodes: seq<TClient>)
    requires Linked(head, nodes)
    ensures head == At(nodes, 0) && Distinct(nodes)
    ensures forall i :: 0 <= i < |nodes| ==> nodes[i].next == At(nodes, i + 1)
  {
  }

  lemma NotIn(nodes: seq<TClient>, client: TClient)
    requires forall j :: 0 <= j < |nodes| ==> nodes[j] != client
    ensures client !in nodes
  {
  }

  lemma NoneLinked()
    ensures Linked(null, [])
  {
  }

  /** The links of the nodes from lo on, before hi. */
  ghost predicate Links(nodes: seq<TClient>, lo: nat, hi: nat)
    requires lo <= hi <= |nodes|
    reads nodes[lo..hi]`next
  {
    forall j :: 0 <= j < hi - lo ==> nodes[lo..hi][j].next == At(nodes, lo + j + 1)
  }

  lemma LinksOf(head: TClient?, nodes: seq<TClient>, lo: nat, hi: nat)
    requires Linked(head, nodes) && lo <= hi <= |nodes|
    ensures Links(nodes, lo, hi) && (lo > 0 ==> nodes[lo - 1] !in nodes[lo..hi])
    ensures hi < |nodes| ==> nodes[hi] !in nodes[lo..hi]
  {
  }

  lemma LinkOf(nodes: seq<TClient>, lo: nat, hi: nat, j: nat)
    requires lo <= j < hi <= |nodes| && Links(nodes, lo, hi)
    ensures nodes[j].next == At(nodes, j + 1)
  {
    assert nodes[lo..hi][j - lo] == nodes[j];
  }

  lemma DistinctWithout(nodes: seq<TClient>, k: nat)
    requires Distinct(nodes) && k < |nodes|
    ensures Distinct(Without(nodes, k))
  {
    var after := Without(nodes, k);
    forall i, j | 0 <= i < j < |after|
      ensures after[i] != after[j]
    {
      assert nodes[if i < k then i else i + 1] != nodes[if j < k then j else j + 1];
    }
  }

  lemma UnlinkedFirst(client: TClient, nodes: seq<TClient>)
    requires Linked(client, nodes)
    ensures nodes != [] && Linked(client.next, Without(nodes, 0))
  {
    DistinctWithout(nodes, 0);
    var after := Without(nodes, 0);
    assert forall i :: 0 <= i < |after| ==> after[i] == nodes[i + 1];
  }

  lemma Unlinked(head: TClient?, nodes: seq<TClient>, k: nat)
    requires 0 < k < |nodes| && Distinct(nodes) && head == nodes[0]
    requires nodes[k - 1].next == At(nodes, k + 1) && Links(nodes, 0, k - 1) && Links(nodes, k, |nodes|)
    ensures Linked(head, Without(nodes, k))
  {
    hide Links, Distinct;
    DistinctWithout(nodes, k);
    var after := Without(nodes, k);
    forall i | 0 <= i < |after|
      ensures after[i].next == At(after, i + 1)
    {
      if i < k - 1 {
        LinkOf(nodes, 0, k - 1, i);
      } else if i >= k {
        LinkOf(nodes, k, |nodes|, i + 1);
      }
    }
    IsLinked(head, after);
  }

  lemma IsLinked(head: TClient?, nodes: seq<TClient>)
    requires head == At(nodes, 0) && Distinct(nodes)
    requires forall i :: 0 <= i < |nodes| ==> nodes[i].next == At(nodes, i + 1)
    ensures Linked(head, nodes)
  {
  }

  /** ptr->next = client->next */
  method Unlink(p: TClient, client: TClient, ghost head: TClient?, ghost k: nat, ghost nodes: seq<TClient>)
    requires Linked(head, nodes) && 0 < k < |nodes| && p == nodes[k - 1] && client == nodes[k]
    modifies p`next
    ensures Linked(head, Without(nodes, k))
  {
    hide Linked, Links, Without, Distinct;
    LinkedFacts(head, nodes);
    LinksOf(head, nodes, 0, k - 1);
    LinksOf(head, nodes, k, |nodes|);
    p.next := client.next;
    Unlinked(head, nodes, k);
  }

  /** The new copy becomes the head, or follows the previous one. */
  method Attach(top: TClient?, prev: TClient?, n: TClient, ghost copies: seq<TClient>, ghost made: set<TClient>)
    returns (head: TClient)
    requires Linked(top, copies) && prev == (if copies == [] then null else copies[|copies| - 1])
    requires n !in made && n.next == null && In(copies, made)
    modifies made`next
    ensures Linked(head, copies + [n])
  {
    hide Linked, Links, Distinct, In;
    InFacts(copies, made);
    LinkedFacts(top, copies);
    ghost var k := |copies|;
    LinksOf(top, copies, 0, if k == 0 then 0 else k - 1);
    if top == null {
      head := n;
    } else {
      head := top;
      prev.next := n;
    }
    Attached(head, copies, n);
  }

  lemma Attached(head: TClient, copies: seq<TClient>, n: TClient)
    requires n !in copies && n.next == null && Distinct(copies)
             && Links(copies, 0, if copies == [] then 0 else |copies| - 1)
    requires if copies == [] then head == n else head == copies[0] && copies[|copies| - 1].next == n
    ensures Linked(head, copies + [n])
  {
    var after := copies + [n];
    forall i | 0 <= i < |after|
      ensures after[i].next == At(after, i + 1)
    {
      if i < |copies| - 1 {
        LinkOf(copies, 0, |copies| - 1, i);
      }
    }
  }

  lemma WithoutViews(nodes: seq<TClient>, k: nat)
    requires k < |nodes|
    ensures IdsOf(Without(nodes, k)) == Without(IdsOf(nodes), k)
    ensures ClientsOf(Without(nodes, k)) == Without(ClientsOf(nodes), k)
  {
    hide IdsOf, ClientsOf;
  }

  lemma FallsWithout(ids: seq<nat>, bound: nat, k: nat)
    requires Falling(ids, bound) && k < |ids|
    ensures Falling(Without(ids, k), bound)
  {
    var after := Without(ids, k);
    forall i, j | 0 <= i < j < |after|
      ensures after[i] > after[j]
    {
      assert ids[if i < k then i else i + 1] > ids[if j < k then j else j + 1];
    }
  }

  function Fresh(ip: string, mac: string, token: string, name: string, passwd: string, now: int): (client: Client) {
    Client(ip, mac, token, name, passwd, -1, 0, -1, 0, 0, Counters(0, 0, 0, 0, 0, 0, now, now))
  }

  function StateAccessSet(cs: seq<Client>, ip: string, state: int, access: int): (r: seq<Client>) {
    var i := FirstIp(cs, ip);
    if i < |cs| then cs[i := StateSet(cs[i], state, access)] else cs
  }

  lemma HeadLinked(n: TClient, nodes: seq<TClient>)
    requires n !in nodes && Linked(n.next, nodes)
    ensures Linked(n, [n] + nodes)
  {
    var after := [n] + nodes;
    assert forall i :: 0 < i < |after| ==> after[i] == nodes[i - 1];
  }

  lemma HeadViews(n: TClient, nodes: seq<TClient>)
    ensures IdsOf([n] + nodes) == [n.id] + IdsOf(nodes) && ClientsOf([n] + nodes) == [n.c] + ClientsOf(nodes)
  {
  }

  lemma HeadFalls(ids: seq<nat>, next: nat)
    requires Falling(ids, next)
    ensures Falling([next] + ids, next + 1)
  {
    var after := [next] + ids;
    assert forall i :: 0 < i < |after| ==> after[i] == ids[i - 1];
  }

  lemma OneChanged(head: TClient?, nodes: seq<TClient>, i: nat, before: seq<Client>, c: Client)
    requires Linked(head, nodes) && i < |nodes| == |before| && nodes[i].c == c
    requires forall j :: 0 <= j < |nodes| && nodes[j] != nodes[i] ==> nodes[j].c == before[j]
    ensures ClientsOf(nodes) == before[i := c]
  {
  }
}
