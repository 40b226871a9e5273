/** Login, refresh and logout steps that keep a key-value store in agreement
    with the client list. */
module Session {
  import opened ClientList

  const ACCESS_YES := 1
  const ACCESS_NO := 0
  const ACCESS_OFFLINE := -1
  const ART_YES := 1
  const ART_NO := 0
  const FW_MARK_KNOWN := 2
  const FW_MARK_JUST_PORTAL := 3

  /** What the calls of one step answer: the last ping, the authorization, the
      firewall, and for each connection to the store whether it comes up. */
  datatype Env =
    Env(pong: int, art: int, fwFresh: int, fwDeny: int, accessUp: bool, unameUp: bool, delUp: bool,
        acct: int, now: int)

  /** The client list, the stored access#ip and the stored username#ip. */
  datatype State = State(cs: seq<Client>, access: map<string, int>, uname: map<string, string>)

  predicate Listed(s: State, ip: string) { FirstIp(s.cs, ip) < |s.cs| }

  function FirstClient(s: State, ip: string): (client: Client)
    requires Listed(s, ip)
  {
    s.cs[FirstIp(s.cs, ip)]
  }

  /** Whenever the first client with an address has an access other than -1,
      the store says the same. */
  ghost predicate Agrees(s: State) {
    forall ip :: AgreesOn(s, ip)
  }

  predicate AgreesOn(s: State, ip: string) {
    Listed(s, ip) && FirstClient(s, ip).access != -1 ==> Stored(s, ip, FirstClient(s, ip).access)
  }

  predicate Stored(s: State, ip: string, access: int) { ip in s.access && s.access[ip] == access }

  // ----- The steps -----

  /** redisSetAccess writes only a changed access. */
  function AccessWritten(s: State, ip: string): (after: State)
    requires Listed(s, ip)
  {
    var c := FirstClient(s, ip);
    if c.oldAccess != c.access then s.(access := s.access[ip := c.access]) else s
  }

  datatype Command = New | Old | Del

  /** set_fw_redis_4client for a new or an old client: the state and the result. */
  function Commanded(s: State, ip: string, command: Command, e: Env): (State, int)
    requires command != Del
  {
    if !Listed(s, ip) || e.fwFresh < 0 || !e.accessUp then (s, -1)
    else
      var t := AccessWritten(s, ip);
      if command == Old then (t, 0)
      else if !e.unameUp then (t, -1)
      else (t.(uname := t.uname[ip := FirstClient(t, ip).name]), if e.acct == -1 then -1 else 0)
  }

  /** set_fw_redis_4client for a client that leaves. */
  function Deleted(s: State, ip: string, e: Env): (State, int) {
    if !Listed(s, ip) || e.fwDeny == -1 || !e.delUp then (s, -1)
    else
      var t := s.(access := s.access - {ip}, uname := s.uname - {ip});
      if e.acct == -1 then (t, -1) else (t.(cs := Without(s.cs, FirstIp(s.cs, ip))), 0)
  }

  /** set_state_access and then the command. */
  function Granted(s: State, ip: string, state: int, access: int, command: Command, e: Env): (State, int)
    requires command != Del
  {
    if !Listed(s, ip) then (s, -1)
    else Commanded(s.(cs := StateAccessSet(s.cs, ip, state, access)), ip, command, e)
  }

  datatype Arg = Missing | Given(text: string)

  datatype Login = Login(ip: string, username: Arg, pass: Arg, token: Arg, mac: Arg)

  /** http_callback_first */
  function LoggedIn(s: State, l: Login, e: Env): (after: State) {
    if l.username.Missing? || l.pass.Missing? || l.token.Missing? || l.mac.Missing? then s
    else if FirstIpMac(s.cs, l.ip, l.mac.text) < |s.cs| || e.pong == -1 then s
    else
      var t := s.(cs := [Fresh(l.ip, l.mac.text, l.token.text, l.username.text, l.pass.text, e.now)] + s.cs);
      if e.art == ART_YES then Granted(t, l.ip, FW_MARK_KNOWN, ACCESS_YES, New, e).0
      else if e.art == ART_NO then Granted(t, l.ip, FW_MARK_JUST_PORTAL, ACCESS_NO, New, e).0
      else t
  }

  /** http_callback_fresh */
  function Refreshed(s: State, ip: string, e: Env): (after: State) {
    if e.pong == -1 then Granted(s, ip, FW_MARK_JUST_PORTAL, ACCESS_OFFLINE, Old, e).0
    else if !Listed(s, ip) then s
    else if e.art == 1 then Granted(s, ip, FW_MARK_KNOWN, ACCESS_YES, Old, e).0
    else if e.art == 0 then Granted(s, ip, FW_MARK_JUST_PORTAL, ACCESS_NO, Old, e).0
    else s
  }

  /** http_callback_disconnect */
  function LoggedOut(s: State, ip: string, e: Env): (after: State) { Deleted(s, ip, e).0 }

  // ----- Agreement -----

  /** A refresh or login whose firewall and store calls succeed. */
  predicate Succeeds(e: Env) { e.fwFresh >= 0 && e.accessUp }

  lemma FirstIpIs(cs: seq<Client>, ip: string, i: nat)
    requires i <= |cs| && (i < |cs| ==> cs[i].ip == ip) && forall j :: 0 <= j < i ==> cs[j].ip != ip
    ensures FirstIp(cs, ip) == i
  {
  }

  lemma SetKeepsFirst(cs: seq<Client>, ip: string, state: int, access: int, other: string)
    ensures var ds := StateAccessSet(cs, ip, state, access);
            var i := FirstIp(cs, other);
            && |ds| == |cs| && FirstIp(ds, other) == i
            && (i < |cs| ==> ds[i] == if other == ip then StateSet(cs[i], state, access) else cs[i])
  {
    var ds := StateAccessSet(cs, ip, state, access);
    assert forall j :: 0 <= j < |cs| ==> ds[j].ip == cs[j].ip;
    FirstIpIs(ds, other, FirstIp(cs, other));
  }

  /** From any state, agreeing or not: after a state change list and store agree
      on the address exactly when the new access is -1, the store held it
      already, or firewall and store answered and the access has changed. */
  lemma GrantedExactly(s: State, ip: string, state: int, access: int, command: Command, e: Env)
    requires command != Del && Listed(s, ip)
    ensures AgreesOn(Granted(s, ip, state, access, command, e).0, ip)
       <==> access == -1 || Stored(s, ip, access) || (Succeeds(e) && FirstClient(s, ip).access != access)
  {
    hide FirstIp, StateAccessSet;
    SetKeepsFirst(s.cs, ip, state, access, ip);
  }

  /** A state change leaves the agreement on every other address as it was. */
  lemma GrantedElsewhere(s: State, ip: string, state: int, access: int, command: Command, e: Env, other: string)
    requires command != Del && other != ip
    ensures AgreesOn(Granted(s, ip, state, access, command, e).0, other) <==> AgreesOn(s, other)
  {
    hide FirstIp, StateAccessSet;
    SetKeepsFirst(s.cs, ip, state, access, other);
  }

  /** The step agrees on every other address as before; on its own exactly when
      the client is not listed, the new access is -1, the firewall and the store
      answered, or the store happened to hold the value already. */
  lemma GrantedAgrees(s: State, ip: string, state: int, access: int, command: Command, e: Env)
    requires command != Del && Agrees(s)
    ensures Agrees(Granted(s, ip, state, access, command, e).0)
       <==> !Listed(s, ip) || access == -1 || Succeeds(e) || Stored(s, ip, access)
  {
    hide AgreesOn, FirstIp;
    var t := Granted(s, ip, state, access, command, e).0;
    assert AgreesOn(s, ip);
    if Listed(s, ip) {
      GrantedExactly(s, ip, state, access, command, e);
      AgreedAccess(s, ip);
      forall other | other != ip
        ensures AgreesOn(t, other)
      {
        assert AgreesOn(s, other);
        GrantedElsewhere(s, ip, state, access, command, e, other);
      }
      assert Agrees(t) <==> AgreesOn(t, ip);
    }
  }

  lemma AgreedAccess(s: State, ip: string)
    requires Listed(s, ip) && AgreesOn(s, ip)
    ensures FirstClient(s, ip).access == -1 || Stored(s, ip, FirstClient(s, ip).access)
  {
  }

  lemma AddedAgrees(s: State, c: Client)
    requires Agrees(s) && c.access == -1
    ensures Agrees(s.(cs := [c] + s.cs))
  {
    hide FirstIp;
    var t := s.(cs := [c] + s.cs);
    forall ip
      ensures AgreesOn(t, ip)
    {
      assert AgreesOn(s, ip);
      FirstIpCons(c, s.cs, ip);
    }
  }

  lemma FirstIpCons(c: Client, cs: seq<Client>, ip: string)
    ensures FirstIp([c] + cs, ip) == if c.ip == ip then 0 else 1 + FirstIp(cs, ip)
  {
    assert ([c] + cs)[1..] == cs;
  }

  datatype Event = LoginEvent(login: Login) | RefreshEvent(ip: string) | LogoutEvent(ip: string)

  function Stepped(s: State, event: Event, e: Env): (after: State) {
    match event
    case LoginEvent(l) => LoggedIn(s, l, e)
    case RefreshEvent(ip) => Refreshed(s, ip, e)
    case LogoutEvent(ip) => LoggedOut(s, ip, e)
  }

  lemma StepAgrees(s: State, event: Event, e: Env)
    requires Agrees(s) && Succeeds(e) && !event.LogoutEvent?
    ensures Agrees(Stepped(s, event, e))
  {
    hide Agrees, Granted, FirstIp, FirstIpMac;
    match event {
      case LoginEvent(l) =>
        if !(l.username.Missing? || l.pass.Missing? || l.token.Missing? || l.mac.Missing?) {
          var c := Fresh(l.ip, l.mac.text, l.token.text, l.username.text, l.pass.text, e.now);
          var t := s.(cs := [c] + s.cs);
          AddedAgrees(s, c);
          GrantedAgrees(t, l.ip, FW_MARK_KNOWN, ACCESS_YES, New, e);
          GrantedAgrees(t, l.ip, FW_MARK_JUST_PORTAL, ACCESS_NO, New, e);
        }
      case RefreshEvent(ip) =>
        GrantedAgrees(s, ip, FW_MARK_JUST_PORTAL, ACCESS_OFFLINE, Old, e);
        GrantedAgrees(s, ip, FW_MARK_KNOWN, ACCESS_YES, Old, e);
        GrantedAgrees(s, ip, FW_MARK_JUST_PORTAL, ACCESS_NO, Old, e);
      case LogoutEvent(ip) =>
    }
  }

  function Ran(s: State, run: seq<(Event, Env)>): (after: State)
    decreases |run|
  {
    if run == [] then s else Ran(Stepped(s, run[0].0, run[0].1), run[1..])
  }

  /** Over every run of logins and refreshes whose firewall and store calls
      succeed the store agrees with the list. */
  lemma {:induction false} RunAgrees(s: State, run: seq<(Event, Env)>)
    requires Agrees(s)
    requires forall i :: 0 <= i < |run| ==> Succeeds(run[i].1) && !run[i].0.LogoutEvent?
    ensures Agrees(Ran(s, run))
    decreases |run|
  {
    hide Agrees, Stepped, Succeeds;
    if run != [] {
      StepAgrees(s, run[0].0, run[0].1);
      RunAgrees(Stepped(s, run[0].0, run[0].1), run[1..]);
    }
  }

  // ----- The periodic check -----

  function IpsOf(cs: seq<Client>): (ips: seq<string>)
    ensures |ips| == |cs| && forall i :: 0 <= i < |ips| ==> ips[i] == cs[i].ip
  {
    if cs == [] then [] else [cs[0].ip] + IpsOf(cs[1..])
  }

  /** disable_all_auth over a copy of the list, one answer for each client. */
  function Disabled(s: State, ips: seq<string>, es: seq<Env>): (after: State)
    requires |es| >= |ips|
    decreases |ips|
  {
    if ips == [] then s
    else Disabled(Granted(s, ips[0], FW_MARK_JUST_PORTAL, ACCESS_OFFLINE, Old, es[0]).0, ips[1..], es[1..])
  }

  /** One client of fw_sync_with_authserver while the server answers. */
  function SyncedOne(s: State, ip: string, e: Env): (t: State)
    ensures |t.cs| == |s.cs|
  {
    if e.art == 1 then Granted(s, ip, FW_MARK_KNOWN, ACCESS_YES, Old, e).0
    else if e.art == 0 then Granted(s, ip, FW_MARK_JUST_PORTAL, ACCESS_NO, Old, e).0
    else s
  }

  lemma {:induction false} DisabledAgrees(s: State, ips: seq<string>, es: seq<Env>)
    requires Agrees(s) && |es| >= |ips| && forall i :: 0 <= i < |es| ==> Succeeds(es[i])
    ensures Agrees(Disabled(s, ips, es))
    decreases |ips|
  {
    hide Agrees, Granted;
    if ips != [] {
      GrantedAgrees(s, ips[0], FW_MARK_JUST_PORTAL, ACCESS_OFFLINE, Old, es[0]);
      DisabledAgrees(Granted(s, ips[0], FW_MARK_JUST_PORTAL, ACCESS_OFFLINE, Old, es[0]).0, ips[1..], es[1..]);
    }
  }

  /** fw_sync_with_authserver over a copy of the list; ds are the answers for
      the clients when the server turns out to be away. */
  function Synced(s: State, ips: seq<string>, es: seq<Env>, ds: seq<Env>): (after: State)
    requires |es| >= |ips| && |ds| >= |s.cs|
    decreases |ips|
  {
    if ips == [] then s
    else if es[0].pong != 0 then Disabled(s, IpsOf(s.cs), ds)
    else Synced(SyncedOne(s, ips[0], es[0]), ips[1..], es[1..], ds)
  }

  lemma SyncedOneAgrees(s: State, ip: string, e: Env)
    requires Agrees(s) && Succeeds(e)
    ensures Agrees(SyncedOne(s, ip, e))
  {
    hide Agrees, Granted;
    GrantedAgrees(s, ip, FW_MARK_KNOWN, ACCESS_YES, Old, e);
    GrantedAgrees(s, ip, FW_MARK_JUST_PORTAL, ACCESS_NO, Old, e);
  }

  /** The periodic check keeps agreement when its calls succeed. */
  lemma {:induction false} SyncedAgrees(s: State, ips: seq<string>, es: seq<Env>, ds: seq<Env>)
    requires Agrees(s) && |es| >= |ips| && |ds| >= |s.cs|
    requires (forall i :: 0 <= i < |es| ==> Succeeds(es[i])) && (forall i :: 0 <= i < |ds| ==> Succeeds(ds[i]))
    ensures Agrees(Synced(s, ips, es, ds))
    decreases |ips|
  {
    hide Agrees, SyncedOne, Disabled, Succeeds;
    if ips != [] {
      if es[0].pong != 0 {
        DisabledAgrees(s, IpsOf(s.cs), ds);
      } else {
        SyncedOneAgrees(s, ips[0], es[0]);
        SyncedAgrees(SyncedOne(s, ips[0], es[0]), ips[1..], es[1..], ds);
      }
    }
  }

  lemma GrantedFirst(s: State, ip: string, state: int, access: int, command: Command, e: Env, other: string)
    requires command != Del
    ensures var t := Granted(s, ip, state, access, command, e).0;
            && |t.cs| == |s.cs| && (Listed(t, other) <==> Listed(s, other))
            && (Listed(s, other) ==>
                  FirstClient(t, other)
                  == if other == ip then StateSet(FirstClient(s, ip), state, access) else FirstClient(s, other))
  {
    hide FirstIp, StateAccessSet, StateSet;
    SetKeepsFirst(s.cs, ip, state, access, other);
  }

  /** However the calls go, every address that was gone through is offline. */
  lemma {:induction false} DisabledOffline(s: State, ips: seq<string>, es: seq<Env>, ip: string)
    requires |es| >= |ips| && Listed(s, ip)
    requires ip in ips || (FirstClient(s, ip).access == -1 && FirstClient(s, ip).state == 3)
    ensures var t := Disabled(s, ips, es);
            Listed(t, ip) && FirstClient(t, ip).access == -1 && FirstClient(t, ip).state == 3
    decreases |ips|
  {
    hide Granted, FirstIp;
    if ips != [] {
      GrantedFirst(s, ips[0], FW_MARK_JUST_PORTAL, ACCESS_OFFLINE, Old, es[0], ip);
      assert ip in ips ==> ip == ips[0] || ip in ips[1..];
      DisabledOffline(Granted(s, ips[0], FW_MARK_JUST_PORTAL, ACCESS_OFFLINE, Old, es[0]).0, ips[1..], es[1..], ip);
    }
  }

  /** disable_all_auth leaves every listed address without a recorded access and
      with the mark of the portal. */
  lemma AllOffline(s: State, es: seq<Env>, ip: string)
    requires |es| >= |s.cs| && Listed(s, ip)
    ensures var t := Disabled(s, IpsOf(s.cs), es);
            Listed(t, ip) && FirstClient(t, ip).access == -1 && FirstClient(t, ip).state == 3
  {
    hide Granted, FirstIp;
    var ips := IpsOf(s.cs);
    assert ips[FirstIp(s.cs, ip)] == ip;
    DisabledOffline(s, ips, es, ip);
  }

  // ----- Where agreement ends -----

  lemma FirstBefore(cs: seq<Client>, i: nat, ip: string)
    requires FirstIp(cs, ip) < i < |cs|
    ensures FirstIp(Without(cs, i), ip) == FirstIp(cs, ip)
  {
    hide FirstIp;
    FirstIpIs(Without(cs, i), ip, FirstIp(cs, ip));
  }

  lemma FirstBehind(cs: seq<Client>, i: nat, ip: string)
    requires i < |cs| && FirstIp(cs, ip) > i
    ensures FirstIp(Without(cs, i), ip) == FirstIp(cs, ip) - 1
  {
    hide FirstIp;
    FirstIpIs(Without(cs, i), ip, FirstIp(cs, ip) - 1);
  }

  lemma FirstGone(cs: seq<Client>, ip: string)
    requires FirstIp(cs, ip) < |cs|
    ensures var i := FirstIp(cs, ip); FirstIp(Without(cs, i), ip) == i + FirstIp(cs[i + 1..], ip)
  {
    hide FirstIp;
    var i := FirstIp(cs, ip);
    var r, older := Without(cs, i), cs[i + 1..];
    var g := FirstIp(older, ip);
    assert forall j :: i <= j < |r| ==> r[j] == older[j - i];
    FirstIpIs(r, ip, i + g);
  }

  lemma DeletedOther(s: State, ip: string, e: Env, other: string)
    requires other != ip && AgreesOn(s, other)
    ensures AgreesOn(LoggedOut(s, ip, e), other)
  {
    hide FirstIp, Without;
    if Listed(s, ip) {
      var i := FirstIp(s.cs, ip);
      if FirstIp(s.cs, other) < i {
        FirstBefore(s.cs, i, other);
      } else {
        FirstBehind(s.cs, i, other);
      }
    }
  }

  lemma DeletedOwn(s: State, ip: string, e: Env)
    requires Listed(s, ip) && e.fwDeny != -1 && e.delUp
    ensures AgreesOn(LoggedOut(s, ip, e), ip) <==>
            if e.acct == -1 then FirstClient(s, ip).access == -1
            else var older := s.cs[FirstIp(s.cs, ip) + 1..];
                 var k := FirstIp(older, ip);
                 k == |older| || older[k].access == -1
  {
    hide FirstIp, Without;
    var i := FirstIp(s.cs, ip);
    FirstGone(s.cs, ip);
    var r, older := Without(s.cs, i), s.cs[i + 1..];
    var g := FirstIp(older, ip);
    assert g < |older| ==> r[i + g] == older[g];
  }

  /** After a logout agreement holds exactly when the step stopped before the
      store, or the client was removed and no older one with the address, or
      only one without a recorded access, comes up behind it, or the client
      stayed listed without a recorded access. */
  lemma LogoutExactly(s: State, ip: string, e: Env)
    requires Agrees(s)
    ensures Agrees(LoggedOut(s, ip, e)) <==>
            !Listed(s, ip) || e.fwDeny == -1 || !e.delUp
            || (if e.acct == -1 then FirstClient(s, ip).access == -1
                else var older := s.cs[FirstIp(s.cs, ip) + 1..];
                     var k := FirstIp(older, ip);
                     k == |older| || older[k].access == -1)
  {
    hide FirstIp, Without, AgreesOn;
    var t := LoggedOut(s, ip, e);
    if Listed(s, ip) && e.fwDeny != -1 && e.delUp {
      DeletedOwn(s, ip, e);
      forall other | other != ip
        ensures AgreesOn(t, other)
      {
        assert AgreesOn(s, other);
        DeletedOther(s, ip, e, other);
      }
      assert Agrees(t) <==> AgreesOn(t, ip);
    }
  }

  // ----- Runs of refreshes from any state -----

  datatype Asked = Nothing | Change(state: int, access: int)

  /** What a refresh asks for. */
  function AskedBy(e: Env): (a: Asked) {
    if e.pong == -1 then Change(FW_MARK_JUST_PORTAL, ACCESS_OFFLINE)
    else if e.art == 1 then Change(FW_MARK_KNOWN, ACCESS_YES)
    else if e.art == 0 then Change(FW_MARK_JUST_PORTAL, ACCESS_NO)
    else Nothing
  }

  function RefreshedAll(s: State, run: seq<(string, Env)>): (t: State)
    decreases |run|
  {
    if run == [] then s else RefreshedAll(Refreshed(s, run[0].0, run[0].1), run[1..])
  }

  /** The first refresh of this address, or the length. */
  function FirstFor(run: seq<(string, Env)>, ip: string): (i: nat)
    ensures i <= |run| && (i < |run| ==> run[i].0 == ip) && forall j :: 0 <= j < i ==> run[j].0 != ip
  {
    if run == [] || run[0].0 == ip then 0 else 1 + FirstFor(run[1..], ip)
  }

  lemma RefreshedOther(s: State, other: string, e: Env, ip: string)
    requires other != ip && Listed(s, ip)
    ensures var t := Refreshed(s, other, e);
            && Listed(t, ip) && FirstClient(t, ip) == FirstClient(s, ip)
            && forall v :: Stored(t, ip, v) <==> Stored(s, ip, v)
  {
    hide FirstIp, StateAccessSet;
    SetKeepsFirst(s.cs, other, FW_MARK_JUST_PORTAL, ACCESS_OFFLINE, ip);
    SetKeepsFirst(s.cs, other, FW_MARK_KNOWN, ACCESS_YES, ip);
    SetKeepsFirst(s.cs, other, FW_MARK_JUST_PORTAL, ACCESS_NO, ip);
  }

  /** A refresh records the access it asks for, and writes it to the store
      exactly when it differs from the one recorded before; one that asks for
      nothing changes nothing. */
  lemma RefreshedOwn(s: State, ip: string, e: Env)
    requires Listed(s, ip)
    ensures AskedBy(e).Nothing? ==> Refreshed(s, ip, e) == s
    ensures AskedBy(e).Change? ==>
            var t, access := Refreshed(s, ip, e), AskedBy(e).access;
            && Listed(t, ip) && FirstClient(t, ip).access == access
            && forall v :: Stored(t, ip, v)
                 <==> if Succeeds(e) && FirstClient(s, ip).access != access then v == access else Stored(s, ip, v)
  {
    hide FirstIp, StateAccessSet;
    if AskedBy(e).Change? {
      SetKeepsFirst(s.cs, ip, AskedBy(e).state, AskedBy(e).access, ip);
    }
  }

  /** Over a whole run of refreshes, from any state: if all refreshes of an
      address ask for the same access, only the first of them counts.  Later
      ones never repair a store that has missed the change, however they go. */
  lemma {:induction false} MissedIsKept(s: State, run: seq<(string, Env)>, ip: string, access: int)
    requires Listed(s, ip)
    requires forall i :: 0 <= i < |run| && run[i].0 == ip ==>
               AskedBy(run[i].1).Change? && AskedBy(run[i].1).access == access
    ensures var t, i := RefreshedAll(s, run), FirstFor(run, ip);
            && Listed(t, ip)
            && (AgreesOn(t, ip) <==>
                  if i == |run| then AgreesOn(s, ip)
                  else access == -1 || Stored(s, ip, access)
                       || (Succeeds(run[i].1) && FirstClient(s, ip).access != access))
    decreases |run|
  {
    hide Refreshed, FirstIp, AskedBy, Succeeds;
    if run != [] {
      var t := Refreshed(s, run[0].0, run[0].1);
      assert forall i :: 0 <= i < |run| - 1 ==> run[1..][i] == run[i + 1];
      if run[0].0 == ip {
        RefreshedOwn(s, ip, run[0].1);
      } else {
        RefreshedOther(s, run[0].0, run[0].1, ip);
      }
      MissedIsKept(t, run[1..], ip, access);
    }
  }

  // ----- The callbacks -----

  class Gateway {
    const list: List
    var access: map<string, int>
    var uname: map<string, string>

    constructor (list: List)
      ensures this.list == list && access == map[] && uname == map[]
    {
      this.list := list;
      access, uname := map[], map[];
    }

    ghost function View(): (state: State)
      reads this, list`nodes, list.nodes`c
    {
      State(list.Clients(), access, uname)
    }

    /** redisSetAccess */
    method RedisSetAccess(ip: string, up: bool) returns (ret: int)
      requires list.Valid()
      modifies this`access
      ensures !up || !Listed(old(View()), ip) ==> ret == -1 && View() == old(View())
      ensures up && Listed(old(View()), ip) ==> ret == 0 && View() == AccessWritten(old(View()), ip)
    {
      hide List.Valid, List.Clients, FirstIp;
      if !up {
        return -1;
      }
      var r, now, before := list.Get2Access(ip);
      if r == -1 {
        return -1;
      }
      if before != now {
        access := access[ip := now];
      }
      return 0;
    }

    /** redisSetUname */
    method RedisSetUname(ip: string, up: bool) returns (ret: int)
      requires list.Valid()
      modifies this`uname
      ensures !up || !Listed(old(View()), ip) ==> ret == -1 && View() == old(View())
      ensures up && Listed(old(View()), ip) ==>
                ret == 0 && View() == old(View()).(uname := old(uname)[ip := FirstClient(old(View()), ip).name])
    {
      hide List.Valid, List.Clients, FirstIp;
      if !up {
        return -1;
      }
      var found, username := list.GetUsername(ip);
      if !found {
        return -1;
      }
      uname := uname[ip := username];
      return 0;
    }

    /** set_fw_redis_4client: CMD_NEW and CMD_OLD. */
    method SetFwRedis(ip: string, command: Command, e: Env) returns (ret: int)
      requires list.Valid() && command != Del
      modifies this`access, this`uname
      ensures (View(), ret) == Commanded(old(View()), ip, command, e)
    {
      hide List.Valid, List.Clients, FirstIp;
      var found, name := list.GetUsername(ip);
      // fw_fresh fails on an unlisted client, whatever the firewall would answer
      if !found || e.fwFresh < 0 {
        return -1;
      }
      ret := RedisSetAccess(ip, e.accessUp);
      if ret == -1 {
        return -1;
      }
      if command == New {
        ret := RedisSetUname(ip, e.unameUp);
        if ret == -1 {
          return -1;
        }
        if e.acct == -1 {
          return -1;
        }
      }
      return 0;
    }

    /** set_fw_redis_4client: CMD_DEL. */
    method DelFwRedis(ip: string, e: Env) returns (ret: int)
      requires list.Valid()
      modifies this`access, this`uname, list`firstclient, list`nodes, list.nodes`next
      ensures list.Valid() && (View(), ret) == Deleted(old(View()), ip, e)
    {
      hide List.Valid, List.Clients, FirstIp, List.Snap, Removes, Without;
      var found, name := list.GetUsername(ip);
      if !found || e.fwDeny == -1 {
        return -1;
      }
      if !e.delUp {
        return -1;
      }
      access, uname := access - {ip}, uname - {ip};
      if e.acct == -1 {
        return -1;
      }
      ret := list.Delete(ip);
    }

    /** http_callback_disconnect */
    method HttpCallbackDisconnect(ip: string, e: Env) returns (ret: int)
      requires list.Valid()
      modifies this`access, this`uname, list`firstclient, list`nodes, list.nodes`next
      ensures list.Valid() && View() == LoggedOut(old(View()), ip, e)
    {
      ret := DelFwRedis(ip, e);
    }

    /** set_state_access and the command after it. */
    method Grant(ip: string, state: int, access: int, command: Command, e: Env) returns (ret: int)
      requires list.Valid() && command != Del
      modifies this`access, this`uname, list.nodes`c
      ensures list.Valid() && (View(), ret) == Granted(old(View()), ip, state, access, command, e)
    {
      hide List.Valid, List.Clients, FirstIp, StateSet, Commanded;
      ret := list.SetStateAccess(ip, state, access);
      if ret == -1 {
        return;
      }
      ret := SetFwRedis(ip, command, e);
    }

    /** http_callback_fresh */
    method HttpCallbackFresh(ip: string, e: Env)
      requires list.Valid()
      modifies this`access, this`uname, list.nodes`c
      ensures list.Valid() && View() == Refreshed(old(View()), ip, e)
    {
      hide List.Valid, List.Clients, FirstIp, Granted;
      var ret: int;
      if e.pong == -1 {
        ret := Grant(ip, FW_MARK_JUST_PORTAL, ACCESS_OFFLINE, Old, e);
        return;
      }
      var found, name := list.GetUsername(ip);
      if !found {
        return;
      }
      if e.art == 1 {
        ret := Grant(ip, FW_MARK_KNOWN, ACCESS_YES, Old, e);
      } else if e.art == 0 {
        ret := Grant(ip, FW_MARK_JUST_PORTAL, ACCESS_NO, Old, e);
      }
    }

    /** http_callback_first */
    method HttpCallbackFirst(l: Login, e: Env)
      requires list.Valid() && list.clientId < ULLONG_MAX
      modifies this`access, this`uname, list, list.nodes`c
      ensures list.Valid() && View() == LoggedIn(old(View()), l, e)
    {
      hide List.Valid, List.Clients, List.Snap, Inserts, FirstIp, FirstIpMac, Granted, Fresh;
      if l.username.Missing? || l.pass.Missing? || l.token.Missing? || l.mac.Missing? {
        return;
      }
      var known := list.Find(l.ip, l.mac.text);
      if known != null || e.pong == -1 {
        return;
      }
      var client := list.Add(l.ip, l.mac.text, l.token.text, l.username.text, l.pass.text, e.now);
      var ret: int;
      if e.art == ART_YES {
        ret := Grant(l.ip, FW_MARK_KNOWN, ACCESS_YES, New, e);
      } else if e.art == ART_NO {
        ret := Grant(l.ip, FW_MARK_JUST_PORTAL, ACCESS_NO, New, e);
      }
    }

    /** disable_all_auth: the copied list is walked while the list changes. */
    method DisableAllAuth(es: seq<Env>)
      requires list.Valid() && |es| >= |list.nodes|
      modifies this`access, this`uname, list.nodes`c
      ensures list.Valid() && View() == Disabled(old(View()), IpsOf(old(list.Clients())), es)
    {
      hide List.Valid, List.Clients, FirstIp, Granted, Disabled, Linked, Worklist, IpsOf;
      ghost var ips, first := IpsOf(list.Clients()), View();
      var p1, n, copies := list.Dup();
      ghost var nodes := list.nodes;
      var i: nat := 0;
      assert Apart(copies, nodes);
      WorklistStart(list, p1, copies);
      assert ips[0..] == ips && es[0..] == es;
      while p1 != null
        invariant i <= |ips| == |copies| <= |es| && p1 == At(copies, i) && list.Valid() && list.nodes == nodes
        invariant Worklist(copies, ips) && Apart(copies, nodes)
        invariant Disabled(View(), ips[i..], es[i..]) == Disabled(first, ips, es)
        decreases |ips| - i
      {
        WorklistAt(copies, ips, i);
        DisabledStep(View(), ips, es, i);
        var ret := Grant(p1.c.ip, FW_MARK_JUST_PORTAL, ACCESS_OFFLINE, Old, es[i]);
        WorklistAt(copies, ips, i);
        p1, i := p1.next, i + 1;
      }
      DisabledEnd(View(), ips, es, i);
    }

    method SyncOne(ip: string, e: Env)
      requires list.Valid()
      modifies this`access, this`uname, list.nodes`c
      ensures list.Valid() && View() == SyncedOne(old(View()), ip, e)
    {
      hide List.Valid, List.Clients, FirstIp, Granted;
      var ret: int;
      if e.art == 1 {
        ret := Grant(ip, FW_MARK_KNOWN, ACCESS_YES, Old, e);
      } else if e.art == 0 {
        ret := Grant(ip, FW_MARK_JUST_PORTAL, ACCESS_NO, Old, e);
      }
    }

    /** fw_sync_with_authserver */
    method SyncWithAuthserver(es: seq<Env>, ds: seq<Env>)
      requires list.Valid() && |es| >= |list.nodes| && |ds| >= |list.nodes|
      modifies this`access, this`uname, list.nodes`c
      ensures list.Valid() && View() == Synced(old(View()), IpsOf(old(list.Clients())), es, ds)
    {
      hide List.Valid, List.Clients, FirstIp, SyncedOne, Synced, Disabled, Linked, Worklist, IpsOf;
      ghost var ips, first := IpsOf(list.Clients()), View();
      var p1, n, copies := list.Dup();
      ghost var nodes := list.nodes;
      var i: nat := 0;
      assert Apart(copies, nodes);
      WorklistStart(list, p1, copies);
      assert ips[0..] == ips && es[0..] == es;
      while p1 != null
        invariant i <= |ips| == |copies| <= |es| && p1 == At(copies, i) && list.Valid() && list.nodes == nodes
        invariant Worklist(copies, ips) && Apart(copies, nodes)
        invariant Synced(View(), ips[i..], es[i..], ds) == Synced(first, ips, es, ds)
        decreases |ips| - i
      {
        WorklistAt(copies, ips, i);
        SyncedStep(View(), ips, es, ds, i);
        if es[i].pong != 0 {
          DisableAllAuth(ds);
          return;
        }
        SyncOne(p1.c.ip, es[i]);
        WorklistAt(copies, ips, i);
        p1, i := p1.next, i + 1;
      }
      SyncedEnd(View(), ips, es, ds, i);
    }
  }

  predicate Apart(copies: seq<TClient>, nodes: seq<TClient>) {
    forall i :: 0 <= i < |copies| ==> copies[i] !in nodes
  }

  ghost predicate Worklist(copies: seq<TClient>, ips: seq<string>)
    reads copies`next, copies`c
  {
    |copies| == |ips|
    && forall j :: 0 <= j < |copies| ==> copies[j].next == At(copies, j + 1) && copies[j].c.ip == ips[j]
  }

  lemma WorklistAt(copies: seq<TClient>, ips: seq<string>, i: nat)
    requires Worklist(copies, ips) && i < |copies|
    ensures copies[i].next == At(copies, i + 1) && copies[i].c.ip == ips[i]
  {
  }

  lemma WorklistStart(list: List, p1: TClient?, copies: seq<TClient>)
    requires list.Valid() && Linked(p1, copies) && |copies| == |list.nodes|
    requires forall i :: 0 <= i < |copies| ==> copies[i].c == list.nodes[i].c.(fd := 0)
    ensures Worklist(copies, IpsOf(list.Clients())) && p1 == At(copies, 0)
  {
  }

  lemma DisabledStep(s: State, ips: seq<string>, es: seq<Env>, i: nat)
    requires i < |ips| <= |es|
    ensures Disabled(s, ips[i..], es[i..])
         == Disabled(Granted(s, ips[i], FW_MARK_JUST_PORTAL, ACCESS_OFFLINE, Old, es[i]).0, ips[i + 1..], es[i + 1..])
  {
    hide Granted;
    assert ips[i..][1..] == ips[i + 1..] && es[i..][1..] == es[i + 1..];
  }

  lemma SyncedStep(s: State, ips: seq<string>, es: seq<Env>, ds: seq<Env>, i: nat)
    requires i < |ips| <= |es| && |ds| >= |s.cs|
    ensures Synced(s, ips[i..], es[i..], ds)
         == if es[i].pong != 0 then Disabled(s, IpsOf(s.cs), ds)
           else Synced(SyncedOne(s, ips[i], es[i]), ips[i + 1..], es[i + 1..], ds)
  {
    hide SyncedOne, Disabled;
    assert ips[i..][1..] == ips[i + 1..] && es[i..][1..] == es[i + 1..];
  }

  lemma SyncedEnd(s: State, ips: seq<string>, es: seq<Env>, ds: seq<Env>, i: nat)
    requires i == |ips| <= |es| && |ds| >= |s.cs|
    ensures Synced(s, ips[i..], es[i..], ds) == s
  {
  }

  lemma DisabledEnd(s: State, ips: seq<string>, es: seq<Env>, i: nat)
    requires i == |ips| <= |es|
    ensures Disabled(s, ips[i..], es[i..]) == s
  {
  }
}
