/** What the steps of a session do, in the values of the protocol: access 1 is
    granted, 0 refused, -1 unknown; firewall mark 2 is a known client, 3 one
    that only sees the portal. */
module Outcomes {
  import opened ClientList
  import opened Session

  /** The client at i is the first one with the address. */
  predicate FirstAt(cs: seq<Client>, ip: string, i: nat) {
    i < |cs| && cs[i].ip == ip && forall j :: 0 <= j < i ==> cs[j].ip != ip
  }

  predicate AllGiven(l: Login) { l.username.Given? && l.pass.Given? && l.token.Given? && l.mac.Given? }

  /** What a state change and its command do: the first client remembers its old
      values, and the store gets what the calls let through. */
  lemma GrantMeaning(s: State, ip: string, i: nat, state: int, access: int, command: Command, e: Env)
    requires FirstAt(s.cs, ip, i) && command != Del
    ensures Granted(s, ip, state, access, command, e).1
         == if e.fwFresh < 0 || !e.accessUp || (command == New && (!e.unameUp || e.acct == -1)) then -1 else 0
    ensures var t, c := Granted(s, ip, state, access, command, e).0, s.cs[i];
            var written := e.fwFresh >= 0 && e.accessUp;
            && t.cs == s.cs[i := c.(state := state, oldState := c.state, access := access, oldAccess := c.access)]
            && t.access == (if written && access != c.access then s.access[ip := access] else s.access)
            && t.uname == if command == New && written && e.unameUp then s.uname[ip := c.name] else s.uname
  {
    hide FirstIp;
    FirstIpIs(s.cs, ip, i);
    SetKeepsFirst(s.cs, ip, state, access, ip);
  }

  /** A login of a new client puts it at the head of the list with its texts, the
      marks of the answer and the time; the store gets its access and its name. */
  lemma LoginMeaning(s: State, l: Login, e: Env)
    requires AllGiven(l) && e.pong != -1
    requires forall j :: 0 <= j < |s.cs| ==> s.cs[j].ip != l.ip || s.cs[j].mac != l.mac.text
    ensures var t := LoggedIn(s, l, e);
            && |t.cs| == |s.cs| + 1 && t.cs[1..] == s.cs
            && t.cs[0].ip == l.ip && t.cs[0].mac == l.mac.text && t.cs[0].token == l.token.text
            && t.cs[0].name == l.username.text && t.cs[0].passwd == l.pass.text
            && (t.cs[0].state, t.cs[0].access)
               == (if e.art == 1 then (2, 1) else if e.art == 0 then (3, 0) else (-1, -1))
            && (t.cs[0].oldState, t.cs[0].oldAccess) == (if e.art == 0 || e.art == 1 then (-1, -1) else (0, 0))
            && t.cs[0].fd == 0 && t.cs[0].counters == Counters(0, 0, 0, 0, 0, 0, e.now, e.now)
    ensures var t, granted := LoggedIn(s, l, e), e.art == 0 || e.art == 1;
            var written := granted && e.fwFresh >= 0 && e.accessUp;
            && t.access == (if written then s.access[l.ip := e.art] else s.access)
            && t.uname == if written && e.unameUp then s.uname[l.ip := l.username.text] else s.uname
  {
    hide Granted, FirstIpMac;
    assert FirstIpMac(s.cs, l.ip, l.mac.text) == |s.cs|;
    var c := Fresh(l.ip, l.mac.text, l.token.text, l.username.text, l.pass.text, e.now);
    var t := s.(cs := [c] + s.cs);
    GrantMeaning(t, l.ip, 0, 2, 1, New, e);
    GrantMeaning(t, l.ip, 0, 3, 0, New, e);
  }

  /** A login changes nothing when an argument is missing, the server is away or
      a client with both addresses is listed. */
  lemma LoginRefused(s: State, l: Login, e: Env)
    requires !AllGiven(l) || e.pong == -1 || exists c <- s.cs :: c.ip == l.ip && c.mac == l.mac.text
    ensures LoggedIn(s, l, e) == s
  {
    if AllGiven(l) && e.pong != -1 {
      var j :| 0 <= j < |s.cs| && s.cs[j].ip == l.ip && s.cs[j].mac == l.mac.text;
    }
  }

  /** A refresh puts the first client with the address offline when the server is
      away, and otherwise gives it what the server answers. */
  lemma RefreshMeaning(s: State, ip: string, i: nat, e: Env)
    requires FirstAt(s.cs, ip, i)
    ensures var t, c := Refreshed(s, ip, e), s.cs[i];
            var (state, access) :=
              if e.pong == -1 then (3, -1) else if e.art == 1 then (2, 1) else if e.art == 0 then (3, 0)
              else (c.state, c.access);
            if e.pong != -1 && e.art != 1 && e.art != 0 then t == s
            else
              && t.cs == s.cs[i := c.(state := state, oldState := c.state, access := access, oldAccess := c.access)]
              && t.uname == s.uname
              && t.access
                 == if e.fwFresh >= 0 && e.accessUp && access != c.access then s.access[ip := access] else s.access
  {
    hide Granted, FirstIp;
    FirstIpIs(s.cs, ip, i);
    GrantMeaning(s, ip, i, 3, -1, Old, e);
    GrantMeaning(s, ip, i, 2, 1, Old, e);
    GrantMeaning(s, ip, i, 3, 0, Old, e);
  }

  /** A logout clears the store for the address and removes its first client, up
      to the call that fails; it succeeds when none does. */
  lemma LogoutMeaning(s: State, ip: string, i: nat, e: Env)
    requires FirstAt(s.cs, ip, i)
    ensures var t := LoggedOut(s, ip, e);
            if e.fwDeny == -1 || !e.delUp then t == s
            else
              && t.access == s.access - {ip} && t.uname == s.uname - {ip}
              && t.cs == if e.acct == -1 then s.cs else s.cs[..i] + s.cs[i + 1..]
    ensures Deleted(s, ip, e).1 == if e.fwDeny == -1 || !e.delUp || e.acct == -1 then -1 else 0
  {
    hide FirstIp;
    FirstIpIs(s.cs, ip, i);
  }

  /** Refreshes and logouts of an unlisted address change nothing, and its commands
      fail. */
  lemma UnlistedIsIgnored(s: State, ip: string, e: Env)
    requires forall j :: 0 <= j < |s.cs| ==> s.cs[j].ip != ip
    ensures Refreshed(s, ip, e) == s && LoggedOut(s, ip, e) == s && Deleted(s, ip, e).1 == -1
    ensures forall state: int, access: int :: Granted(s, ip, state, access, Old, e) == (s, -1)
  {
  }

  /** One answer of the periodic check, for the client of the address or another. */
  lemma SyncedOneMeaning(s: State, ip: string, i: nat, other: string, e: Env)
    requires FirstAt(s.cs, ip, i)
    ensures var t := SyncedOne(s, other, e);
            && |t.cs| == |s.cs| && FirstAt(t.cs, ip, i)
            && (t.cs[i].state, t.cs[i].access)
               == if other == ip && e.art == 1 then (2, 1) else if other == ip && e.art == 0 then (3, 0)
                  else (s.cs[i].state, s.cs[i].access)
  {
    hide FirstIp, StateAccessSet;
    FirstIpIs(s.cs, ip, i);
    SetKeepsFirst(s.cs, other, FW_MARK_KNOWN, ACCESS_YES, ip);
    SetKeepsFirst(s.cs, other, FW_MARK_JUST_PORTAL, ACCESS_NO, ip);
  }

  predicate Decisive(e: Env) { e.art == 0 || e.art == 1 }

  /** While the server answers, the periodic check leaves a client as the last
      decisive answer for its address says, and as it was without one. */
  lemma {:induction false} SyncedMeaning(s: State, ips: seq<string>, es: seq<Env>, ds: seq<Env>, ip: string, i: nat)
    requires |es| >= |ips| && |ds| >= |s.cs| && FirstAt(s.cs, ip, i)
    requires forall j :: 0 <= j < |ips| ==> es[j].pong == 0
    ensures var t := Synced(s, ips, es, ds);
            && |t.cs| == |s.cs| && FirstAt(t.cs, ip, i)
            && ((forall j :: 0 <= j < |ips| && ips[j] == ip ==> !Decisive(es[j])) ==>
                  t.cs[i].state == s.cs[i].state && t.cs[i].access == s.cs[i].access)
            && forall k :: 0 <= k < |ips| && ips[k] == ip && Decisive(es[k]) ==>
                 (forall j :: k < j < |ips| && ips[j] == ip ==> !Decisive(es[j])) ==>
                 (t.cs[i].state, t.cs[i].access) == if es[k].art == 1 then (2, 1) else (3, 0)
    decreases |ips|
  {
    hide SyncedOne, FirstAt;
    if ips != [] {
      var u := SyncedOne(s, ips[0], es[0]);
      SyncedOneMeaning(s, ip, i, ips[0], es[0]);
      SyncedMeaning(u, ips[1..], es[1..], ds, ip, i);
      assert forall j :: 0 < j < |ips| ==> ips[j] == ips[1..][j - 1] && es[j] == es[1..][j - 1];
    }
  }
}
