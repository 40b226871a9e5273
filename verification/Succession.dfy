/** The successor's client list against the store it starts with. */
module Succession {
  import opened ClientList
  import HandOver
  import Session

  /** The handed clients and a given store. */
  function Succeeded(cs: seq<Client>, access: map<string, int>, uname: map<string, string>): (s: Session.State) {
    Session.State(HandOver.AllHanded(cs), access, uname)
  }

  lemma HandedAccess(c: Client)
    ensures HandOver.Handed(c).access == 0 && HandOver.Handed(c).ip == HandOver.ValuePart(c.ip)
  {
  }

  lemma {:induction false} HandedFirst(cs: seq<Client>, access: map<string, int>, uname: map<string, string>,
                                       ip: string)
    ensures var s := Succeeded(cs, access, uname);
            && (Session.Listed(s, ip) <==> exists i :: 0 <= i < |cs| && HandOver.ValuePart(cs[i].ip) == ip)
            && (Session.Listed(s, ip) ==> Session.FirstClient(s, ip).access == 0)
  {
    hide FirstIp, HandOver.Handed, HandOver.ValuePart;
    var s := Succeeded(cs, access, uname);
    forall i | 0 <= i < |cs|
      ensures s.cs[|cs| - 1 - i].ip == HandOver.ValuePart(cs[i].ip) && s.cs[i].access == 0
    {
      HandedAccess(cs[i]);
      HandedAccess(cs[|cs| - 1 - i]);
    }
    if Session.Listed(s, ip) {
      var k := FirstIp(s.cs, ip);
      HandedAccess(cs[|cs| - 1 - k]);
      assert s.cs[k] == HandOver.Handed(cs[|cs| - 1 - k]);
      assert HandOver.ValuePart(cs[|cs| - 1 - k].ip) == ip;
    }
    if exists i :: 0 <= i < |cs| && HandOver.ValuePart(cs[i].ip) == ip {
      var i :| 0 <= i < |cs| && HandOver.ValuePart(cs[i].ip) == ip;
      assert s.cs[|cs| - 1 - i].ip == ip;
    }
  }

  /** No access is handed over, so every handed client counts as refused: the
      list agrees with a store exactly when that store refuses all of them. */
  lemma {:induction false} HandedAgrees(cs: seq<Client>, access: map<string, int>, uname: map<string, string>)
    ensures var s := Succeeded(cs, access, uname);
            Session.Agrees(s)
            <==> forall i :: 0 <= i < |cs| ==> Session.Stored(s, HandOver.ValuePart(cs[i].ip), Session.ACCESS_NO)
  {
    hide FirstIp, HandOver.Handed, HandOver.ValuePart, HandOver.AllHanded, Session.FirstClient, Session.Listed;
    var s := Succeeded(cs, access, uname);
    forall ip
      ensures Session.AgreesOn(s, ip) <==>
              forall i :: 0 <= i < |cs| && HandOver.ValuePart(cs[i].ip) == ip ==>
                Session.Stored(s, ip, Session.ACCESS_NO)
    {
      HandedFirst(cs, access, uname, ip);
    }
    if Session.Agrees(s) {
      forall i | 0 <= i < |cs|
        ensures Session.Stored(s, HandOver.ValuePart(cs[i].ip), Session.ACCESS_NO)
      {
        assert Session.AgreesOn(s, HandOver.ValuePart(cs[i].ip));
      }
    }
  }

  /** The successor flushes the store: it starts in agreement only without clients. */
  lemma {:induction false} FlushedAgrees(cs: seq<Client>, uname: map<string, string>)
    ensures Session.Agrees(Succeeded(cs, map[], uname)) <==> cs == []
  {
    HandedAgrees(cs, map[], uname);
    if cs != [] {
      assert !Session.Stored(Succeeded(cs, map[], uname), HandOver.ValuePart(cs[0].ip), Session.ACCESS_NO);
    }
  }

  /** A run of refreshes that refuse a handed client never brings the flushed
      store into agreement on it: no access has changed. */
  lemma {:induction false} RefusedStaysOut(cs: seq<Client>, uname: map<string, string>,
                                           run: seq<(string, Session.Env)>, ip: string)
    requires Session.Listed(Succeeded(cs, map[], uname), ip)
    requires forall i :: 0 <= i < |run| && run[i].0 == ip ==>
               Session.AskedBy(run[i].1) == Session.Change(Session.FW_MARK_JUST_PORTAL, Session.ACCESS_NO)
    ensures var t := Session.RefreshedAll(Succeeded(cs, map[], uname), run);
            Session.Listed(t, ip) && !Session.AgreesOn(t, ip)
  {
    hide FirstIp, HandOver.AllHanded, Session.RefreshedAll, Session.FirstFor;
    var s := Succeeded(cs, map[], uname);
    HandedFirst(cs, map[], uname, ip);
    Session.MissedIsKept(s, run, ip, Session.ACCESS_NO);
  }
}
