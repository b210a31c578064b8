/**
 * Importing hosts from a deposit: a host used by domains of several registrars is created once per
 * registrar.
 */
module Escrow {
  import opened Text
  import Hosts

  datatype Command = Command(
    roID: string,
    name: string,
    addresses: seq<string>,
    clID: string,
    crRr: string,
    upRr: string,
    status: Hosts.HostStatus)

  /** A row of the nameserver file. */
  datatype Usage = Usage(domain: string, host: string)

  /** A row of the domain file. */
  datatype DomainRow = DomainRow(name: string, clID: string)

  function Undotted(s: string): string { Trim(s, '.') }

  /** The domains that use a host, in file order. */
  function Users(usages: seq<Usage>, host: string): seq<string> {
    if usages == [] then []
    else
      var init, last := usages[..|usages| - 1], usages[|usages| - 1];
      Users(init, host) + (if Undotted(last.host) == host then [Undotted(last.domain)] else [])
  }

  /** The last row of a domain decides; a domain without a row has the empty registrar. */
  function RegistrarOf(rows: seq<DomainRow>, domain: string): string {
    if rows == [] then ""
    else
      var last := rows[|rows| - 1];
      if Undotted(last.name) == domain then last.clID else RegistrarOf(rows[..|rows| - 1], domain)
  }

  function Registrars(rows: seq<DomainRow>, domains: seq<string>): seq<string> {
    seq(|domains|, i requires 0 <= i < |domains| => RegistrarOf(rows, domains[i]))
  }

  /** The first occurrence of each text. */
  function Firsts(s: seq<string>): seq<string> {
    if s == [] then []
    else
      var kept, last := Firsts(s[..|s| - 1]), s[|s| - 1];
      if last in kept then kept else kept + [last]
  }

  function Replaced(rr: string, sponsor: string, clid: string): string {
    if rr != "" && rr != sponsor then clid else rr
  }

  /** The same host for another registrar. */
  function Copy(cmd: Command, clid: string): Command {
    cmd.(clID := clid, crRr := Replaced(cmd.crRr, cmd.clID, clid), upRr := Replaced(cmd.upRr, cmd.clID, clid))
  }

  function Copies(cmd: Command, clids: seq<string>): seq<Command> {
    if clids == [] then []
    else
      var last := clids[|clids| - 1];
      Copies(cmd, clids[..|clids| - 1]) + (if last == cmd.clID then [] else [Copy(cmd, last)])
  }

  function CopiesFor(cmd: Command, usages: seq<Usage>, rows: seq<DomainRow>): seq<Command> {
    Copies(cmd, Firsts(Registrars(rows, Users(usages, cmd.name))))
  }

  function NewCommands(cmds: seq<Command>, usages: seq<Usage>, rows: seq<DomainRow>): seq<Command> {
    if cmds == [] then []
    else NewCommands(cmds[..|cmds| - 1], usages, rows) + CopiesFor(cmds[|cmds| - 1], usages, rows)
  }

  method RemoveDuplicates(s: seq<string>) returns (result: seq<string>)
    ensures result == Firsts(s)
  {
    var bucket: map<string, bool> := map[];
    result := [];
    for i := 0 to |s|
      invariant result == Firsts(s[..i])
      invariant forall x :: x in bucket <==> x in result
    {
      assert s[..i + 1][..i] == s[..i];
      if s[i] !in bucket {
        bucket := bucket[s[i] := true];
        result := result + [s[i]];
      }
    }
    assert s[..|s|] == s;
  }

  method HostDomainMap(usages: seq<Usage>) returns (m: map<string, seq<string>>)
    ensures forall h :: (h in m <==> Users(usages, h) != []) && (h in m ==> m[h] == Users(usages, h))
  {
    m := map[];
    for i := 0 to |usages|
      invariant forall h :: h in m <==> Users(usages[..i], h) != []
      invariant forall h :: h in m ==> m[h] == Users(usages[..i], h)
    {
      assert usages[..i + 1][..i] == usages[..i];
      var host, domain := Undotted(usages[i].host), Undotted(usages[i].domain);
      m := m[host := (if host in m then m[host] else []) + [domain]];
    }
    assert usages[..|usages|] == usages;
  }

  method DomainClidMap(rows: seq<DomainRow>) returns (m: map<string, string>)
    ensures forall d :: (if d in m then m[d] else "") == RegistrarOf(rows, d)
  {
    m := map[];
    for i := 0 to |rows|
      invariant forall d :: (if d in m then m[d] else "") == RegistrarOf(rows[..i], d)
    {
      assert rows[..i + 1][..i] == rows[..i];
      m := m[Undotted(rows[i].name) := rows[i].clID];
    }
    assert rows[..|rows|] == rows;
  }

  lemma OneMoreCommand(cmds: seq<Command>, usages: seq<Usage>, rows: seq<DomainRow>, i: nat)
    requires i < |cmds|
    ensures NewCommands(cmds[..i + 1], usages, rows) == NewCommands(cmds[..i], usages, rows) + CopiesFor(cmds[i], usages, rows)
  {
    assert cmds[..i + 1][..i] == cmds[..i];
  }

  lemma OneMoreCopy(cmd: Command, clids: seq<string>, j: nat)
    requires j < |clids|
    ensures Copies(cmd, clids[..j + 1]) == Copies(cmd, clids[..j]) + (if clids[j] == cmd.clID then [] else [Copy(cmd, clids[j])])
  {
    assert clids[..j + 1][..j] == clids[..j];
  }

  lemma NoCommands(usages: seq<Usage>, rows: seq<DomainRow>)
    ensures NewCommands([], usages, rows) == []
  {
  }

  lemma NoCopies(cmd: Command)
    ensures Firsts([]) == [] && Copies(cmd, []) == []
  {
  }

  method DuplicateHostCommands(cmds: seq<Command>, usages: seq<Usage>, rows: seq<DomainRow>) returns (out: seq<Command>)
    ensures out == cmds + NewCommands(cmds, usages, rows)
  {
    hide Users, RegistrarOf, Firsts, Undotted, Copies, NewCommands;
    var hostDomainMap := HostDomainMap(usages);
    var domainClidMap := DomainClidMap(rows);
    var newCmds: seq<Command> := [];
    NoCommands(usages, rows);
    for i := 0 to |cmds|
      invariant newCmds == NewCommands(cmds[..i], usages, rows)
    {
      OneMoreCommand(cmds, usages, rows, i);
      if cmds[i].name !in hostDomainMap {
        assert Registrars(rows, []) == [];
        NoCopies(cmds[i]);
        continue;
      }
      var domains := hostDomainMap[cmds[i].name];
      var domainClids: seq<string> := [];
      for j := 0 to |domains|
        invariant domainClids == Registrars(rows, domains[..j])
      {
        domainClids := domainClids + [if domains[j] in domainClidMap then domainClidMap[domains[j]] else ""];
      }
      assert domains[..|domains|] == domains;
      domainClids := RemoveDuplicates(domainClids);
      if |domainClids| == 1 && domainClids[0] == cmds[i].clID {
        NoCopies(cmds[i]);
        assert domainClids[..0] == [] && domainClids[..1] == domainClids;
        OneMoreCopy(cmds[i], domainClids, 0);
        continue;
      }
      var before := newCmds;
      NoCopies(cmds[i]);
      for j := 0 to |domainClids|
        invariant newCmds == before + Copies(cmds[i], domainClids[..j])
      {
        OneMoreCopy(cmds[i], domainClids, j);
        var clid := domainClids[j];
        if clid == cmds[i].clID {
          continue;
        }
        var newCmd := cmds[i].(clID := clid);
        if newCmd.crRr != "" && newCmd.crRr != cmds[i].clID {
          newCmd := newCmd.(crRr := clid);
        }
        if newCmd.upRr != "" && newCmd.upRr != cmds[i].clID {
          newCmd := newCmd.(upRr := clid);
        }
        newCmds := newCmds + [newCmd];
      }
      assert domainClids[..|domainClids|] == domainClids;
    }
    assert cmds[..|cmds|] == cmds;
    out := cmds + newCmds;
  }

  // --- What is created ------------------------------------------------------------------------

  predicate Distinct(s: seq<string>) {
    forall i, j :: 0 <= i < j < |s| ==> s[i] != s[j]
  }

  /** The first occurrences are the same texts, each once. */
  lemma {:induction false} FirstsExact(s: seq<string>)
    ensures Distinct(Firsts(s))
    ensures forall x :: x in Firsts(s) <==> x in s
  {
    if s != [] {
      var init, last := s[..|s| - 1], s[|s| - 1];
      FirstsExact(init);
      assert s == init + [last];
    }
  }

  /** They come in the order in which they first appear. */
  lemma {:induction false} FirstsInOrder(s: seq<string>, k: nat)
    requires k <= |s|
    ensures Firsts(s[..k]) <= Firsts(s)
  {
    if k < |s| {
      FirstsInOrder(s[..|s| - 1], k);
      assert s[..|s| - 1][..k] == s[..k];
    } else {
      assert s[..k] == s;
    }
  }

  /** A domain of the registrar uses the host. */
  ghost predicate Uses(usages: seq<Usage>, rows: seq<DomainRow>, host: string, clid: string) {
    exists i :: 0 <= i < |usages| && Undotted(usages[i].host) == host && RegistrarOf(rows, Undotted(usages[i].domain)) == clid
  }

  lemma {:induction false} UsersExact(usages: seq<Usage>, host: string, domain: string)
    ensures domain in Users(usages, host)
            <==> exists i :: 0 <= i < |usages| && Undotted(usages[i].host) == host && Undotted(usages[i].domain) == domain
  {
    if usages != [] {
      var init := usages[..|usages| - 1];
      UsersExact(init, host, domain);
      assert forall i :: 0 <= i < |init| ==> usages[i] == init[i];
    }
  }

  lemma RegistrarsExact(usages: seq<Usage>, rows: seq<DomainRow>, host: string, clid: string)
    ensures clid in Firsts(Registrars(rows, Users(usages, host))) <==> Uses(usages, rows, host, clid)
  {
    var domains := Users(usages, host);
    FirstsExact(Registrars(rows, domains));
    if clid in Registrars(rows, domains) {
      var i :| 0 <= i < |domains| && RegistrarOf(rows, domains[i]) == clid;
      UsersExact(usages, host, domains[i]);
    }
    if i :| 0 <= i < |usages| && Undotted(usages[i].host) == host && RegistrarOf(rows, Undotted(usages[i].domain)) == clid {
      UsersExact(usages, host, Undotted(usages[i].domain));
      var j :| 0 <= j < |domains| && domains[j] == Undotted(usages[i].domain);
      assert Registrars(rows, domains)[j] == clid;
    }
  }

  lemma {:induction false} CopiesExact(cmd: Command, clids: seq<string>, c: Command)
    ensures c in Copies(cmd, clids) <==> c.clID in clids && c.clID != cmd.clID && c == Copy(cmd, c.clID)
  {
    if clids != [] {
      assert clids == clids[..|clids| - 1] + [clids[|clids| - 1]];
      CopiesExact(cmd, clids[..|clids| - 1], c);
    }
  }

  /** A command asks for a copy for every other registrar with a domain on that host. */
  ghost predicate Wanted(cmd: Command, usages: seq<Usage>, rows: seq<DomainRow>, c: Command) {
    Uses(usages, rows, cmd.name, c.clID) && c.clID != cmd.clID && c == Copy(cmd, c.clID)
  }

  lemma CopiesForExact(cmd: Command, usages: seq<Usage>, rows: seq<DomainRow>, c: Command)
    ensures c in CopiesFor(cmd, usages, rows) <==> Wanted(cmd, usages, rows, c)
  {
    CopiesExact(cmd, Firsts(Registrars(rows, Users(usages, cmd.name))), c);
    RegistrarsExact(usages, rows, cmd.name, c.clID);
  }

  /** The new commands are exactly the wanted copies. */
  lemma {:induction false} NewCommandsExact(cmds: seq<Command>, usages: seq<Usage>, rows: seq<DomainRow>, c: Command)
    ensures c in NewCommands(cmds, usages, rows) <==> exists i :: 0 <= i < |cmds| && Wanted(cmds[i], usages, rows, c)
  {
    hide Wanted, CopiesFor;
    if cmds != [] {
      var init := cmds[..|cmds| - 1];
      NewCommandsExact(init, usages, rows, c);
      CopiesForExact(cmds[|cmds| - 1], usages, rows, c);
      assert forall i :: 0 <= i < |init| ==> cmds[i] == init[i];
    }
  }

  /**
   * Every link is covered: whatever domain uses a host with a command, a command creates that host
   * for the domain's registrar, with the same addresses and flags (and the same RoID).
   */
  lemma EveryLinkIsCovered(cmds: seq<Command>, usages: seq<Usage>, rows: seq<DomainRow>, i: nat, j: nat)
    requires i < |cmds| && j < |usages| && Undotted(usages[j].host) == cmds[i].name
    ensures exists c :: c in cmds + NewCommands(cmds, usages, rows)
              && c == cmds[i].(clID := RegistrarOf(rows, Undotted(usages[j].domain)), crRr := c.crRr, upRr := c.upRr)
  {
    var clid := RegistrarOf(rows, Undotted(usages[j].domain));
    assert Uses(usages, rows, cmds[i].name, clid);
    if clid == cmds[i].clID {
      assert cmds[i] in cmds + NewCommands(cmds, usages, rows);
    } else {
      var c := Copy(cmds[i], clid);
      NewCommandsExact(cmds, usages, rows, c);
      assert Wanted(cmds[i], usages, rows, c);
      assert c in cmds + NewCommands(cmds, usages, rows);
    }
  }

  /** Dots around a name do not count. */
  lemma DotsDoNotCount(left: string, name: string, right: string)
    requires Only(left, '.') && Only(right, '.') && name != [] && !Outer(name, '.')
    ensures Undotted(left + name + right) == name
  {
    TrimsTo(left, name, right, '.');
  }

  /** The last row of a domain gives its registrar, and a domain without a row has the empty one. */
  lemma {:induction false} RegistrarOfExact(rows: seq<DomainRow>, domain: string, i: int)
    requires -1 <= i < |rows| && (i >= 0 ==> Undotted(rows[i].name) == domain)
    requires forall j :: i < j < |rows| ==> Undotted(rows[j].name) != domain
    ensures RegistrarOf(rows, domain) == if i >= 0 then rows[i].clID else ""
    decreases |rows|
  {
    hide Undotted;
    if i < |rows| - 1 {
      RegistrarOfExact(rows[..|rows| - 1], domain, i);
    }
  }

  /**
   * Field by field, what a new command says: it is for the other registrar, who also stands in for a
   * creator or updater other than the old sponsor; everything else is the old command's.
   */
  lemma NewCommandFields(cmds: seq<Command>, usages: seq<Usage>, rows: seq<DomainRow>, c: Command) returns (i: nat)
    requires c in NewCommands(cmds, usages, rows)
    ensures i < |cmds| && c.clID != cmds[i].clID
    ensures c == cmds[i].(clID := c.clID, crRr := c.crRr, upRr := c.upRr)
    ensures c.crRr == if cmds[i].crRr in {"", cmds[i].clID} then cmds[i].crRr else c.clID
    ensures c.upRr == if cmds[i].upRr in {"", cmds[i].clID} then cmds[i].upRr else c.clID
    ensures exists j :: 0 <= j < |usages| && Undotted(usages[j].host) == c.name
              && RegistrarOf(rows, Undotted(usages[j].domain)) == c.clID
  {
    hide NewCommands, Users, RegistrarOf, Undotted;
    NewCommandsExact(cmds, usages, rows, c);
    i :| 0 <= i < |cmds| && Wanted(cmds[i], usages, rows, c);
  }

  // --- No host twice for a registrar ----------------------------------------------------------

  predicate SameHost(a: Command, b: Command) { a.name == b.name && a.clID == b.clID }

  predicate NoRepeats(s: seq<Command>) {
    forall i, j :: 0 <= i < j < |s| ==> !SameHost(s[i], s[j])
  }

  /** Commands for the same name are for different registrars, and only for hosts that no domain uses. */
  ghost predicate RepeatsAreUnused(cmds: seq<Command>, usages: seq<Usage>) {
    forall i, j :: 0 <= i < j < |cmds| && cmds[i].name == cmds[j].name ==>
      cmds[i].clID != cmds[j].clID && Users(usages, cmds[i].name) == []
  }

  lemma {:induction false} CopiesDoNotRepeat(cmd: Command, clids: seq<string>)
    requires Distinct(clids)
    ensures NoRepeats(Copies(cmd, clids))
  {
    if clids != [] {
      var init := clids[..|clids| - 1];
      CopiesDoNotRepeat(cmd, init);
      forall c | c in Copies(cmd, init)
        ensures c.clID in init
      {
        CopiesExact(cmd, init, c);
      }
    }
  }

  lemma UsedHasUsers(usages: seq<Usage>, rows: seq<DomainRow>, host: string)
    ensures (exists clid :: Uses(usages, rows, host, clid)) <==> Users(usages, host) != []
  {
    var domains := Users(usages, host);
    if domains != [] {
      UsersExact(usages, host, domains[0]);
      assert Uses(usages, rows, host, RegistrarOf(rows, domains[0]));
    }
    if clid :| Uses(usages, rows, host, clid) {
      var i :| 0 <= i < |usages| && Undotted(usages[i].host) == host && RegistrarOf(rows, Undotted(usages[i].domain)) == clid;
      UsersExact(usages, host, Undotted(usages[i].domain));
    }
  }

  lemma {:induction false} NewCommandsDoNotRepeat(cmds: seq<Command>, usages: seq<Usage>, rows: seq<DomainRow>)
    requires RepeatsAreUnused(cmds, usages)
    ensures NoRepeats(NewCommands(cmds, usages, rows))
  {
    if cmds != [] {
      var init, last := cmds[..|cmds| - 1], cmds[|cmds| - 1];
      assert forall i :: 0 <= i < |init| ==> init[i] == cmds[i];
      NewCommandsDoNotRepeat(init, usages, rows);
      FirstsExact(Registrars(rows, Users(usages, last.name)));
      CopiesDoNotRepeat(last, Firsts(Registrars(rows, Users(usages, last.name))));
      forall a, b | a in NewCommands(init, usages, rows) && b in CopiesFor(last, usages, rows)
        ensures !SameHost(a, b)
      {
        NewCommandsExact(init, usages, rows, a);
        CopiesForExact(last, usages, rows, b);
        UsedHasUsers(usages, rows, last.name);
      }
    }
  }

  lemma {:induction false} EarlierCommandsFirst(cmds: seq<Command>, usages: seq<Usage>, rows: seq<DomainRow>, j: nat)
    requires j <= |cmds|
    ensures NewCommands(cmds[..j], usages, rows) <= NewCommands(cmds, usages, rows)
  {
    if j < |cmds| {
      EarlierCommandsFirst(cmds[..|cmds| - 1], usages, rows, j);
      assert cmds[..|cmds| - 1][..j] == cmds[..j];
    } else {
      assert cmds[..j] == cmds;
    }
  }

  /** Two commands for one used host always end in two commands for one registrar. */
  lemma UsedTwiceRepeats(cmds: seq<Command>, usages: seq<Usage>, rows: seq<DomainRow>, i: nat, j: nat, clid: string)
    requires i < j < |cmds| && cmds[i].name == cmds[j].name && Uses(usages, rows, cmds[i].name, clid)
    ensures !NoRepeats(cmds + NewCommands(cmds, usages, rows))
  {
    hide Uses, Users, RegistrarOf, NewCommands;
    var news := NewCommands(cmds, usages, rows);
    var a, b := Copy(cmds[i], clid), Copy(cmds[j], clid);
    if clid == cmds[i].clID == cmds[j].clID {
      assert SameHost((cmds + news)[i], (cmds + news)[j]);
    } else if clid == cmds[i].clID {
      assert Wanted(cmds[j], usages, rows, b);
      NewCommandsExact(cmds, usages, rows, b);
      var q :| 0 <= q < |news| && news[q] == b;
      assert SameHost((cmds + news)[i], (cmds + news)[|cmds| + q]);
    } else if clid == cmds[j].clID {
      assert Wanted(cmds[i], usages, rows, a);
      NewCommandsExact(cmds, usages, rows, a);
      var p :| 0 <= p < |news| && news[p] == a;
      assert SameHost((cmds + news)[j], (cmds + news)[|cmds| + p]);
    } else {
      BothAreCopied(cmds, usages, rows, i, j, clid);
    }
  }

  lemma BothAreCopied(cmds: seq<Command>, usages: seq<Usage>, rows: seq<DomainRow>, i: nat, j: nat, clid: string)
    requires i < j < |cmds| && cmds[i].name == cmds[j].name && Uses(usages, rows, cmds[i].name, clid)
    requires clid != cmds[i].clID && clid != cmds[j].clID
    ensures !NoRepeats(cmds + NewCommands(cmds, usages, rows))
  {
    hide Uses, Users, RegistrarOf, CopiesFor, NewCommands;
    var news := NewCommands(cmds, usages, rows);
    var a, b := Copy(cmds[i], clid), Copy(cmds[j], clid);
    var early, own := NewCommands(cmds[..j], usages, rows), CopiesFor(cmds[j], usages, rows);
    OneMoreCommand(cmds, usages, rows, j);
    EarlierCommandsFirst(cmds, usages, rows, j + 1);
    assert Wanted(cmds[..j][i], usages, rows, a);
    NewCommandsExact(cmds[..j], usages, rows, a);
    CopiesForExact(cmds[j], usages, rows, b);
    var p :| 0 <= p < |early| && early[p] == a;
    var q :| 0 <= q < |own| && own[q] == b;
    assert (early + own)[p] == news[p] && (early + own)[|early| + q] == news[|early| + q];
    assert SameHost((cmds + news)[|cmds| + p], (cmds + news)[|cmds| + |early| + q]);
  }

  /**
   * No host is created twice for one registrar exactly when commands with the same name are for
   * different registrars and for hosts that no domain uses; different names are enough.
   */
  lemma NoRepeatsExactly(cmds: seq<Command>, usages: seq<Usage>, rows: seq<DomainRow>)
    ensures NoRepeats(cmds + NewCommands(cmds, usages, rows)) <==> RepeatsAreUnused(cmds, usages)
  {
    hide Uses, Users, NewCommands;
    var news := NewCommands(cmds, usages, rows);
    var out := cmds + news;
    if RepeatsAreUnused(cmds, usages) {
      NewCommandsDoNotRepeat(cmds, usages, rows);
      forall i, c | 0 <= i < |cmds| && c in news
        ensures !SameHost(cmds[i], c)
      {
        NewCommandsExact(cmds, usages, rows, c);
        UsedHasUsers(usages, rows, c.name);
      }
      forall i, j | 0 <= i < j < |out|
        ensures !SameHost(out[i], out[j])
      {
        if j < |cmds| {
          assert out[i] == cmds[i] && out[j] == cmds[j];
        } else if i >= |cmds| {
          assert out[i] == news[i - |cmds|] && out[j] == news[j - |cmds|];
        } else {
          assert out[j] == news[j - |cmds|] && out[j] in news;
        }
      }
    } else {
      var i, j :| 0 <= i < j < |cmds| && cmds[i].name == cmds[j].name
                  && !(cmds[i].clID != cmds[j].clID && Users(usages, cmds[i].name) == []);
      if cmds[i].clID == cmds[j].clID {
        assert SameHost(out[i], out[j]);
      } else {
        UsedHasUsers(usages, rows, cmds[i].name);
        var clid :| Uses(usages, rows, cmds[i].name, clid);
        UsedTwiceRepeats(cmds, usages, rows, i, j, clid);
      }
    }
  }
}
