/** Topology safety checks of `ipa-replica-manage` on a domain without
    managed topology: the orphan test run before a master is deleted
    (`check_last_link`), the last-CA / last-DNS test and the choice of a CA
    fallback host (`ensure_last_services`), the refusal to delete a host's
    last replication link (`del_link`) and the decisions of
    `del_master_direct` up to the list of peers whose agreements with the
    deleted master are removed. */
module Topology {
  import opened Basics
  import opened Text
  import opened DnaRange

  predicate Distinct(s: seq<string>) {
    forall i, j :: 0 <= i < j < |s| ==> s[i] != s[j]
  }

  // ---------------------------------------------------------------------
  // check_last_link

  /** What connecting to one agreement partner of the deleted master gave:
      the hosts of its own IPA agreements, or a network error together with
      the answer to "Continue to delete?". */
  datatype NeighbourView = Reachable(agreements: seq<string>) | Unreachable(confirmed: bool)

  datatype Neighbour = Neighbour(name: string, view: NeighbourView)

  /** A neighbour is orphaned when its only agreement is with the deleted
      master. */
  predicate Orphaned(n: Neighbour, deleted: string) {
    n.view.Reachable? && n.view.agreements == [deleted]
  }

  /** The orphaned neighbours, in the order they are visited. */
  function OrphanedNames(ns: seq<Neighbour>, deleted: string): (r: seq<string>)
    ensures forall x :: x in r <==> exists i :: 0 <= i < |ns| && ns[i].name == x && Orphaned(ns[i], deleted)
  {
    if |ns| == 0 then []
    else
      var init := OrphanedNames(ns[..|ns| - 1], deleted);
      var r := init + (if Orphaned(ns[|ns| - 1], deleted) then [ns[|ns| - 1].name] else []);
      assert forall i :: 0 <= i < |ns| - 1 ==> ns[..|ns| - 1][i] == ns[i];
      r
  }

  /** A neighbour that cannot be reached stops the deletion unless it is
      forced or the user confirms. */
  predicate Stops(n: Neighbour, force: bool) {
    n.view.Unreachable? && !force && !n.view.confirmed
  }

  /** `check_last_link`: the ', '-joined names of the orphaned neighbours,
      None when there are none; Err when an unreachable neighbour stops the
      deletion ("Aborted"). */
  method CheckLastLink(deleted: string, ns: seq<Neighbour>, force: bool) returns (r: Result<Option<string>, ()>)
    ensures r.Err? <==> exists i :: 0 <= i < |ns| && Stops(ns[i], force)
    ensures r.Ok? ==> r.value == (if |OrphanedNames(ns, deleted)| == 0 then None
                                  else Some(Join(OrphanedNames(ns, deleted), ", ")))
  {
    var orphaned: seq<string> := [];
    var i := 0;
    while i < |ns|
      invariant 0 <= i <= |ns|
      invariant orphaned == OrphanedNames(ns[..i], deleted)
      invariant forall k :: 0 <= k < i ==> !Stops(ns[k], force)
    {
      var n := ns[i];
      assert ns[..i + 1][..i] == ns[..i];
      match n.view {
        case Unreachable(confirmed) =>
          if !force && !confirmed {
            return Err(());
          }
        case Reachable(names) =>
          if |names| == 1 && names[0] == deleted {
            orphaned := orphaned + [n.name];
          }
      }
      i := i + 1;
    }
    assert ns[..i] == ns;
    if |orphaned| > 0 {
      r := Ok(Some(Join(orphaned, ", ")));
    } else {
      r := Ok(None);
    }
  }

  /** The example of the comment of `check_last_link`: in the chain
      B - D - C - A, deleting D orphans B but not C. */
  lemma CheckLastLinkExample()
    ensures OrphanedNames([Neighbour("B", Reachable(["D"])), Neighbour("C", Reachable(["A", "D"]))], "D") == ["B"]
  {
    var ns := [Neighbour("B", Reachable(["D"])), Neighbour("C", Reachable(["A", "D"]))];
    assert ns[..1] == [ns[0]];
    assert ns[..1][..0] == [];
    assert !Orphaned(ns[1], "D") by {
      assert ns[1].view.agreements != ["D"] by {
        assert |ns[1].view.agreements| == 2;
      }
    }
  }

  // ---------------------------------------------------------------------
  // ensure_last_services

  /** One master as `ensure_last_services` sees it: the cn of the services
      under its entry, None when the search finds nothing. */
  datatype MasterServices = MasterServices(name: string, services: Option<seq<string>>)

  datatype ServicesError =
    | LastCa            // "... would leave your installation without a CA.", exit 1
    | DnsDeletionAborted // "Deletion aborted"

  /** `this_services`, `other_services` and `ca_hostname`. */
  datatype Services = Services(own: seq<string>, others: seq<seq<string>>, caHost: Option<string>)

  /** The services of the master being deleted (the last listing under its
      name wins, [] when there is none). */
  function ThisServices(ms: seq<MasterServices>, hostname: string): seq<string> {
    if |ms| == 0 then []
    else
      var m := ms[|ms| - 1];
      if m.services.Some? && m.name == hostname then m.services.value
      else ThisServices(ms[..|ms| - 1], hostname)
  }

  /** The service lists of the other masters, in order. */
  function OtherServices(ms: seq<MasterServices>, hostname: string): seq<seq<string>> {
    if |ms| == 0 then []
    else
      var m := ms[|ms| - 1];
      OtherServices(ms[..|ms| - 1], hostname) +
        (if m.services.Some? && m.name != hostname then [m.services.value] else [])
  }

  /** Another master that runs `service`. */
  predicate Provides(m: MasterServices, hostname: string, service: string) {
    m.services.Some? && m.name != hostname && service in m.services.value
  }

  /** The first other master that runs a CA. */
  function FirstCaHost(ms: seq<MasterServices>, hostname: string): Option<string> {
    if |ms| == 0 then None
    else
      var before := FirstCaHost(ms[..|ms| - 1], hostname);
      if before.Some? then before
      else if Provides(ms[|ms| - 1], hostname, "CA") then Some(ms[|ms| - 1].name)
      else None
  }

  predicate AnyHas(lists: seq<seq<string>>, service: string) {
    exists i :: 0 <= i < |lists| && service in lists[i]
  }

  lemma {:induction false} OtherServicesProvide(ms: seq<MasterServices>, hostname: string, service: string)
    ensures AnyHas(OtherServices(ms, hostname), service) <==> exists i :: 0 <= i < |ms| && Provides(ms[i], hostname, service)
  {
    if |ms| > 0 {
      var init := ms[..|ms| - 1];
      OtherServicesProvide(init, hostname, service);
      var o := OtherServices(ms, hostname);
      var oi := OtherServices(init, hostname);
      assert forall i :: 0 <= i < |oi| ==> o[i] == oi[i];
      assert forall i :: 0 <= i < |ms| - 1 ==> init[i] == ms[i];
      if Provides(ms[|ms| - 1], hostname, service) {
        assert o[|oi|] == ms[|ms| - 1].services.value;
      }
      if AnyHas(o, service) && !AnyHas(oi, service) {
        var i :| 0 <= i < |o| && service in o[i];
        assert i == |oi|;
        assert Provides(ms[|ms| - 1], hostname, service);
      }
    }
  }

  /** The CA fallback host is the first other master running a CA; there is
      none exactly when no other master runs one. */
  lemma {:induction false} FirstCaHostIsFirst(ms: seq<MasterServices>, hostname: string)
    ensures FirstCaHost(ms, hostname).None? <==> forall i :: 0 <= i < |ms| ==> !Provides(ms[i], hostname, "CA")
    ensures FirstCaHost(ms, hostname).Some? ==>
      exists i :: 0 <= i < |ms| && ms[i].name == FirstCaHost(ms, hostname).value && Provides(ms[i], hostname, "CA") &&
        forall j :: 0 <= j < i ==> !Provides(ms[j], hostname, "CA")
  {
    if |ms| > 0 {
      var init := ms[..|ms| - 1];
      FirstCaHostIsFirst(init, hostname);
      assert forall i :: 0 <= i < |ms| - 1 ==> init[i] == ms[i];
    }
  }

  /** `ensure_last_services` without its DNSSEC and renewal-master steps:
      gather the services of every master, refuse to delete the last CA, and
      stop on the last DNS server unless forced or confirmed. */
  method EnsureLastServices(hostname: string, ms: seq<MasterServices>, force: bool, confirmed: bool)
    returns (r: Result<Services, ServicesError>)
    ensures var s := Services(ThisServices(ms, hostname), OtherServices(ms, hostname), FirstCaHost(ms, hostname));
      r == (if "CA" in s.own && !AnyHas(s.others, "CA") then Err(LastCa)
            else if "DNS" in s.own && !AnyHas(s.others, "DNS") && !force && !confirmed then Err(DnsDeletionAborted)
            else Ok(s))
  {
    var own: seq<string> := [];
    var others: seq<seq<string>> := [];
    var caHost: Option<string> := None;
    var i := 0;
    while i < |ms|
      invariant 0 <= i <= |ms|
      invariant own == ThisServices(ms[..i], hostname)
      invariant others == OtherServices(ms[..i], hostname)
      invariant caHost == FirstCaHost(ms[..i], hostname)
    {
      var m := ms[i];
      assert ms[..i + 1][..i] == ms[..i];
      if m.services.Some? {
        var cns := m.services.value;
        if m.name == hostname {
          own := cns;
        } else {
          others := others + [cns];
          if caHost.None? && "CA" in cns {
            caHost := Some(m.name);
          }
        }
      }
      i := i + 1;
    }
    assert ms[..i] == ms;
    var anyCa := AnyHasMethod(others, "CA");
    if "CA" in own && !anyCa {
      return Err(LastCa);
    }
    var anyDns := AnyHasMethod(others, "DNS");
    if "DNS" in own && !anyDns && !force && !confirmed {
      return Err(DnsDeletionAborted);
    }
    r := Ok(Services(own, others, caHost));
  }

  /** `any([service in o for o in lists])`. */
  method AnyHasMethod(lists: seq<seq<string>>, service: string) returns (b: bool)
    ensures b <==> AnyHas(lists, service)
  {
    b := false;
    var i := 0;
    while i < |lists|
      invariant 0 <= i <= |lists|
      invariant b <==> exists k :: 0 <= k < i && service in lists[k]
    {
      if service in lists[i] {
        b := true;
      }
      i := i + 1;
    }
  }

  /** The last CA is never deleted: the last-CA refusal fires exactly when
      the deleted master runs a CA and no fallback CA host is found, so a
      CA master that is deleted always leaves a fallback CA host. */
  lemma LastCaProtected(hostname: string, ms: seq<MasterServices>)
    ensures ("CA" in ThisServices(ms, hostname) && !AnyHas(OtherServices(ms, hostname), "CA")) <==>
            ("CA" in ThisServices(ms, hostname) && FirstCaHost(ms, hostname).None?)
  {
    OtherServicesProvide(ms, hostname, "CA");
    FirstCaHostIsFirst(ms, hostname);
  }

  // ---------------------------------------------------------------------
  // del_link

  datatype ReplicaKind = IpaReplica | Winsync

  /** The outcome of `get_agreement_type` on the first host. */
  datatype TypeLookup = TypeFound(t: ReplicaKind) | NoAgreement | LookupRaised

  /** Connecting to the second host and listing its IPA agreements. */
  datatype PeerView =
    | PeerListed(count: nat)
    | PeerConnectFailed(notFound: bool)   // repl2 stays None
    | PeerListFailed(notFound: bool)      // repl2 is connected

  /** The steps on the second host before its agreement is deleted: either
      something fails before its DNA ranges are read, or the current and
      next range are read and the rest of the steps succeed or raise. */
  datatype Handoff =
    | RaisedBeforeRanges
    | RangesRead(range: Option<Interval>, next: Option<Interval>, laterRaise: bool)

  datatype Refusal =
    | NoAgreementFound     // "'A' has no replication agreement for 'B'"
    | TypeUnknown          // the agreement type could not be determined
    | LastLinkOfFirst      // "Cannot remove the last replication link of 'A'"
    | LastLinkOfSecond     // "Cannot remove the last replication link of 'B'"
    | PeerUnavailable      // the second host could not be read
    | HandoffFailed        // "Unable to remove agreement on 'B'"

  datatype DelLinkOutcome =
    | Deleted(handovers: seq<Handover>)
    | Refused(why: Refusal)
    | ManagedTopologyExit
    | Crash                // the as-written code reaches an unbound name

  /** The first step of `del_link` as written: a lookup that raises
      something other than NotFound is reported and execution goes on with
      `type1` unbound. */
  function AgreementKindAsWritten(lookup: TypeLookup, managed: bool): Result<ReplicaKind, DelLinkOutcome> {
    match lookup
    case NoAgreement => if managed then Err(ManagedTopologyExit) else Err(Refused(NoAgreementFound))
    case LookupRaised => Err(Crash)
    case TypeFound(t) => if t == IpaReplica && managed then Err(ManagedTopologyExit) else Ok(t)
  }

  /** The first step of `del_link` as evidently intended: a lookup failure
      refuses the deletion like a missing agreement does. */
  function AgreementKind(lookup: TypeLookup, managed: bool): (r: Result<ReplicaKind, DelLinkOutcome>)
    ensures r != Err(Crash)
    ensures lookup != LookupRaised ==> r == AgreementKindAsWritten(lookup, managed)
    ensures r.Ok? <==> lookup.TypeFound? && !(lookup.t == IpaReplica && managed)
  {
    match lookup
    case NoAgreement => if managed then Err(ManagedTopologyExit) else Err(Refused(NoAgreementFound))
    case LookupRaised => Err(Refused(TypeUnknown))
    case TypeFound(t) => if t == IpaReplica && managed then Err(ManagedTopologyExit) else Ok(t)
  }

  /** A lookup error (a directory server that fails while the agreement
      type is read) makes the code as written reach an unbound `type1`. */
  lemma AgreementKindAsWrittenCrashes(managed: bool)
    ensures AgreementKindAsWritten(LookupRaised, managed) == Err(Crash)
    ensures AgreementKind(LookupRaised, managed) == Err(Refused(TypeUnknown))
  {
  }

  /** The master `store_DNA_range` handed a range to now has an on-deck range
      and is passed over by the next call. */
  function AfterHandover(cs: seq<Candidate>, h: Handover, iv: Interval): (r: seq<Candidate>)
    ensures |r| == |cs|
    ensures forall i :: 0 <= i < |cs| ==> r[i].name == cs[i].name
    ensures forall i :: 0 <= i < |cs| && !(h.HandedTo? && h.saved && cs[i].name == h.host && cs[i].view.OnDeck?) ==>
              r[i] == cs[i]
    ensures h.HandedTo? && h.saved ==>
              forall i :: 0 <= i < |cs| && cs[i].name == h.host && cs[i].view.OnDeck? ==>
                r[i].view == OnDeck(Some(iv), cs[i].view.onSave)
  {
    if |cs| == 0 then []
    else
      var c := cs[0];
      var c' := if h.HandedTo? && h.saved && c.name == h.host && c.view.OnDeck?
                then c.(view := OnDeck(Some(iv), c.view.onSave)) else c;
      [c'] + AfterHandover(cs[1..], h, iv)
  }

  /** Once a range was saved on a master, the next `store_DNA_range` call
      passes that master over: the on-deck range of the deleted master never
      goes to the master that just took its current range. */
  lemma SecondHandoverElsewhere(cs: seq<Candidate>, h: Handover, iv: Interval, deleted: string)
    requires h.HandedTo? && h.saved
    ensures var h2 := StoreSpec(AfterHandover(cs, h, iv), deleted); !(h2.HandedTo? && h2.host == h.host)
  {
    var r := AfterHandover(cs, h, iv);
    forall i | 0 <= i < |r| && r[i].name == h.host
      ensures !Takes(r[i], deleted)
    {
    }
    if StoreSpec(r, deleted).HandedTo? {
      StoreSpecHandedToTaker(r, deleted);
    }
  }

  /** The inputs of one `del_link(replica1, replica2)` run. */
  datatype DelLinkInput = DelLinkInput(
    lookup: TypeLookup,
    managed: bool,
    firstCount: nat,                      // IPA agreements of replica1
    peer: PeerView,
    handoff: Handoff,
    candidates: Option<seq<Candidate>>,   // cn=masters as read through replica1
    deleted: string)                      // replica2's host name

  /** `del_link`. The freed DNA ranges of the second host are handed over
      with `store_DNA_range`; an exception escaping from it fails the
      handoff. */
  method DelLink(input: DelLinkInput, force: bool) returns (o: DelLinkOutcome)
    ensures o != Crash
    ensures input.lookup.NoAgreement? ==> o.Refused? || o.ManagedTopologyExit?
    ensures o.Deleted? && !force && input.lookup == TypeFound(IpaReplica) ==>
              input.firstCount > 1 && input.peer.PeerListed? && input.peer.count > 1
    ensures o.Deleted? && input.lookup == TypeFound(IpaReplica) && input.peer.PeerListed? &&
            input.handoff.RangesRead? && input.handoff.range.Some? && input.candidates.Some? &&
            |input.candidates.value| > 0 ==>
              |o.handovers| > 0 && o.handovers[0] == StoreSpec(input.candidates.value, input.deleted)
    ensures o.Deleted? && (input.lookup == TypeFound(Winsync) || input.peer.PeerConnectFailed?) ==> o.handovers == []
    ensures o.Deleted? && |o.handovers| == 2 && o.handovers[0].HandedTo? && o.handovers[0].saved ==>
              !(o.handovers[1].HandedTo? && o.handovers[1].host == o.handovers[0].host)
  {
    var typed := AgreementKind(input.lookup, input.managed);
    if typed.Err? {
      return typed.error;
    }
    var type1 := typed.value;
    if !force && input.firstCount <= 1 && type1 == IpaReplica {
      return Refused(LastLinkOfFirst);
    }
    var peerConnected := false;
    if type1 == IpaReplica {
      match input.peer {
        case PeerListed(count) =>
          peerConnected := true;
          if !force && count <= 1 {
            return Refused(LastLinkOfSecond);
          }
        case PeerConnectFailed(_) =>
          if !force {
            return Refused(PeerUnavailable);
          }
        case PeerListFailed(_) =>
          peerConnected := true;
          if !force {
            return Refused(PeerUnavailable);
          }
      }
    }
    var handovers: seq<Handover> := [];
    if peerConnected && type1 == IpaReplica {
      var failed := false;
      match input.handoff {
        case RaisedBeforeRanges =>
          failed := true;
        case RangesRead(range, next, laterRaise) =>
          var cs := input.candidates;
          if range.Some? {
            var h := StoreDnaRange(cs, input.deleted);
            handovers := handovers + [h];
            if h.ReadRaised? {
              failed := true;
            } else if cs.Some? {
              cs := Some(AfterHandover(cs.value, h, range.value));
              if h.HandedTo? && h.saved {
                SecondHandoverElsewhere(input.candidates.value, h, range.value, input.deleted);
              }
            }
          }
          if !failed && next.Some? {
            var h := StoreDnaRange(cs, input.deleted);
            handovers := handovers + [h];
            if h.ReadRaised? {
              failed := true;
            }
          }
          if laterRaise {
            failed := true;
          }
      }
      if failed && !force {
        return Refused(HandoffFailed);
      }
    }
    o := Deleted(handovers);
  }

  // ---------------------------------------------------------------------
  // del_master_direct

  /** `list.remove(x)`: drop the first `x`; a list without `x` is kept. */
  function RemoveFirst(s: seq<string>, x: string): (r: seq<string>)
    ensures x in s ==> |r| == |s| - 1 && multiset(r) == multiset(s) - multiset{x}
    ensures x !in s ==> r == s
  {
    if |s| == 0 then []
    else if s[0] == x then
      assert s == [s[0]] + s[1..];
      s[1..]
    else
      assert s == [s[0]] + s[1..];
      [s[0]] + RemoveFirst(s[1..], x)
  }

  /** With distinct names, the deleted host is no longer among the peers and
      every other name stays. */
  lemma {:induction false} RemoveFirstDistinct(s: seq<string>, x: string)
    requires Distinct(s)
    ensures x !in RemoveFirst(s, x)
    ensures forall y :: y != x ==> (y in RemoveFirst(s, x) <==> y in s)
  {
    if |s| > 0 {
      var t := s[1..];
      assert s == [s[0]] + t;
      assert Distinct(t) by {
        forall i, j | 0 <= i < j < |t|
          ensures t[i] != t[j]
        {
          assert t[i] == s[i + 1] && t[j] == s[j + 1];
        }
      }
      RemoveFirstDistinct(t, x);
      if s[0] == x {
        forall k | 0 <= k < |t|
          ensures t[k] != x
        {
          assert t[k] == s[k + 1];
        }
      }
    }
  }

  /** What the directory and the user answer during `del_master_direct`. */
  datatype DelMasterInput = DelMasterInput(
    localConnected: bool,
    hasAgreement: bool,
    cleanupConfirmed: bool,
    agreementType: ReplicaKind,
    deletedConnected: bool,
    masterNames: seq<string>,              // cn of the entries under cn=masters
    deletedAgreements: seq<string>,        // replica hosts of the deleted master's agreements
    deleteConfirmed: bool,
    serverFind: Option<seq<MasterServices>>,  // None: server_find raised
    neighbours: seq<Neighbour>,
    noDnsConfirmed: bool)

  datatype DelMasterOutcome =
    | LocalConnectFailed          // exit 1
    | CleanupAborted              // "Cleanup aborted"
    | CleanedUp                   // the master entries were cleaned, exit 0
    | NoAgreementWith             // "'A' has no replication agreement for 'B'"
    | DeletedUnreachable          // "Unable to delete replica", exit 1
    | DeletionAborted             // "Deletion aborted"
    | ServerFindFailed            // exit 1
    | WouldOrphan(names: string)  // "Deleting this server will orphan ...", exit 1
    | OrphanCheckAborted          // an unreachable neighbour and no confirmation
    | ServicesRefused(e: ServicesError)
    | RemovingAgreements(peers: seq<string>, orphanChecked: bool)

  /** `del_master_direct` up to the removal of the agreements: the peers whose
      agreement with the deleted master is then removed, and whether the
      orphan test ran. */
  method DelMasterDirect(hostname: string, localHost: string, input: DelMasterInput, cleanup: bool, force: bool)
    returns (o: DelMasterOutcome)
    ensures o.RemovingAgreements? && input.agreementType == Winsync ==> o.peers == [localHost]
    ensures o.RemovingAgreements? && input.agreementType == IpaReplica && input.deletedConnected ==>
              o.peers == input.deletedAgreements
    ensures o.RemovingAgreements? && input.agreementType == IpaReplica && !input.deletedConnected ==>
              o.peers == RemoveFirst(input.masterNames, hostname)
    ensures (o.RemovingAgreements? && input.agreementType == IpaReplica && !input.deletedConnected &&
             Distinct(input.masterNames)) ==> hostname !in o.peers
    ensures o.RemovingAgreements? ==>
              (o.orphanChecked <==> input.agreementType == IpaReplica && input.deletedConnected &&
                                    input.serverFind.Some? && |input.serverFind.value| > 2)
    ensures o.WouldOrphan? ==> input.serverFind.Some? && |input.serverFind.value| > 2
    ensures o.WouldOrphan? ==> OrphanedNames(input.neighbours, hostname) != [] &&
                               o.names == Join(OrphanedNames(input.neighbours, hostname), ", ")
    ensures o.RemovingAgreements? && o.orphanChecked ==>
              OrphanedNames(input.neighbours, hostname) == [] &&
              forall i :: 0 <= i < |input.neighbours| ==> !Stops(input.neighbours[i], force)
    ensures o.OrphanCheckAborted? ==> exists i :: 0 <= i < |input.neighbours| && Stops(input.neighbours[i], force)
    ensures o.RemovingAgreements? && input.agreementType == IpaReplica && input.deletedConnected ==>
              var ms := if input.serverFind.Some? then input.serverFind.value else [];
              && !("CA" in ThisServices(ms, hostname) && !AnyHas(OtherServices(ms, hostname), "CA"))
              && ("DNS" in ThisServices(ms, hostname) && !AnyHas(OtherServices(ms, hostname), "DNS") ==>
                    force || input.noDnsConfirmed)
    ensures o.ServicesRefused? ==>
              o.e == LastCa && input.serverFind.Some? &&
              "CA" in ThisServices(input.serverFind.value, hostname) &&
              !AnyHas(OtherServices(input.serverFind.value, hostname), "CA")
    ensures o.DeletionAborted? ==> !force && (!input.deleteConfirmed || !input.noDnsConfirmed)
    ensures o.DeletedUnreachable? ==> !force
  {
    if !input.localConnected {
      return LocalConnectFailed;
    }
    if !input.hasAgreement {
      if cleanup {
        if !input.cleanupConfirmed {
          return CleanupAborted;
        }
        return CleanedUp;
      }
      return NoAgreementWith;
    }
    var winsync: bool;
    var peers: seq<string>;
    var deletedUp := false;
    if input.agreementType == IpaReplica {
      winsync := false;
      if input.deletedConnected {
        deletedUp := true;
        peers := input.deletedAgreements;
      } else {
        if !force {
          return DeletedUnreachable;
        }
        peers := RemoveFirst(input.masterNames, hostname);
        if Distinct(input.masterNames) {
          RemoveFirstDistinct(input.masterNames, hostname);
        }
      }
    } else {
      winsync := true;
      peers := [localHost];
    }
    if !winsync && !force && !input.deleteConfirmed {
      return DeletionAborted;
    }
    var orphanChecked := false;
    if deletedUp && !winsync {
      var masters: seq<MasterServices> := [];
      if input.serverFind.None? {
        if !force {
          return ServerFindFailed;
        }
      } else {
        masters := input.serverFind.value;
      }
      if |masters| > 2 {
        orphanChecked := true;
        var orphans := CheckLastLink(hostname, input.neighbours, force);
        if orphans.Err? {
          return OrphanCheckAborted;
        }
        if orphans.value.Some? {
          return WouldOrphan(orphans.value.value);
        }
      }
      var services := EnsureLastServices(hostname, masters, force, input.noDnsConfirmed);
      if services.Err? {
        if services.error == DnsDeletionAborted {
          return DeletionAborted;
        }
        return ServicesRefused(services.error);
      }
    }
    o := RemovingAgreements(peers, orphanChecked);
  }
}
