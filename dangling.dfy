/** `clean_dangling_ruvs` of `ipa-replica-manage`: collect what every
    master reports about itself and what RUVs it holds, mark as dangling
    the RUVs that no online master reports as its own, and issue one
    CLEANALLRUV task per dangling replica ID.

    The directory reads are inputs: for each entry under cn=masters, whether
    its cn=ca entry exists, whether it answers, the replica IDs it reports
    for the domain and CA suffixes and what `get_ruv_both_suffixes` gives. */
module Dangling {
  import opened Basics
  import opened Ruv

  /** An RUV as the cleanup compares it: (host without port, replica ID). */
  type RuvKey = (string, string)

  /** The result of reading one entry that may be absent. */
  datatype Lookup = Present | Absent | LookupFailed

  /** The `nsDS5ReplicaID` a master reports for one suffix. */
  datatype Probe = Found(id: string) | Missing | Broken

  /** What the directory shows about one master. */
  datatype MasterProbe = MasterProbe(
    name: string,
    caEntry: Lookup,
    online: bool,
    replicaId: Probe,
    csReplicaId: Probe,
    ruvs: Result<BothRuvs, RuvError>)

  /** The per-master part of `info` the later loops use. */
  datatype MasterInfo = MasterInfo(name: string, online: bool, ruvs: set<RuvKey>, csruvs: set<RuvKey>)

  /** `info` with the `ruvs`, `csruvs` and `offlines` sets. */
  datatype Gathered = Gathered(
    infos: seq<MasterInfo>,
    selfRuvs: set<RuvKey>,
    selfCsRuvs: set<RuvKey>,
    offlines: set<string>)

  /** The RUVs marked for cleaning on one master. */
  datatype Marks = Marks(name: string, cleanRuv: set<RuvKey>, cleanCsRuv: set<RuvKey>)

  /** One CLEANALLRUV task: the master `options.host` is set to and the
      replica ID to clean. */
  datatype CleanTask = CleanTask(host: string, rid: string)

  /** How `clean_dangling_ruvs` ends. */
  datatype Outcome =
    | ListFailed              // "Failed to get data from ... while trying to list replicas"
    | ProbeFailed(host: string)   // "Failed to obtain information from ..."
    | NoDangling              // "No dangling RUVs found", exit status 0
    | Aborted                 // the confirmation was declined
    | Cleaned(tasks: seq<CleanTask>)

  predicate HasCa(m: MasterProbe) { m.caEntry.Present? }

  function SelfOf(m: MasterProbe): set<RuvKey> {
    if m.online && m.replicaId.Found? then {(m.name, m.replicaId.id)} else {}
  }

  function CsSelfOf(m: MasterProbe): set<RuvKey> {
    if m.online && HasCa(m) && m.csReplicaId.Found? then {(m.name, m.csReplicaId.id)} else {}
  }

  function OfflineOf(m: MasterProbe): set<string> {
    if m.online then {} else {m.name}
  }

  /** The RUVs of one suffix with the ports stripped; an absent or empty
      list gives nothing. */
  function Observed(l: Option<seq<RuvEntry>>): set<RuvKey> {
    if l.Some? && |l.value| > 0 then set e | e in l.value :: (StripPort(e.netloc), e.rid) else {}
  }

  function InfoOf(m: MasterProbe): MasterInfo {
    var ok := m.online && m.ruvs.Ok?;
    MasterInfo(m.name, m.online,
               if ok then Observed(m.ruvs.value.domain) else {},
               if ok then Observed(m.ruvs.value.ca) else {})
  }

  /** The union of `f` over the masters. */
  function UnionOf<T>(ms: seq<MasterProbe>, f: MasterProbe -> set<T>): set<T> {
    if |ms| == 0 then {} else UnionOf(ms[..|ms| - 1], f) + f(ms[|ms| - 1])
  }

  lemma {:induction false} UnionOfMembers<T>(ms: seq<MasterProbe>, f: MasterProbe -> set<T>, x: T)
    ensures x in UnionOf(ms, f) <==> exists i :: 0 <= i < |ms| && x in f(ms[i])
  {
    if |ms| > 0 {
      UnionOfMembers(ms[..|ms| - 1], f, x);
      if exists i :: 0 <= i < |ms| && x in f(ms[i]) {
        var i :| 0 <= i < |ms| && x in f(ms[i]);
        if i < |ms| - 1 {
          assert ms[..|ms| - 1][i] == ms[i];
        }
      }
    }
  }

  function InfosOf(ms: seq<MasterProbe>): (r: seq<MasterInfo>)
    ensures |r| == |ms| && forall i :: 0 <= i < |ms| ==> r[i] == InfoOf(ms[i])
  {
    if |ms| == 0 then [] else InfosOf(ms[..|ms| - 1]) + [InfoOf(ms[|ms| - 1])]
  }

  /** A read of an online master that fails with something other than
      NotFound stops the tool. */
  predicate ProbeFails(m: MasterProbe) {
    m.online && (m.replicaId.Broken? || (HasCa(m) && m.csReplicaId.Broken?))
  }

  function FirstProbeFailure(ms: seq<MasterProbe>): Option<string> {
    if |ms| == 0 then None
    else if ProbeFails(ms[0]) then Some(ms[0].name)
    else FirstProbeFailure(ms[1..])
  }

  /** The two gathering loops as one expression. */
  function GatherSpec(masters: Option<seq<MasterProbe>>): Result<Gathered, Outcome> {
    if masters.None? || |masters.value| == 0 then Err(ListFailed)
    else
      var ms := masters.value;
      if exists i :: 0 <= i < |ms| && ms[i].caEntry.LookupFailed? then Err(ListFailed)
      else match FirstProbeFailure(ms)
        case Some(h) => Err(ProbeFailed(h))
        case None => Ok(Gathered(InfosOf(ms), UnionOf(ms, SelfOf), UnionOf(ms, CsSelfOf), UnionOf(ms, OfflineOf)))
  }

  /** The gathering loops of `clean_dangling_ruvs`: first the CA check on
      every master, then for each master the connection, its own replica
      IDs and its RUVs. */
  method Gather(masters: Option<seq<MasterProbe>>) returns (r: Result<Gathered, Outcome>)
    ensures r == GatherSpec(masters)
  {
    if masters.None? || |masters.value| == 0 {
      return Err(ListFailed);
    }
    var ms := masters.value;
    var i := 0;
    while i < |ms|
      invariant 0 <= i <= |ms|
      invariant forall k :: 0 <= k < i ==> !ms[k].caEntry.LookupFailed?
    {
      if ms[i].caEntry.LookupFailed? {
        return Err(ListFailed);
      }
      i := i + 1;
    }
    r := ProbeAll(ms);
  }

  /** The second gathering loop. */
  method ProbeAll(ms: seq<MasterProbe>) returns (r: Result<Gathered, Outcome>)
    ensures r == match FirstProbeFailure(ms)
                 case Some(h) => Err(ProbeFailed(h))
                 case None => Ok(Gathered(InfosOf(ms), UnionOf(ms, SelfOf), UnionOf(ms, CsSelfOf), UnionOf(ms, OfflineOf)))
  {
    var infos: seq<MasterInfo> := [];
    var ruvs: set<RuvKey> := {};
    var csruvs: set<RuvKey> := {};
    var offlines: set<string> := {};
    var i := 0;
    while i < |ms|
      invariant 0 <= i <= |ms|
      invariant FirstProbeFailure(ms) == FirstProbeFailure(ms[i..])
      invariant infos == InfosOf(ms[..i])
      invariant ruvs == UnionOf(ms[..i], SelfOf)
      invariant csruvs == UnionOf(ms[..i], CsSelfOf)
      invariant offlines == UnionOf(ms[..i], OfflineOf)
    {
      var m := ms[i];
      var prefix := ms[..i + 1];
      assert prefix[..i] == ms[..i] && prefix[i] == m;
      assert ms[i..][1..] == ms[i + 1..];
      var failed, self, csSelf := ProbeMaster(m);
      if failed {
        return Err(ProbeFailed(m.name));
      }
      if !m.online {
        offlines := offlines + {m.name};
      }
      ruvs := ruvs + self;
      csruvs := csruvs + csSelf;
      infos := infos + [InfoOf(m)];
      assert offlines == UnionOf(prefix, OfflineOf);
      i := i + 1;
    }
    assert ms[..i] == ms;
    r := Ok(Gathered(infos, ruvs, csruvs, offlines));
  }

  /** The reads of one master in the second gathering loop: nothing for an
      offline master; otherwise its own domain replica ID, then (when it
      has a CA) its own CA replica ID. */
  method ProbeMaster(m: MasterProbe) returns (failed: bool, self: set<RuvKey>, csSelf: set<RuvKey>)
    ensures failed <==> ProbeFails(m)
    ensures !failed ==> self == SelfOf(m) && csSelf == CsSelfOf(m)
  {
    self, csSelf := {}, {};
    if !m.online {
      return false, self, csSelf;
    }
    match m.replicaId {
      case Broken => return true, self, csSelf;
      case Missing =>
      case Found(id) => self := {(m.name, id)};
    }
    if HasCa(m) {
      match m.csReplicaId {
        case Broken => return true, self, csSelf;
        case Missing =>
        case Found(id) => csSelf := {(m.name, id)};
      }
    }
    failed := false;
  }

  /** The RUVs of one master marked for cleaning: on an online master, those
      that no master reports as its own and whose host is not offline. */
  function MarksOf(info: MasterInfo, g: Gathered): Marks {
    if !info.online then Marks(info.name, {}, {})
    else Marks(info.name,
               set r | r in info.ruvs && r !in g.selfRuvs && r.0 !in g.offlines,
               set r | r in info.csruvs && r !in g.selfCsRuvs && r.0 !in g.offlines)
  }

  predicate Dangles(m: Marks) { m.cleanRuv != {} || m.cleanCsRuv != {} }

  /** The marking loop of `clean_dangling_ruvs`: the marks of every master
      in order, and whether any RUV dangles. */
  method MarkDangling(g: Gathered) returns (marks: seq<Marks>, dangles: bool)
    ensures |marks| == |g.infos|
    ensures forall i :: 0 <= i < |marks| ==> marks[i] == MarksOf(g.infos[i], g)
    ensures dangles <==> exists i :: 0 <= i < |marks| && Dangles(marks[i])
  {
    marks := [];
    dangles := false;
    var i := 0;
    while i < |g.infos|
      invariant 0 <= i <= |g.infos|
      invariant |marks| == i
      invariant forall k :: 0 <= k < i ==> marks[k] == MarksOf(g.infos[k], g)
      invariant dangles <==> exists k :: 0 <= k < i && Dangles(marks[k])
    {
      var info := g.infos[i];
      var clean: set<RuvKey> := {};
      var cleanCs: set<RuvKey> := {};
      if info.online {
        clean := set r | r in info.ruvs && r !in g.selfRuvs && r.0 !in g.offlines;
        cleanCs := set r | r in info.csruvs && r !in g.selfCsRuvs && r.0 !in g.offlines;
      }
      marks := marks + [Marks(info.name, clean, cleanCs)];
      if clean != {} || cleanCs != {} {
        dangles := true;
      }
      i := i + 1;
    }
  }

  /** The replica IDs of a set of RUVs. */
  function Rids(s: set<RuvKey>): set<string> {
    set r | r in s :: r.1
  }

  function MarkedRids(m: Marks): set<string> {
    Rids(m.cleanRuv) + Rids(m.cleanCsRuv)
  }

  /** The replica IDs marked on the first masters. */
  function RidsUpTo(marks: seq<Marks>): set<string> {
    if |marks| == 0 then {} else RidsUpTo(marks[..|marks| - 1]) + MarkedRids(marks[|marks| - 1])
  }

  function TaskRids(tasks: seq<CleanTask>): set<string> {
    set t | t in tasks :: t.rid
  }

  predicate DistinctRids(tasks: seq<CleanTask>) {
    forall i, j :: 0 <= i < j < |tasks| ==> tasks[i].rid != tasks[j].rid
  }

  /** Task `t` belongs to master `k`: the first master that marks its
      replica ID. */
  predicate IssuedBy(marks: seq<Marks>, k: int, t: CleanTask) {
    0 <= k < |marks| && marks[k].name == t.host && t.rid in MarkedRids(marks[k]) && t.rid !in RidsUpTo(marks[..k])
  }

  /** One inner loop of the cleanup: a task for every replica ID of `todo`
      not cleaned yet, in the order the set is iterated. */
  method CleanEach(host: string, todo: set<RuvKey>, cleaned: set<string>, tasks: seq<CleanTask>)
    returns (cleaned': set<string>, tasks': seq<CleanTask>)
    requires TaskRids(tasks) == cleaned && DistinctRids(tasks)
    ensures cleaned' == cleaned + Rids(todo)
    ensures TaskRids(tasks') == cleaned' && DistinctRids(tasks')
    ensures |tasks| <= |tasks'| && tasks'[..|tasks|] == tasks
    ensures forall i :: |tasks| <= i < |tasks'| ==>
              tasks'[i].host == host && tasks'[i].rid in Rids(todo) && tasks'[i].rid !in cleaned
  {
    cleaned' := cleaned;
    tasks' := tasks;
    var rest := todo;
    while rest != {}
      invariant rest <= todo
      invariant cleaned' == cleaned + Rids(todo - rest)
      invariant TaskRids(tasks') == cleaned' && DistinctRids(tasks')
      invariant |tasks| <= |tasks'| && tasks'[..|tasks|] == tasks
      invariant forall i :: |tasks| <= i < |tasks'| ==>
                  tasks'[i].host == host && tasks'[i].rid in Rids(todo) && tasks'[i].rid !in cleaned
      decreases rest
    {
      var r :| r in rest;
      if r.1 !in cleaned' {
        cleaned' := cleaned' + {r.1};
        tasks' := tasks' + [CleanTask(host, r.1)];
      }
      rest := rest - {r};
      assert Rids(todo - rest) == Rids(todo - (rest + {r})) + {r.1};
    }
  }

  /** The cleanup loop of `clean_dangling_ruvs`: for each master in order,
      its marked RUVs and then its marked CS-RUVs, each replica ID once. */
  method IssueCleanups(marks: seq<Marks>) returns (tasks: seq<CleanTask>)
    ensures DistinctRids(tasks)
    ensures TaskRids(tasks) == RidsUpTo(marks)
    ensures forall t :: t in tasks ==> exists k :: IssuedBy(marks, k, t)
  {
    tasks := [];
    var cleaned: set<string> := {};
    var i := 0;
    while i < |marks|
      invariant 0 <= i <= |marks|
      invariant TaskRids(tasks) == cleaned == RidsUpTo(marks[..i]) && DistinctRids(tasks)
      invariant forall t :: t in tasks ==> exists k :: IssuedBy(marks, k, t)
    {
      var m := marks[i];
      var before := tasks;
      cleaned, tasks := CleanEach(m.name, m.cleanRuv, cleaned, tasks);
      cleaned, tasks := CleanEach(m.name, m.cleanCsRuv, cleaned, tasks);
      assert marks[..i + 1][..i] == marks[..i];
      forall t | t in tasks
        ensures exists k :: IssuedBy(marks, k, t)
      {
        var j :| 0 <= j < |tasks| && tasks[j] == t;
        if j >= |before| {
          assert IssuedBy(marks, i, t);
        } else {
          assert t in before;
        }
      }
      i := i + 1;
    }
    assert marks[..i] == marks;
  }

  /** `clean_dangling_ruvs` from the directory reads, the `--force` option
      and the answer to "Proceed with cleaning?". */
  method CleanDanglingRuvs(masters: Option<seq<MasterProbe>>, force: bool, confirmed: bool) returns (o: Outcome)
    ensures GatherSpec(masters).Err? ==> o == GatherSpec(masters).error
    ensures GatherSpec(masters).Ok? ==> !o.ListFailed? && !o.ProbeFailed?
    ensures GatherSpec(masters).Ok? ==>
      var g := GatherSpec(masters).value;
      (o.Cleaned? <==> (exists i :: 0 <= i < |g.infos| && Dangles(MarksOf(g.infos[i], g))) && (force || confirmed))
    ensures GatherSpec(masters).Ok? ==>
      var g := GatherSpec(masters).value;
      var marks := seq(|g.infos|, i requires 0 <= i < |g.infos| => MarksOf(g.infos[i], g));
      && (o == NoDangling <==> forall i :: 0 <= i < |marks| ==> !Dangles(marks[i]))
      && (o == Aborted <==> (exists i :: 0 <= i < |marks| && Dangles(marks[i])) && !force && !confirmed)
      && (o.Cleaned? ==> DistinctRids(o.tasks) && TaskRids(o.tasks) == RidsUpTo(marks) &&
                         forall t :: t in o.tasks ==> exists k :: IssuedBy(marks, k, t))
  {
    var gathered := Gather(masters);
    if gathered.Err? {
      return gathered.error;
    }
    var g := gathered.value;
    var marks, dangles := MarkDangling(g);
    assert marks == seq(|g.infos|, i requires 0 <= i < |g.infos| => MarksOf(g.infos[i], g));
    if !dangles {
      return NoDangling;
    }
    if !force && !confirmed {
      return Aborted;
    }
    var tasks := IssueCleanups(marks);
    o := Cleaned(tasks);
  }

  /** A marked RUV is one an online master holds, that no master reports as
      its own and whose host is not offline; conversely every such RUV is
      marked. */
  lemma MarkedIffDangling(info: MasterInfo, g: Gathered, r: RuvKey)
    ensures r in MarksOf(info, g).cleanRuv <==>
            info.online && r in info.ruvs && r !in g.selfRuvs && r.0 !in g.offlines
    ensures r in MarksOf(info, g).cleanCsRuv <==>
            info.online && r in info.csruvs && r !in g.selfCsRuvs && r.0 !in g.offlines
  {
  }

  /** The replica ID an online master reports as its own is never marked on
      any master under that master's name, nor is any RUV of an offline
      host. */
  lemma SelfReportedNeverMarked(masters: seq<MasterProbe>, info: MasterInfo, j: nat)
    requires GatherSpec(Some(masters)).Ok? && j < |masters|
    ensures var g := GatherSpec(Some(masters)).value; var m := masters[j];
      && (m.online && m.replicaId.Found? ==> (m.name, m.replicaId.id) !in MarksOf(info, g).cleanRuv)
      && (!m.online ==> forall r :: r in MarksOf(info, g).cleanRuv + MarksOf(info, g).cleanCsRuv ==> r.0 != m.name)
  {
    var g := GatherSpec(Some(masters)).value;
    var m := masters[j];
    if m.online && m.replicaId.Found? {
      UnionOfMembers(masters, SelfOf, (m.name, m.replicaId.id));
    }
    UnionOfMembers(masters, OfflineOf, m.name);
  }

  /** A replica ID marked on several masters, or in both suffixes, is cleaned
      by a single task, issued for the first master that marks it. */
  lemma CleanedOnce(tasks: seq<CleanTask>, marks: seq<Marks>, rid: string)
    requires DistinctRids(tasks) && TaskRids(tasks) == RidsUpTo(marks)
    requires rid in RidsUpTo(marks)
    ensures exists i :: 0 <= i < |tasks| && tasks[i].rid == rid &&
                        forall j :: 0 <= j < |tasks| && j != i ==> tasks[j].rid != rid
  {
    var t :| t in tasks && t.rid == rid;
    var i :| 0 <= i < |tasks| && tasks[i] == t;
  }
}
