/** The ports an IPA server must be able to open (`CheckedPort` and the
    port lists of the installer's connection check) and the report of the
    module's self test. Binding a socket is a parameter of the model. */
module ConnCheck {
  import opened Basics
  import opened Text

  /** The socket types of the platform's socket module. */
  const SockStream: int := 1
  const SockDgram: int := 2

  datatype CheckedPort = CheckedPort(
    port: int,
    portType: int,
    description: string,
    serviceName: Option<string>,
    localhost: bool)

  predicate ValidType(portType: int) {
    portType == SockStream || portType == SockDgram
  }

  /** The constructor: the assertion on the socket type fails (None) for
      anything but a stream or a datagram socket. */
  function NewCheckedPort(port: int, portType: int, description: string,
                          serviceName: Option<string>, localhost: bool): (r: Option<CheckedPort>)
    ensures r.Some? <==> ValidType(portType)
    ensures r.Some? ==> && r.value.port == port && r.value.portType == portType
                        && r.value.description == description && r.value.serviceName == serviceName
                        && r.value.localhost == localhost
  {
    if ValidType(portType) then Some(CheckedPort(port, portType, description, serviceName, localhost))
    else None
  }

  /** Ports are identified by their number and socket type only. */
  function Key(p: CheckedPort): (int, int) {
    (p.port, p.portType)
  }

  /** `__eq__`. */
  predicate Eq(a: CheckedPort, b: CheckedPort) {
    a.port == b.port && a.portType == b.portType
  }

  /** `__lt__`: tuple comparison of (port, type). */
  predicate Lt(a: CheckedPort, b: CheckedPort) {
    a.port < b.port || (a.port == b.port && a.portType < b.portType)
  }

  /** `__le__` as `functools.total_ordering` derives it from `__lt__` and
      `__eq__`. */
  predicate Le(a: CheckedPort, b: CheckedPort) {
    Lt(a, b) || Eq(a, b)
  }

  /** `__hash__` hashes exactly the (port, type) pair. */
  lemma HashAgreesWithEq(a: CheckedPort, b: CheckedPort)
    ensures Eq(a, b) <==> Key(a) == Key(b)
  {
  }

  /** `__lt__` and `__eq__` form a strict total order on (port, type):
      exactly one of a < b, a == b, b < a holds, and < is transitive. */
  lemma LtStrictTotalOrder(a: CheckedPort, b: CheckedPort, c: CheckedPort)
    ensures !Lt(a, a)
    ensures Lt(a, b) ==> !Lt(b, a) && !Eq(a, b)
    ensures Lt(a, b) || Eq(a, b) || Lt(b, a)
    ensures Lt(a, b) && Lt(b, c) ==> Lt(a, c)
    ensures Le(a, b) && Le(b, c) ==> Le(a, c)
  {
  }

  /** `__repr__`: `<CheckedPort {port}/{TCP|UDP} {description}>`. */
  function Repr(p: CheckedPort): string {
    "<CheckedPort " + IntToString(p.port) + "/" + Protocol(p.portType) + " " + p.description + ">"
  }

  function Protocol(portType: int): string {
    if portType == SockStream then "TCP" else "UDP"
  }

  lemma NoSlashInNumber(n: int)
    ensures '/' !in IntToString(n)
  {
    var d := if n < 0 then NatToString(-n) else NatToString(n);
    assert AllDigits(d);
    assert forall i :: 0 <= i < |d| ==> d[i] != '/' by {
      forall i | 0 <= i < |d|
        ensures d[i] != '/'
      {
        assert IsDigit(d[i]);
      }
    }
  }

  /** What follows the port number and its slash. */
  function ReprTail(p: CheckedPort): string {
    Protocol(p.portType) + " " + p.description + ">"
  }

  lemma ReprShape(p: CheckedPort)
    ensures Repr(p)[13..] == IntToString(p.port) + ['/'] + ReprTail(p)
  {
    var n := IntToString(p.port);
    var pre := "<CheckedPort ";
    assert |pre| == 13;
    assert Repr(p) == pre + (n + ['/'] + ReprTail(p));
  }

  lemma ReprTailParts(p: CheckedPort)
    ensures |ReprTail(p)| == 5 + |p.description|
    ensures ReprTail(p)[..3] == Protocol(p.portType)
    ensures ReprTail(p)[4..|ReprTail(p)| - 1] == p.description
  {
  }

  lemma ProtocolDistinguishes(t: int, u: int)
    requires ValidType(t) && ValidType(u) && Protocol(t) == Protocol(u)
    ensures t == u
  {
    assert Protocol(t)[0] == Protocol(u)[0];
  }

  /** The representation determines the port: two valid ports that print
      alike have the same number, type and description. */
  lemma ReprDeterminesPort(a: CheckedPort, b: CheckedPort)
    requires ValidType(a.portType) && ValidType(b.portType)
    requires Repr(a) == Repr(b)
    ensures Eq(a, b) && a.description == b.description
  {
    ReprShape(a);
    ReprShape(b);
    var na := IntToString(a.port);
    var nb := IntToString(b.port);
    var ra := ReprTail(a);
    var rb := ReprTail(b);
    assert na + ['/'] + ra == nb + ['/'] + rb;
    NoSlashInNumber(a.port);
    NoSlashInNumber(b.port);
    SplitOnceAt(na, '/', ra);
    SplitOnceAt(nb, '/', rb);
    assert na == nb && ra == rb;
    ParseIntToString(a.port);
    ParseIntToString(b.port);
    ReprTailParts(a);
    ReprTailParts(b);
    ProtocolDistinguishes(a.portType, b.portType);
  }

  // ---------------------------------------------------------------------
  // sorted()

  predicate Sorted(s: seq<CheckedPort>) {
    forall i, j :: 0 <= i < j < |s| ==> Le(s[i], s[j])
  }

  /** Insert `x` after every element not greater than it. */
  function Insert(x: CheckedPort, s: seq<CheckedPort>): (r: seq<CheckedPort>)
    ensures multiset(r) == multiset(s) + multiset{x}
    ensures |r| == |s| + 1
  {
    if |s| == 0 then [x]
    else if Lt(x, s[0]) then [x] + s
    else
      assert s == [s[0]] + s[1..];
      [s[0]] + Insert(x, s[1..])
  }

  /** `x` is not greater than any element of `s`. */
  predicate Below(x: CheckedPort, s: seq<CheckedPort>) {
    forall k :: 0 <= k < |s| ==> Le(x, s[k])
  }

  lemma {:induction false} InsertKeepsBelow(y: CheckedPort, x: CheckedPort, s: seq<CheckedPort>)
    requires Below(y, s) && Le(y, x)
    ensures Below(y, Insert(x, s))
  {
    if |s| > 0 && !Lt(x, s[0]) {
      var t := s[1..];
      assert Below(y, t) by {
        forall k | 0 <= k < |t|
          ensures Le(y, t[k])
        {
          assert t[k] == s[k + 1];
        }
      }
      InsertKeepsBelow(y, x, t);
    }
  }

  lemma {:induction false} InsertSorted(x: CheckedPort, s: seq<CheckedPort>)
    requires Sorted(s)
    ensures Sorted(Insert(x, s))
  {
    if |s| == 0 {
    } else if Lt(x, s[0]) {
      var r := [x] + s;
      forall i, j | 0 <= i < j < |r|
        ensures Le(r[i], r[j])
      {
        if i == 0 {
          assert Le(s[0], s[j - 1]) || j == 1;
          LtStrictTotalOrder(x, s[0], s[j - 1]);
        } else {
          assert r[i] == s[i - 1] && r[j] == s[j - 1];
        }
      }
    } else {
      var t := s[1..];
      assert Sorted(t) by {
        forall i, j | 0 <= i < j < |t|
          ensures Le(t[i], t[j])
        {
          assert t[i] == s[i + 1] && t[j] == s[j + 1];
        }
      }
      assert Below(s[0], t) by {
        forall k | 0 <= k < |t|
          ensures Le(s[0], t[k])
        {
          assert t[k] == s[k + 1];
        }
      }
      LtStrictTotalOrder(s[0], x, x);
      InsertKeepsBelow(s[0], x, t);
      InsertSorted(x, t);
      var it := Insert(x, t);
      var r := [s[0]] + it;
      assert Insert(x, s) == r;
      forall i, j | 0 <= i < j < |r|
        ensures Le(r[i], r[j])
      {
        if i == 0 {
          assert r[j] == it[j - 1];
        } else {
          assert r[i] == it[i - 1] && r[j] == it[j - 1];
        }
      }
    }
  }

  /** `sorted(ports)`: an insertion sort on (port, type). */
  function SortPorts(s: seq<CheckedPort>): seq<CheckedPort> {
    if |s| == 0 then [] else Insert(s[|s| - 1], SortPorts(s[..|s| - 1]))
  }

  /** `sorted` returns a permutation of its input. */
  lemma {:induction false} SortPortsPermutes(s: seq<CheckedPort>)
    ensures multiset(SortPorts(s)) == multiset(s)
  {
    if |s| > 0 {
      var init := s[..|s| - 1];
      var x := s[|s| - 1];
      SortPortsPermutes(init);
      assert SortPorts(s) == Insert(x, SortPorts(init));
      assert multiset(SortPorts(s)) == multiset(init) + multiset{x};
      MultisetOfLast(s);
    }
  }

  lemma MultisetOfLast<T>(s: seq<T>)
    requires |s| > 0
    ensures multiset(s) == multiset(s[..|s| - 1]) + multiset{s[|s| - 1]}
  {
    assert s == s[..|s| - 1] + [s[|s| - 1]];
  }

  /** `sorted` returns its input in order. */
  lemma {:induction false} SortPortsSorts(s: seq<CheckedPort>)
    ensures Sorted(SortPorts(s))
  {
    if |s| > 0 {
      var init := s[..|s| - 1];
      SortPortsSorts(init);
      InsertSorted(s[|s| - 1], SortPorts(init));
    }
  }

  /** `sorted` returns an ordered permutation of its input. */
  lemma SortPortsSortsAndPermutes(s: seq<CheckedPort>)
    ensures Sorted(SortPorts(s))
    ensures multiset(SortPorts(s)) == multiset(s)
  {
    SortPortsSorts(s);
    SortPortsPermutes(s);
  }

  // ---------------------------------------------------------------------
  // The port lists

  const DsPorts: seq<CheckedPort> := [
    CheckedPort(389, SockStream, "389-DS: insecure port", Some("dirsv"), false),
    CheckedPort(636, SockStream, "389-DS: secure port", Some("dirsv"), false)
  ]

  const KerberosPorts: seq<CheckedPort> := [
    CheckedPort(88, SockStream, "Kerberos KDC: TCP", Some("krb5kdc"), false),
    CheckedPort(88, SockDgram, "Kerberos KDC: UDP", Some("krb5kdc"), false),
    CheckedPort(464, SockStream, "Kerberos KPasswd: TCP", Some("krb5kdc"), false),
    CheckedPort(464, SockDgram, "Kerberos KPasswd: UDP", Some("krb5kdc"), false),
    CheckedPort(749, SockStream, "Kerberos Admin: TCP", Some("krb5kdc"), false)
  ]

  const HttpPorts: seq<CheckedPort> := [
    CheckedPort(80, SockStream, "HTTP Server: Insecure port", Some("httpd"), false),
    CheckedPort(443, SockStream, "HTTP Server: Secure port", Some("httpd"), false)
  ]

  const CaPorts: seq<CheckedPort> := [
    CheckedPort(8005, SockStream, "PKI-CA: Tomcat shutdown", Some("pki_tomcatd"), true),
    CheckedPort(8009, SockStream, "PKI-CA: Tomcat AJP", Some("pki_tomcatd"), true),
    CheckedPort(8080, SockStream, "PKI-CA: Insecure port", Some("pki_tomcatd"), false),
    CheckedPort(8443, SockStream, "PKI-CA: Secure port", Some("pki_tomcatd"), false)
  ]

  const CaLegacyPorts: seq<CheckedPort> := [
    CheckedPort(7389, SockStream, "PKI-CA: Directory Service port", None, false)
  ]

  const NamedPorts: seq<CheckedPort> := [
    CheckedPort(53, SockStream, "Bind DNS: TCP", Some("named-pkcs11"), false),
    CheckedPort(53, SockDgram, "Bind DNS: UDP", Some("named-pkcs11"), false),
    CheckedPort(953, SockDgram, "Bind DNS: remote control", Some("named-pkcs11"), true)
  ]

  const BasePorts: seq<CheckedPort> := DsPorts + KerberosPorts + HttpPorts
  const IpaPorts: seq<CheckedPort> := BasePorts + CaPorts + NamedPorts

  /** Every listed port was built with a valid socket type, and no two
      listed ports compare equal. */
  lemma IpaPortsWellFormed()
    ensures forall i :: 0 <= i < |IpaPorts| ==> ValidType(IpaPorts[i].portType)
    ensures forall i, j :: 0 <= i < j < |IpaPorts| ==> !Eq(IpaPorts[i], IpaPorts[j])
  {
    var s := IpaPorts;
    assert |s| == 16;
    forall i, j | 0 <= i < j < |s|
      ensures !Eq(s[i], s[j])
    {
      assert Key(s[i]) != Key(s[j]);
    }
  }

  // ---------------------------------------------------------------------
  // test()

  /** `repr(bool)`. */
  function BoolRepr(b: bool): string {
    if b then "True" else "False"
  }

  /** What `print(cp, "\t", bindable)` writes for one port. */
  function ReportLine(p: CheckedPort, root: bool, bindable: CheckedPort -> bool): string {
    Repr(p) + " \t " + Shown(p, root, bindable)
  }

  /** The port's status: "unknown" for a port below 1024 when not root,
      otherwise whether it could be bound. */
  function Shown(p: CheckedPort, root: bool, bindable: CheckedPort -> bool): string {
    if p.port < 1024 && !root then "unknown" else BoolRepr(bindable(p))
  }

  const NotRootNotice: string := "Not root, cannot detect ports < 1024."

  /** `root` as written: the effective GROUP id is compared with 0. */
  predicate IsRootAsWritten(euid: nat, egid: nat) {
    egid == 0
  }

  /** `root` as intended: binding ports below 1024 depends on the effective
      user id. */
  predicate IsRoot(euid: nat, egid: nat) {
    euid == 0
  }

  /** A process of an ordinary user whose group is 0 counts as root as
      written, and so tries the privileged ports instead of reporting
      "unknown"; the intended test does not. On the 389-DS port 389/TCP
      that cannot be bound, the test as written reports "False" where the
      intended one reports "unknown". */
  lemma RootTestAsWrittenUsesGroup()
    ensures IsRootAsWritten(1000, 0) && !IsRoot(1000, 0)
    ensures IpaPorts[0].port == 389 && IpaPorts[0].portType == SockStream
    ensures ReportLine(IpaPorts[0], IsRootAsWritten(1000, 0), _ => false) ==
            Repr(IpaPorts[0]) + " \t False"
    ensures ReportLine(IpaPorts[0], IsRoot(1000, 0), _ => false) ==
            Repr(IpaPorts[0]) + " \t unknown"
  {
  }

  /** The loop of `test()` over the sorted ports: the notice when not
      root, then one line per port; a port below 1024 is only tried as
      root. */
  method Report(sorted: seq<CheckedPort>, root: bool, bindable: CheckedPort -> bool) returns (lines: seq<string>)
    ensures var skip := if root then 0 else 1;
            && |lines| == |sorted| + skip
            && (!root ==> lines[0] == NotRootNotice)
            && forall i :: 0 <= i < |sorted| ==> lines[skip + i] == ReportLine(sorted[i], root, bindable)
  {
    lines := if root then [] else [NotRootNotice];
    var skip := |lines|;
    var i := 0;
    while i < |sorted|
      invariant 0 <= i <= |sorted|
      invariant |lines| == skip + i
      invariant !root ==> lines[0] == NotRootNotice
      invariant forall k :: 0 <= k < i ==> lines[skip + k] == ReportLine(sorted[k], root, bindable)
    {
      var cp := sorted[i];
      var shown: string;
      if cp.port < 1024 && !root {
        shown := "unknown";
      } else {
        shown := BoolRepr(bindable(cp));
      }
      assert shown == Shown(cp, root, bindable);
      var line := Repr(cp) + " \t " + shown;
      ExtendReport(lines, line, skip, sorted, i, root, bindable);
      lines := lines + [line];
      i := i + 1;
    }
  }

  /** One more line of the report keeps it in step with the ports. */
  lemma ExtendReport(lines: seq<string>, line: string, skip: nat, ports: seq<CheckedPort>, i: nat, root: bool, bindable: CheckedPort -> bool)
    requires i < |ports| && |lines| == skip + i
    requires forall k :: 0 <= k < i ==> lines[skip + k] == ReportLine(ports[k], root, bindable)
    requires line == ReportLine(ports[i], root, bindable)
    ensures forall k :: 0 <= k <= i ==> (lines + [line])[skip + k] == ReportLine(ports[k], root, bindable)
  {
  }

  /** `test()` on the IPA ports, root being decided by the effective user
      id. */
  method Test(euid: nat, egid: nat, bindable: CheckedPort -> bool) returns (lines: seq<string>)
    ensures var sorted := SortPorts(IpaPorts);
            var skip := if IsRoot(euid, egid) then 0 else 1;
            && |lines| == |sorted| + skip
            && (skip == 1 ==> lines[0] == NotRootNotice)
            && forall i :: 0 <= i < |sorted| ==> lines[skip + i] == ReportLine(sorted[i], IsRoot(euid, egid), bindable)
  {
    lines := Report(SortPorts(IpaPorts), euid == 0, bindable);
  }

  /** Sorting ports whose keys are pairwise distinct gives a strictly
      increasing sequence. */
  lemma SortPortsStrict(s: seq<CheckedPort>)
    requires forall i, j :: 0 <= i < j < |s| ==> !Eq(s[i], s[j])
    ensures forall i, j :: 0 <= i < j < |SortPorts(s)| ==> Lt(SortPorts(s)[i], SortPorts(s)[j])
  {
    SortPortsSortsAndPermutes(s);
    var r := SortPorts(s);
    forall i, j | 0 <= i < j < |r|
      ensures Lt(r[i], r[j])
    {
      assert Le(r[i], r[j]);
      assert r[i] in multiset(s) && r[j] in multiset(s);
      if r[i] == r[j] {
        MultisetOfTwo(r, i, j);
        var a :| 0 <= a < |s| && s[a] == r[i];
        OnlyOnce(s, a);
      } else {
        DistinctPortsDiffer(s, r[i], r[j]);
      }
    }
  }

  lemma DistinctPortsDiffer(s: seq<CheckedPort>, x: CheckedPort, y: CheckedPort)
    requires forall i, j :: 0 <= i < j < |s| ==> !Eq(s[i], s[j])
    requires x in s && y in s && x != y
    ensures !Eq(x, y)
  {
    var a :| 0 <= a < |s| && s[a] == x;
    var b :| 0 <= b < |s| && s[b] == y;
    if a < b {
      assert !Eq(s[a], s[b]);
    } else {
      assert !Eq(s[b], s[a]);
    }
  }

  /** The report lists every IPA port once, in increasing (port, type)
      order. */
  lemma ReportCoversIpaPorts()
    ensures Sorted(SortPorts(IpaPorts))
    ensures multiset(SortPorts(IpaPorts)) == multiset(IpaPorts)
    ensures forall i, j :: 0 <= i < j < |SortPorts(IpaPorts)| ==> Lt(SortPorts(IpaPorts)[i], SortPorts(IpaPorts)[j])
  {
    SortPortsSortsAndPermutes(IpaPorts);
    IpaPortsWellFormed();
    SortPortsStrict(IpaPorts);
  }

  lemma MultisetOfTwo(s: seq<CheckedPort>, i: nat, j: nat)
    requires i < j < |s| && s[i] == s[j]
    ensures multiset(s)[s[i]] >= 2
  {
    assert s == s[..i] + [s[i]] + s[i + 1..j] + [s[j]] + s[j + 1..];
  }

  lemma OnlyOnce(s: seq<CheckedPort>, a: nat)
    requires a < |s|
    requires forall i, j :: 0 <= i < j < |s| ==> !Eq(s[i], s[j])
    ensures multiset(s)[s[a]] == 1
  {
    assert s == s[..a] + [s[a]] + s[a + 1..];
    forall k | 0 <= k < |s| && k != a
      ensures s[k] != s[a]
    {
      if k < a {
        assert !Eq(s[k], s[a]);
      } else {
        assert !Eq(s[a], s[k]);
      }
    }
    assert s[a] !in s[..a];
    assert s[a] !in s[a + 1..];
  }
}
