/** Replica Update Vectors (RUVs) of `ipa-replica-manage`: decoding one
    `nsds50ruv` value (`get_ruv`), collecting the RUVs of one suffix,
    merging the domain and CA suffixes (`get_ruv_both_suffixes`), looking a
    replica ID up by host (`get_rid_by_host`) and stripping ports from the
    host names an RUV reports. */
module Ruv {
  import opened Basics
  import opened Text

  /** One decoded RUV: the `host:port` network location and the replica ID
      as the text the directory stores. */
  datatype RuvEntry = RuvEntry(netloc: string, rid: string)

  /** What one `nsds50ruv` value decodes to. */
  datatype RuvValue =
    | Generation            // "{replicageneration ...}": skipped
    | Replica(entry: RuvEntry)
    | Undecodable           // printed as "unable to decode" and skipped

  const GenerationPrefix: string := "{replicageneration"
  const ReplicaPrefix: string := "{replica "
  const SchemePrefix: string := " ldap://"

  /** Length of the run of digits `s` starts with. */
  function LeadingDigits(s: string): (n: nat)
    ensures n <= |s| && AllDigits(s[..n])
    ensures n < |s| ==> !IsDigit(s[n])
  {
    if |s| == 0 || !IsDigit(s[0]) then 0
    else
      var m := LeadingDigits(s[1..]);
      assert s[..1 + m] == [s[0]] + s[1..][..m];
      1 + m
  }

  /** Start of the run of digits `s` ends with. */
  function TrailingDigitStart(s: string): (j: nat)
    ensures j <= |s| && AllDigits(s[j..])
    ensures j > 0 ==> !IsDigit(s[j - 1])
  {
    if |s| == 0 || !IsDigit(s[|s| - 1]) then |s|
    else
      var j := TrailingDigitStart(s[..|s| - 1]);
      assert s[j..] == s[..|s| - 1][j..] + [s[|s| - 1]];
      j
  }

  lemma {:induction false} LeadingDigitsOf(d: string, t: string)
    requires AllDigits(d) && (|t| == 0 || !IsDigit(t[0]))
    ensures LeadingDigits(d + t) == |d|
  {
    if |d| > 0 {
      assert (d + t)[1..] == d[1..] + t;
      LeadingDigitsOf(d[1..], t);
    } else {
      assert d + t == t;
    }
  }

  lemma {:induction false} TrailingDigitStartOf(s: string, j: nat)
    requires 0 < j <= |s| && AllDigits(s[j..]) && !IsDigit(s[j - 1])
    ensures TrailingDigitStart(s) == j
  {
    if j < |s| {
      assert s[j..][|s| - 1 - j] == s[|s| - 1];
      assert s[..|s| - 1][j..] == s[j..|s| - 1];
      TrailingDigitStartOf(s[..|s| - 1], j);
    }
  }

  /** Does the regular expression's `.*:\d+\}` end at position `e` of the
      text after "ldap://"? `w[e]` is the closing brace, the digits before it
      follow a colon, and `.` matches everything before that colon but a
      newline. */
  predicate UrlEndsAt(w: string, e: int) {
    && 0 < e < |w| && w[e] == '}'
    && var j := TrailingDigitStart(w[..e]);
       1 <= j < e && w[j - 1] == ':' && '\n' !in w[..j - 1]
  }

  /** The last end position below `hi`: the greedy `.*` makes the match as
      long as it can be. */
  function LastUrlEnd(w: string, hi: nat): (r: Option<nat>)
    requires hi <= |w|
    ensures r.Some? ==> r.value < hi && UrlEndsAt(w, r.value)
    ensures r.Some? ==> forall e :: r.value < e < hi ==> !UrlEndsAt(w, e)
    ensures r.None? ==> forall e :: 0 <= e < hi ==> !UrlEndsAt(w, e)
  {
    if hi == 0 then None
    else if UrlEndsAt(w, hi - 1) then Some(hi - 1)
    else LastUrlEnd(w, hi - 1)
  }

  const UrlDelimiters: set<char> := {'/', '?', '#'}

  /** The network location `urlparse` finds in the text after "//": up to
      the first '/', '?' or '#'. */
  function Netloc(u: string): (r: string)
    ensures |r| <= |u| && r == u[..|r|]
    ensures |r| < |u| ==> u[|r|] in UrlDelimiters
    ensures forall i :: 0 <= i < |r| ==> r[i] !in UrlDelimiters
  {
    if |u| == 0 || u[0] in UrlDelimiters then []
    else [u[0]] + Netloc(u[1..])
  }

  /** Decoding of one `nsds50ruv` value: a generation value, a replica value
      matched by `\{replica (\d+) (ldap://.*:\d+)\}` at the start of the
      text, or neither. A decoded replica ID is a non-empty run of digits
      and the network location holds no '/', '?' or '#'. */
  function ParseRuvValue(v: string): (r: RuvValue)
    ensures r.Generation? <==> StartsWith(v, GenerationPrefix)
    ensures r.Replica? ==> StartsWith(v, ReplicaPrefix) && |r.entry.rid| > 0 && AllDigits(r.entry.rid)
    ensures r.Replica? ==> forall i :: 0 <= i < |r.entry.netloc| ==> r.entry.netloc[i] !in UrlDelimiters
  {
    if StartsWith(v, GenerationPrefix) then Generation
    else if !StartsWith(v, ReplicaPrefix) then Undecodable
    else ParseReplicaBody(v[|ReplicaPrefix|..])
  }

  /** The text after "{replica ": the replica ID, " ldap://", then the URL. */
  function ParseReplicaBody(rest: string): (r: RuvValue)
    ensures r.Replica? ==> |r.entry.rid| > 0 && AllDigits(r.entry.rid)
    ensures r.Replica? ==> forall i :: 0 <= i < |r.entry.netloc| ==> r.entry.netloc[i] !in UrlDelimiters
    ensures !r.Generation?
  {
    var n := LeadingDigits(rest);
    if n == 0 || !StartsWith(rest[n..], SchemePrefix) then Undecodable
    else ParseUrl(rest[..n], rest[n..][|SchemePrefix|..])
  }

  /** The text after "ldap://", up to the end of the greedy match. */
  function ParseUrl(rid: string, w: string): (r: RuvValue)
    ensures r.Replica? ==> r.entry.rid == rid
    ensures r.Replica? ==> forall i :: 0 <= i < |r.entry.netloc| ==> r.entry.netloc[i] !in UrlDelimiters
    ensures !r.Generation?
  {
    match LastUrlEnd(w, |w|)
    case None => Undecodable
    case Some(e) => Replica(RuvEntry(Netloc(w[..e]), rid))
  }

  /** The value a directory server writes for a replica decodes back to its
      `host:port` and replica ID, whatever trails the closing brace (as long
      as it holds no further brace). */
  lemma ParseRuvValueOfReplica(rid: string, host: string, port: string, tail: string)
    requires |rid| > 0 && AllDigits(rid) && |port| > 0 && AllDigits(port)
    requires forall i :: 0 <= i < |host| ==> host[i] !in UrlDelimiters && host[i] != '\n'
    requires '}' !in tail
    ensures ParseRuvValue(ReplicaPrefix + rid + SchemePrefix + (host + ":" + port + "}" + tail)) ==
            Replica(RuvEntry(host + ":" + port, rid))
  {
    var w := host + ":" + port + "}" + tail;
    ParseReplicaParts(rid, w);
    ReplicaUrl(rid, host, port, tail);
  }

  /** The URL part of such a value decodes to its `host:port`. */
  lemma ReplicaUrl(rid: string, host: string, port: string, tail: string)
    requires |port| > 0 && AllDigits(port)
    requires forall i :: 0 <= i < |host| ==> host[i] !in UrlDelimiters && host[i] != '\n'
    requires '}' !in tail
    ensures ParseUrl(rid, host + ":" + port + "}" + tail) == Replica(RuvEntry(host + ":" + port, rid))
  {
    var w := host + ":" + port + "}" + tail;
    var e := |host| + 1 + |port|;
    var hp := host + ":" + port;
    LastUrlEndOf(host, port, tail);
    assert LastUrlEnd(w, |w|) == Some(e);
    TakeOfAppend(hp, "}", tail);
    NetlocOfHostPort(host, port);
    ParseUrlAt(rid, w, e);
  }

  lemma TakeOfAppend<T>(a: seq<T>, b: seq<T>, c: seq<T>)
    ensures (a + b + c)[..|a|] == a
  {
  }

  lemma ParseUrlAt(rid: string, w: string, e: nat)
    requires LastUrlEnd(w, |w|) == Some(e)
    ensures e < |w| && ParseUrl(rid, w) == Replica(RuvEntry(Netloc(w[..e]), rid))
  {
  }

  lemma NetlocOfHostPort(host: string, port: string)
    requires AllDigits(port)
    requires forall i :: 0 <= i < |host| ==> host[i] !in UrlDelimiters
    ensures Netloc(host + ":" + port) == host + ":" + port
  {
    var u := host + ":" + port;
    forall i | 0 <= i < |u|
      ensures u[i] !in UrlDelimiters
    {
      if i < |host| {
        assert u[i] == host[i];
      } else if i > |host| {
        assert u[i] == port[i - |host| - 1];
      }
    }
    NetlocWhole(u);
  }

  /** A replica value is decoded from the text after "ldap://". */
  lemma ParseReplicaParts(rid: string, w: string)
    requires |rid| > 0 && AllDigits(rid)
    ensures ParseRuvValue(ReplicaPrefix + rid + SchemePrefix + w) == ParseUrl(rid, w)
  {
    var rest := rid + SchemePrefix + w;
    var v := ReplicaPrefix + rid + SchemePrefix + w;
    assert v == ReplicaPrefix + rest;
    NotGeneration(rest);
    ReplicaPrefixed(rest);
    assert ParseRuvValue(v) == ParseReplicaBody(v[|ReplicaPrefix|..]);
    ReplicaIdThenScheme(rid, w);
    var n := LeadingDigits(rest);
    assert n == |rid| && rest[..n] == rid && rest[n..][|SchemePrefix|..] == w;
    assert ParseReplicaBody(rest) == ParseUrl(rid, w);
  }

  lemma NotGeneration(rest: string)
    ensures !StartsWith(ReplicaPrefix + rest, GenerationPrefix)
  {
    assert (ReplicaPrefix + rest)[8] == ' ';
  }

  lemma ReplicaPrefixed(rest: string)
    ensures StartsWith(ReplicaPrefix + rest, ReplicaPrefix)
    ensures (ReplicaPrefix + rest)[|ReplicaPrefix|..] == rest
  {
  }

  lemma ReplicaIdThenScheme(rid: string, w: string)
    requires |rid| > 0 && AllDigits(rid)
    ensures var rest := rid + SchemePrefix + w;
      LeadingDigits(rest) == |rid| && rest[..|rid|] == rid &&
      StartsWith(rest[|rid|..], SchemePrefix) && rest[|rid|..][|SchemePrefix|..] == w
  {
    var rest := rid + SchemePrefix + w;
    LeadingDigitsOf(rid, SchemePrefix + w);
    assert rest[..|rid|] == rid;
    assert rest[|rid|..] == SchemePrefix + w;
    assert (SchemePrefix + w)[|SchemePrefix|..] == w;
  }

  /** The greedy match ends at the brace after the port when no later brace
      follows. */
  lemma LastUrlEndOf(host: string, port: string, tail: string)
    requires |port| > 0 && AllDigits(port)
    requires forall i :: 0 <= i < |host| ==> host[i] != '\n'
    requires '}' !in tail
    ensures var w := host + ":" + port + "}" + tail;
      LastUrlEnd(w, |w|) == Some(|host| + 1 + |port|)
  {
    var w := host + ":" + port + "}" + tail;
    var e := |host| + 1 + |port|;
    var u := host + ":" + port;
    assert w[..e] == u;
    assert u[|host| + 1..] == port;
    TrailingDigitStartOf(u, |host| + 1);
    assert u[..|host|] == host;
    assert UrlEndsAt(w, e);
    forall e' | e < e' < |w|
      ensures !UrlEndsAt(w, e')
    {
      assert w[e'] == tail[e' - e - 1];
    }
  }

  lemma {:induction false} NetlocWhole(u: string)
    requires forall i :: 0 <= i < |u| ==> u[i] !in UrlDelimiters
    ensures Netloc(u) == u
  {
    if |u| > 0 {
      NetlocWhole(u[1..]);
    }
  }

  /** What `get_ruv` collects: the decoded replica values in order, and the
      values it reports as undecodable. */
  datatype RuvScan = RuvScan(servers: seq<RuvEntry>, undecoded: seq<string>)

  /** One step of the loop over `nsds50ruv` values. */
  function ScanStep(acc: RuvScan, v: string): RuvScan {
    match ParseRuvValue(v)
    case Generation => acc
    case Replica(entry) => acc.(servers := acc.servers + [entry])
    case Undecodable => acc.(undecoded := acc.undecoded + [v])
  }

  /** The scan of a list of values continuing from `acc`, one step per
      value in order. */
  function ScanFrom(acc: RuvScan, vs: seq<string>): RuvScan {
    if |vs| == 0 then acc
    else ScanStep(ScanFrom(acc, vs[..|vs| - 1]), vs[|vs| - 1])
  }

  /** The scan of a list of values from nothing collected. */
  function ScanValues(vs: seq<string>): RuvScan {
    ScanFrom(RuvScan([], []), vs)
  }

  /** Scanning two lists in turn is scanning their concatenation. */
  lemma {:induction false} ScanFromAppend(acc: RuvScan, xs: seq<string>, ys: seq<string>)
    ensures ScanFrom(ScanFrom(acc, xs), ys) == ScanFrom(acc, xs + ys)
  {
    if |ys| > 0 {
      ScanFromAppend(acc, xs, ys[..|ys| - 1]);
      assert (xs + ys)[..|xs + ys| - 1] == xs + ys[..|ys| - 1];
    } else {
      assert xs + ys == xs;
    }
  }

  /** One step adds at most the value's own entry or the value itself. */
  lemma ScanStepMembers(acc: RuvScan, v: string)
    ensures forall e :: e in ScanStep(acc, v).servers <==> e in acc.servers || ParseRuvValue(v) == Replica(e)
    ensures forall u :: u in ScanStep(acc, v).undecoded <==> u in acc.undecoded || (u == v && ParseRuvValue(v).Undecodable?)
  {
    match ParseRuvValue(v)
    case Generation =>
    case Replica(entry) =>
      assert ScanStep(acc, v).servers == acc.servers + [entry];
    case Undecodable =>
      assert ScanStep(acc, v).undecoded == acc.undecoded + [v];
  }

  /** Every collected entry comes from a value that decodes to it, and every
      replica value is collected; likewise for the undecodable values. */
  lemma ScanValuesMembers(vs: seq<string>)
    ensures forall e :: e in ScanValues(vs).servers <==> exists v :: v in vs && ParseRuvValue(v) == Replica(e)
    ensures forall v :: v in ScanValues(vs).undecoded <==> v in vs && ParseRuvValue(v).Undecodable?
  {
    forall e
      ensures e in ScanValues(vs).servers <==> exists v :: v in vs && ParseRuvValue(v) == Replica(e)
    {
      if e in ScanValues(vs).servers {
        ScanServersSound(vs, e);
      }
      if exists v :: v in vs && ParseRuvValue(v) == Replica(e) {
        var v :| v in vs && ParseRuvValue(v) == Replica(e);
        ScanServersComplete(vs, v);
      }
    }
    forall v
      ensures v in ScanValues(vs).undecoded <==> v in vs && ParseRuvValue(v).Undecodable?
    {
      ScanUndecoded(vs, v);
    }
  }

  /** A value scanned off the end of a list adds to what the rest gave. */
  lemma ScanValuesLast(vs: seq<string>)
    requires |vs| > 0
    ensures ScanValues(vs) == ScanStep(ScanValues(vs[..|vs| - 1]), vs[|vs| - 1])
  {
  }

  lemma {:induction false} ScanServersSound(vs: seq<string>, e: RuvEntry)
    requires e in ScanValues(vs).servers
    ensures exists v :: v in vs && ParseRuvValue(v) == Replica(e)
  {
    var init := vs[..|vs| - 1];
    var last := vs[|vs| - 1];
    ScanValuesLast(vs);
    ScanStepMembers(ScanValues(init), last);
    if e in ScanValues(init).servers {
      ScanServersSound(init, e);
      var v :| v in init && ParseRuvValue(v) == Replica(e);
      assert v in vs;
    } else {
      assert last in vs;
    }
  }

  lemma {:induction false} ScanServersComplete(vs: seq<string>, v: string)
    requires v in vs && ParseRuvValue(v).Replica?
    ensures ParseRuvValue(v).entry in ScanValues(vs).servers
  {
    var init := vs[..|vs| - 1];
    var last := vs[|vs| - 1];
    ScanValuesLast(vs);
    ScanStepMembers(ScanValues(init), last);
    if v != last {
      assert vs == init + [last];
      assert v in init;
      ScanServersComplete(init, v);
    }
  }

  lemma {:induction false} ScanUndecoded(vs: seq<string>, v: string)
    ensures v in ScanValues(vs).undecoded <==> v in vs && ParseRuvValue(v).Undecodable?
  {
    if |vs| > 0 {
      var init := vs[..|vs| - 1];
      var last := vs[|vs| - 1];
      ScanValuesLast(vs);
      ScanStepMembers(ScanValues(init), last);
      ScanUndecoded(init, v);
      assert vs == init + [last];
      assert v in vs <==> v in init || v == last;
    }
  }

  /** Replica IDs collected by a scan are runs of digits. */
  lemma {:induction false} ScanValuesRids(vs: seq<string>)
    ensures forall i :: 0 <= i < |ScanValues(vs).servers| ==>
      |ScanValues(vs).servers[i].rid| > 0 && AllDigits(ScanValues(vs).servers[i].rid)
  {
    if |vs| > 0 {
      ScanValuesRids(vs[..|vs| - 1]);
      assert ScanValues(vs) == ScanStep(ScanValues(vs[..|vs| - 1]), vs[|vs| - 1]);
    }
  }

  /** The result of the search for the RUV tombstone of one suffix. */
  datatype RuvQuery =
    | ConnectFailed                     // the replication manager could not connect
    | Tombstones(entries: seq<seq<string>>)   // the `nsds50ruv` values of each entry found

  /** Why no RUV list was produced: RuntimeError or NoRUVsFound. */
  datatype RuvError = RuntimeFailure | NoRuvsFound

  /** The values of all entries, in order. */
  function Flatten(es: seq<seq<string>>): seq<string> {
    if |es| == 0 then [] else Flatten(es[..|es| - 1]) + es[|es| - 1]
  }

  /** `get_ruv` as one expression. An empty search result is NotFound. */
  function GetRuvSpec(q: RuvQuery): Result<RuvScan, RuvError> {
    match q
    case ConnectFailed => Err(RuntimeFailure)
    case Tombstones(es) => if |es| == 0 then Err(NoRuvsFound) else Ok(ScanValues(Flatten(es)))
  }

  /** `get_ruv`: for each tombstone entry, for each of its values, skip
      generations, collect decoded replicas and report the rest. */
  method GetRuv(q: RuvQuery) returns (r: Result<RuvScan, RuvError>)
    ensures r == GetRuvSpec(q)
  {
    if q.ConnectFailed? {
      return Err(RuntimeFailure);
    }
    var es := q.entries;
    if |es| == 0 {
      return Err(NoRuvsFound);
    }
    var scan := RuvScan([], []);
    var i := 0;
    while i < |es|
      invariant 0 <= i <= |es|
      invariant scan == ScanValues(Flatten(es[..i]))
    {
      scan := ScanEntry(scan, es[i]);
      ScanFromAppend(RuvScan([], []), Flatten(es[..i]), es[i]);
      assert es[..i + 1][..i] == es[..i];
      i := i + 1;
    }
    assert es[..i] == es;
    r := Ok(scan);
  }

  /** The inner loop of `get_ruv` over the `nsds50ruv` values of one entry. */
  method ScanEntry(acc: RuvScan, vs: seq<string>) returns (scan: RuvScan)
    ensures scan == ScanFrom(acc, vs)
  {
    scan := acc;
    var j := 0;
    while j < |vs|
      invariant 0 <= j <= |vs|
      invariant scan == ScanFrom(acc, vs[..j])
    {
      var v := vs[j];
      assert vs[..j + 1][..j] == vs[..j];
      if StartsWith(v, GenerationPrefix) {
        j := j + 1;
        continue;
      }
      var decoded := ParseRuvValue(v);
      if decoded.Replica? {
        scan := scan.(servers := scan.servers + [decoded.entry]);
      } else {
        scan := scan.(undecoded := scan.undecoded + [v]);
      }
      j := j + 1;
    }
    assert vs[..j] == vs;
  }

  /** The RUVs of both suffixes: each is present when its lookup produced
      a list (possibly empty). */
  datatype BothRuvs = BothRuvs(ca: Option<seq<RuvEntry>>, domain: Option<seq<RuvEntry>>)

  function Present(l: Result<RuvScan, RuvError>): Option<seq<RuvEntry>> {
    if l.Ok? then Some(l.value.servers) else None
  }

  /** `get_ruv_both_suffixes` over the outcomes of the CA lookup (made first)
      and the domain lookup. A RuntimeError of the domain lookup propagates
      only when the CA lookup failed with one too; a NoRUVsFound on either
      side is swallowed; when neither side produced a list the result is
      NoRUVsFound. Otherwise both lists are handed back unchanged. */
  function RuvsBothSuffixes(ca: Result<RuvScan, RuvError>, domain: Result<RuvScan, RuvError>): (r: Result<BothRuvs, RuvError>)
    ensures r == Err(RuntimeFailure) <==> ca == Err(RuntimeFailure) && domain == Err(RuntimeFailure)
    ensures r == Err(NoRuvsFound) <==> ca.Err? && domain.Err? && !(ca.error.RuntimeFailure? && domain.error.RuntimeFailure?)
    ensures r.Ok? <==> ca.Ok? || domain.Ok?
    ensures r.Ok? ==> r.value == BothRuvs(Present(ca), Present(domain))
  {
    var failGracefully := !(ca.Err? && ca.error.RuntimeFailure?);
    if domain.Err? && domain.error.RuntimeFailure? && !failGracefully then Err(domain.error)
    else if ca.Err? && domain.Err? then Err(NoRuvsFound)
    else Ok(BothRuvs(Present(ca), Present(domain)))
  }

  /** `get_rid_by_host`: the replica ID of the first RUV whose network
      location is `host:389`. A connection failure exits with status 1
      (Err); NoRUVsFound counts as an empty list. */
  method GetRidByHost(q: RuvQuery, host: string) returns (r: Result<Option<int>, RuvError>)
    ensures r.Err? <==> q.ConnectFailed?
    ensures r.Err? ==> r.error == RuntimeFailure
    ensures r == Ok(None) <==>
      GetRuvSpec(q) == Err(NoRuvsFound) ||
      (GetRuvSpec(q).Ok? && forall e :: e in GetRuvSpec(q).value.servers ==> e.netloc != host + ":389")
    ensures r.Ok? && r.value.Some? ==>
      GetRuvSpec(q).Ok? &&
      var servers := GetRuvSpec(q).value.servers;
      exists i :: 0 <= i < |servers| && servers[i].netloc == host + ":389" &&
        ParseInt(servers[i].rid) == Some(r.value.value) &&
        forall k :: 0 <= k < i ==> servers[k].netloc != host + ":389"
  {
    var found := GetRuv(q);
    var servers: seq<RuvEntry>;
    match found {
      case Err(RuntimeFailure) =>
        return Err(RuntimeFailure);
      case Err(NoRuvsFound) =>
        servers := [];
      case Ok(scan) =>
        servers := scan.servers;
        ScanValuesRids(Flatten(q.entries));
    }
    var i := 0;
    while i < |servers|
      invariant 0 <= i <= |servers|
      invariant forall k :: 0 <= k < i ==> servers[k].netloc != host + ":389"
    {
      if servers[i].netloc == host + ":389" {
        ParseDigits(servers[i].rid);
        return Ok(Some(DigitsValue(servers[i].rid)));
      }
      i := i + 1;
    }
    r := Ok(None);
  }

  // ---------------------------------------------------------------------
  // Port stripping: re.sub(':\d+', '', name)

  /** Does `s` hold a colon followed by a digit at position `i`? */
  predicate PortAt(s: string, i: int) {
    0 <= i < |s| - 1 && s[i] == ':' && IsDigit(s[i + 1])
  }

  /** Every colon followed by a run of digits removed, scanning left to
      right as `re.sub` does: no colon of the result is followed by a digit,
      and a result that starts with a digit comes from a text that does. */
  function StripPort(s: string): (r: string)
    ensures |r| <= |s|
    ensures forall i :: 0 <= i < |r| ==> !PortAt(r, i)
    ensures |r| > 0 && IsDigit(r[0]) ==> |s| > 0 && IsDigit(s[0])
    decreases |s|
  {
    if |s| == 0 then []
    else if PortAt(s, 0) then
      var n := LeadingDigits(s[1..]);
      StripPort(s[1 + n..])
    else
      var rest := StripPort(s[1..]);
      var r := [s[0]] + rest;
      assert forall i :: 1 <= i < |r| ==> (PortAt(r, i) <==> PortAt(rest, i - 1));
      r
  }

  /** A text with no colon followed by a digit is left alone. */
  lemma {:induction false} StripPortUnchanged(s: string)
    requires forall i :: 0 <= i < |s| ==> !PortAt(s, i)
    ensures StripPort(s) == s
    decreases |s|
  {
    if |s| > 0 {
      assert !PortAt(s, 0);
      assert forall i :: 0 <= i < |s[1..]| ==> (PortAt(s[1..], i) <==> PortAt(s, i + 1));
      StripPortUnchanged(s[1..]);
    }
  }

  /** Stripping twice is stripping once. */
  lemma StripPortIdempotent(s: string)
    ensures StripPort(StripPort(s)) == StripPort(s)
  {
    StripPortUnchanged(StripPort(s));
  }

  /** A network location `host:port` with a colon-free host strips to the
      host. */
  lemma {:induction false} StripPortOfNetloc(host: string, port: string)
    requires ':' !in host && |port| > 0 && AllDigits(port)
    ensures StripPort(host + ":" + port) == host
    decreases |host|
  {
    var s := host + ":" + port;
    if |host| == 0 {
      assert s == ":" + port && s[1..] == port;
      LeadingDigitsOf(port, []);
      assert port + [] == port;
      assert s[1 + |port|..] == [];
    } else {
      assert !PortAt(s, 0);
      assert s[1..] == host[1..] + ":" + port;
      StripPortOfNetloc(host[1..], port);
    }
  }
}
