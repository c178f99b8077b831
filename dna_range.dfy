/** DNA (distributed numeric assignment) ranges of `ipa-replica-manage`:
    the syntax check of a range argument (`validate_range`), the closed
    interval overlap test (`range_intersection`), setting a master's current
    or on-deck range after checking it against every other master and the
    ID ranges (`set_DNA_range`), and handing a freed range to a surviving
    master (`store_DNA_range`).

    Every directory read is an input: a snapshot of what each master
    reported, the entries under cn=ranges and the reply of the final write. */
module DnaRange {
  import opened Basics
  import opened Text

  /** `xmlrpc_client.MAXINT`, the largest signed 32-bit integer. */
  const MAXINT: int := 2147483647

  /** The error strings `validate_range` returns. */
  datatype RangeError =
    | NotTheFormXY   // "Invalid range, must be the form x-y"
    | NotIntegers    // "The range must consist of integers"
    | OutOfBounds    // "The range must consist of positive integers between 1 and MAXINT"
    | InvalidRange   // "Invalid range"

  /** `range.split('-', 1)` and `int()` on both halves, as `set_DNA_range`
      normalises a validated range. The text before the first '-' holds no
      '-', so a parsed start is never negative. */
  function ParseRange(range: string): (r: Option<(int, int)>)
    ensures r.Some? ==> r.value.0 >= 0
  {
    match SplitOnce(range, '-')
    case None => None
    case Some((lo, hi)) =>
      var a := ParseInt(lo);
      var b := ParseInt(hi);
      if a.Some? && b.Some? then Some((a.value, b.value)) else None
  }

  /** The endpoints a validated range may have. */
  predicate Acceptable(a: int, b: int, allowAllZero: bool) {
    (a == 0 && b == 0 && allowAllZero) || 0 < a < b < MAXINT
  }

  /** `validate_range`: None when the range is usable, the first failed
      check otherwise. It accepts exactly the texts that parse to acceptable
      endpoints, and each error names the first check that failed. */
  function ValidateRange(range: string, allowAllZero: bool): (r: Option<RangeError>)
    ensures r == Some(NotTheFormXY) <==> '-' !in range
    ensures r == Some(NotIntegers) <==> '-' in range && ParseRange(range).None?
    ensures r.None? <==>
      ParseRange(range).Some? && Acceptable(ParseRange(range).value.0, ParseRange(range).value.1, allowAllZero)
    ensures r == Some(OutOfBounds) ==>
      ParseRange(range).Some? && !(ParseRange(range).value == (0, 0) && allowAllZero) &&
      var (a, b) := ParseRange(range).value; a <= 0 || b <= 0 || a >= MAXINT || b >= MAXINT
    ensures r == Some(InvalidRange) ==>
      ParseRange(range).Some? && var (a, b) := ParseRange(range).value; 0 < b <= a < MAXINT
  {
    match SplitOnce(range, '-')
    case None => Some(NotTheFormXY)
    case Some((dnaNext, dnaMax)) =>
      var next := ParseInt(dnaNext);
      var max := ParseInt(dnaMax);
      if next.None? || max.None? then Some(NotIntegers)
      else if next.value == 0 && max.value == 0 && allowAllZero then None
      else if next.value <= 0 || max.value <= 0 || next.value >= MAXINT || max.value >= MAXINT then
        Some(OutOfBounds)
      else if next.value >= max.value then Some(InvalidRange)
      else None
  }

  /** A range written as `str(a) + "-" + str(b)` with a non-negative start
      passes validation exactly when its endpoints are acceptable. */
  lemma ValidateFormattedRange(a: nat, b: int, allowAllZero: bool)
    ensures ParseRange(IntToString(a) + "-" + IntToString(b)) == Some((a, b))
    ensures ValidateRange(IntToString(a) + "-" + IntToString(b), allowAllZero).None? <==>
            Acceptable(a, b, allowAllZero)
  {
    var lo := IntToString(a);
    assert forall k :: 0 <= k < |lo| ==> lo[k] != '-';
    SplitOnceAt(lo, '-', IntToString(b));
    assert IntToString(a) + "-" + IntToString(b) == lo + ['-'] + IntToString(b);
    ParseIntToString(a);
    ParseIntToString(b);
  }

  /** The all-zero range "0-0" is accepted only where the all-zero sentinel
      is allowed (clearing an on-deck range). */
  lemma AllZeroOnlyAsSentinel(allowAllZero: bool)
    ensures ValidateRange("0-0", allowAllZero).None? <==> allowAllZero
  {
    ValidateFormattedRange(0, 0, allowAllZero);
    assert IntToString(0) == "0";
    assert IntToString(0) + "-" + IntToString(0) == "0-0";
  }

  /** A start led by a file separator (0x1c) is not an integer to `int()`,
      so the range is refused rather than written as 1-2. */
  lemma SeparatorLedRangeRefused(allowAllZero: bool)
    ensures ValidateRange([28 as char] + "1-2", allowAllZero) == Some(NotIntegers)
  {
    var lo := [28 as char] + "1";
    SplitOnceAt(lo, '-', "2");
    assert lo + ['-'] + "2" == [28 as char] + "1-2";
    ParseIntKeepsSeparators();
  }

  /** `range_intersection`: do the closed intervals [s1, s2] and [r1, r2]
      share a point? */
  function RangeIntersection(s1: int, s2: int, r1: int, r2: int): bool {
    (if s1 > r1 then s1 else r1) <= (if s2 < r2 then s2 else r2)
  }

  /** The overlap test holds exactly when some integer lies in both closed
      intervals (an empty interval overlaps nothing). */
  lemma RangeIntersectionSharesPoint(s1: int, s2: int, r1: int, r2: int)
    ensures RangeIntersection(s1, s2, r1, r2) <==> exists x :: Within(x, s1, s2) && Within(x, r1, r2)
  {
    if RangeIntersection(s1, s2, r1, r2) {
      var x := if s1 > r1 then s1 else r1;
      assert Within(x, s1, s2) && Within(x, r1, r2);
    }
  }

  /** `x` lies in the closed interval [lo, hi]. */
  predicate Within(x: int, lo: int, hi: int) {
    lo <= x <= hi
  }

  /** The overlap test does not depend on the order of the two intervals. */
  lemma RangeIntersectionSymmetric(s1: int, s2: int, r1: int, r2: int)
    ensures RangeIntersection(s1, s2, r1, r2) == RangeIntersection(r1, r2, s1, s2)
  {
  }

  /** A DNA range as a master stores it: the next value and the max value. */
  datatype Interval = Interval(start: int, max: int)

  /** What reading one master's DNA configuration gave. */
  datatype DnaView =
    | Unreachable        // the connection failed: "Overlap not checked."
    | NoReadPermission   // get_DNA_range raised NotFound
    | Ranges(current: Option<Interval>, next: Option<Interval>)

  /** One entry under cn=masters with its DNA configuration. */
  datatype MasterDna = MasterDna(name: string, view: DnaView)

  /** The object class of an entry under cn=ranges. */
  datatype RangeClass = DomainIdRange | TrustedDomainRange | OtherRange

  /** An ID range entry: `ipabaseid` and `ipaidrangesize`. */
  datatype IdRange = IdRange(cls: RangeClass, base: int, size: int)

  /** LDAP search scopes used on cn=ranges. */
  datatype Scope = ScopeBase | ScopeOneLevel

  /** What `save_DNA_range` / `save_DNA_next_range` did. */
  datatype SaveReply =
    | Saved
    | SaveReturnedFalse
    | EmptyModlist       // the new value equals the stored one
    | SaveNotFound
    | SaveRaised

  /** The directory as `set_DNA_range` reads it. `masters` is None when the
      search of cn=masters fails (an empty result fails too: the directory
      client reports it as NotFound). */
  datatype DnaSnapshot = DnaSnapshot(
    targetReachable: bool,
    masters: Option<seq<MasterDna>>,
    ranges: seq<IdRange>,
    save: SaveReply)

  /** Why `set_DNA_range` exits. */
  datatype SetRangeError =
    | BadRange(reason: RangeError)
    | ConnectionFailed                // "Connection failed: ..."
    | MastersUnreadable               // "Failed to read master data from ..."
    | OverlapsDnaRange(master: string)      // "New range overlaps the DNA range on ..."
    | OverlapsDnaNextRange(master: string)  // "New range overlaps the DNA next range on ..."
    | IdRangesUnavailable             // "Unable to load IPA ranges"
    | OutsideIdRanges                 // "New range does not fit within existing IPA ranges"
    | OverlapsTrustRange              // "New range overlaps with a Trust range"
    | UpdateFailed                    // "Updating [next] range failed"
    | NoChangesToMake                 // "No changes to make"
    | NoUpdatePermission              // "No permission to update ranges"
    | UpdateRaised                    // "Updating [next] range failed: ..."

  /** The errors that come from the write itself; every other error is
      raised before anything is written. */
  predicate AfterWrite(e: SetRangeError) {
    e.UpdateFailed? || e.NoChangesToMake? || e.NoUpdatePermission? || e.UpdateRaised?
  }

  /** The entries a search of cn=ranges returns for one object class. A
      base-scope search examines only the cn=ranges container itself, which
      is not an ID range, so it returns nothing. */
  function SearchRanges(children: seq<IdRange>, scope: Scope, cls: RangeClass): (r: seq<IdRange>)
    ensures scope == ScopeOneLevel ==> forall e :: e in r <==> e in children && e.cls == cls
  {
    if scope == ScopeBase || |children| == 0 then []
    else (if children[0].cls == cls then [children[0]] else []) + SearchRanges(children[1..], scope, cls)
  }

  /** The masters the overlap loop looks at: all of them, except the target
      itself when its current (not its next) range is being set. */
  predicate Checked(m: MasterDna, hostname: string, nextRange: bool) {
    !(m.name == hostname && !nextRange)
  }

  predicate Hits(r: Option<Interval>, a: int, b: int) {
    r.Some? && RangeIntersection(r.value.start, r.value.max, a, b)
  }

  /** The overlap a checked master with readable ranges shows, if any. */
  function OverlapAt(m: MasterDna, hostname: string, nextRange: bool, a: int, b: int): Option<SetRangeError> {
    if !Checked(m, hostname, nextRange) || !m.view.Ranges? then None
    else if Hits(m.view.current, a, b) then Some(OverlapsDnaRange(m.name))
    else if Hits(m.view.next, a, b) then Some(OverlapsDnaNextRange(m.name))
    else None
  }

  /** The first overlap the loop over the masters runs into. */
  function FirstOverlap(ms: seq<MasterDna>, hostname: string, nextRange: bool, a: int, b: int): (r: Option<SetRangeError>)
    ensures r.Some? ==> r.value.OverlapsDnaRange? || r.value.OverlapsDnaNextRange?
  {
    if |ms| == 0 then None
    else if OverlapAt(ms[0], hostname, nextRange, a, b).Some? then OverlapAt(ms[0], hostname, nextRange, a, b)
    else FirstOverlap(ms[1..], hostname, nextRange, a, b)
  }

  /** No overlap is found exactly when no checked master's current or next
      range meets the new one. */
  lemma {:induction false} FirstOverlapNone(ms: seq<MasterDna>, hostname: string, nextRange: bool, a: int, b: int)
    ensures FirstOverlap(ms, hostname, nextRange, a, b).None? <==>
            forall i :: 0 <= i < |ms| ==> OverlapAt(ms[i], hostname, nextRange, a, b).None?
  {
    if |ms| > 0 {
      FirstOverlapNone(ms[1..], hostname, nextRange, a, b);
      assert forall i :: 1 <= i < |ms| ==> ms[i] == ms[1..][i - 1];
    }
  }

  /** The first overlap found is a real one, on some master of the list. */
  lemma {:induction false} FirstOverlapFound(ms: seq<MasterDna>, hostname: string, nextRange: bool, a: int, b: int)
    requires FirstOverlap(ms, hostname, nextRange, a, b).Some?
    ensures exists i :: 0 <= i < |ms| && OverlapAt(ms[i], hostname, nextRange, a, b) == FirstOverlap(ms, hostname, nextRange, a, b)
  {
    if OverlapAt(ms[0], hostname, nextRange, a, b).None? {
      FirstOverlapFound(ms[1..], hostname, nextRange, a, b);
      var i :| 0 <= i < |ms[1..]| && OverlapAt(ms[1..][i], hostname, nextRange, a, b) == FirstOverlap(ms[1..], hostname, nextRange, a, b);
      assert ms[1..][i] == ms[i + 1];
    }
  }

  predicate Contains(d: IdRange, a: int, b: int) {
    a >= d.base && b <= d.base + d.size
  }

  predicate HitsTrust(t: IdRange, a: int, b: int) {
    RangeIntersection(a, b, t.base, t.base + t.size)
  }

  /** The checks against cn=ranges: the new range must fit inside one domain
      ID range and miss every trust range; `trustScope` is the scope of the
      trust-range search. */
  function IdRangeVerdict(ranges: seq<IdRange>, a: int, b: int, trustScope: Scope): Option<SetRangeError> {
    var domains := SearchRanges(ranges, ScopeOneLevel, DomainIdRange);
    var trusts := SearchRanges(ranges, trustScope, TrustedDomainRange);
    if |domains| == 0 then Some(IdRangesUnavailable)
    else if forall d :: d in domains ==> !Contains(d, a, b) then Some(OutsideIdRanges)
    else if exists t :: t in trusts && HitsTrust(t, a, b) then Some(OverlapsTrustRange)
    else None
  }

  /** As written, the trust ranges are searched with a base scope and so
      never found: the trust check cannot fail, whatever cn=ranges holds. */
  lemma TrustCheckAsWrittenIsDead(ranges: seq<IdRange>, a: int, b: int)
    ensures IdRangeVerdict(ranges, a, b, ScopeBase) != Some(OverlapsTrustRange)
  {
  }

  /** A concrete directory on which the search as written accepts the range
      1000-2000 although it overlaps the trust range based at 1500. */
  lemma TrustCheckAsWrittenAcceptsOverlap()
    ensures var ranges := [IdRange(DomainIdRange, 1000, 200000), IdRange(TrustedDomainRange, 1500, 100)];
            HitsTrust(ranges[1], 1000, 2000) && IdRangeVerdict(ranges, 1000, 2000, ScopeBase).None?
  {
    var ranges := [IdRange(DomainIdRange, 1000, 200000), IdRange(TrustedDomainRange, 1500, 100)];
    assert ranges[0] in SearchRanges(ranges, ScopeOneLevel, DomainIdRange);
  }

  /** With the one-level search the trust check refuses any range that
      meets a trust range. */
  lemma TrustCheckRejectsOverlap(ranges: seq<IdRange>, a: int, b: int, t: IdRange)
    requires t in ranges && t.cls == TrustedDomainRange && HitsTrust(t, a, b)
    ensures IdRangeVerdict(ranges, a, b, ScopeOneLevel).Some?
  {
    assert t in SearchRanges(ranges, ScopeOneLevel, TrustedDomainRange);
  }

  /** The outcome of the final write. */
  function SaveVerdict(reply: SaveReply): Result<(), SetRangeError> {
    match reply
    case Saved => Ok(())
    case SaveReturnedFalse => Err(UpdateFailed)
    case EmptyModlist => Err(NoChangesToMake)
    case SaveNotFound => Err(NoUpdatePermission)
    case SaveRaised => Err(UpdateRaised)
  }

  /** `set_DNA_range` as one expression: validation, the connection to the
      target, then (for a non-zero start) the overlap, domain and trust
      checks, and finally the write. */
  function SetDnaRangeSpec(snap: DnaSnapshot, hostname: string, range: string, nextRange: bool): Result<(), SetRangeError> {
    var invalid := ValidateRange(range, nextRange);
    if invalid.Some? then Err(BadRange(invalid.value))
    else WriteChecked(snap, hostname, nextRange, ParseRange(range).value.0, ParseRange(range).value.1)
  }

  /** `set_DNA_range` once the range `a`-`b` has been validated. */
  function WriteChecked(snap: DnaSnapshot, hostname: string, nextRange: bool, a: int, b: int): Result<(), SetRangeError> {
    if !snap.targetReachable then Err(ConnectionFailed)
    else if a > 0 && (snap.masters.None? || |snap.masters.value| == 0) then Err(MastersUnreadable)
    else if a > 0 && FirstOverlap(snap.masters.value, hostname, nextRange, a, b).Some? then
      Err(FirstOverlap(snap.masters.value, hostname, nextRange, a, b).value)
    else if a > 0 && IdRangeVerdict(snap.ranges, a, b, ScopeOneLevel).Some? then
      Err(IdRangeVerdict(snap.ranges, a, b, ScopeOneLevel).value)
    else SaveVerdict(snap.save)
  }

  /** The loop of `set_DNA_range` over the masters: it stops at the first
      checked master whose current or next range meets the new one. */
  method FindOverlap(ms: seq<MasterDna>, hostname: string, nextRange: bool, a: int, b: int)
    returns (r: Option<SetRangeError>)
    ensures r == FirstOverlap(ms, hostname, nextRange, a, b)
  {
    var i := 0;
    while i < |ms|
      invariant 0 <= i <= |ms|
      invariant FirstOverlap(ms, hostname, nextRange, a, b) == FirstOverlap(ms[i..], hostname, nextRange, a, b)
    {
      assert ms[i..][1..] == ms[i + 1..];
      var m := ms[i];
      if m.name == hostname && !nextRange {
        i := i + 1;
        continue;
      }
      match m.view {
        case Unreachable =>
        case NoReadPermission =>
        case Ranges(current, next) =>
          if current.Some? && RangeIntersection(current.value.start, current.value.max, a, b) {
            return Some(OverlapsDnaRange(m.name));
          }
          if next.Some? && RangeIntersection(next.value.start, next.value.max, a, b) {
            return Some(OverlapsDnaNextRange(m.name));
          }
      }
      i := i + 1;
    }
    r := None;
  }

  /** The checks of `set_DNA_range` against cn=ranges: the domain-range loop
      stops at the first range that contains the new one, the trust loop at
      the first trust range it meets. */
  method CheckIdRanges(ranges: seq<IdRange>, a: int, b: int) returns (r: Option<SetRangeError>)
    ensures r == IdRangeVerdict(ranges, a, b, ScopeOneLevel)
  {
    var domains := SearchRanges(ranges, ScopeOneLevel, DomainIdRange);
    if |domains| == 0 {
      return Some(IdRangesUnavailable);
    }
    var j := 0;
    while j < |domains|
      invariant 0 <= j <= |domains|
      invariant forall k :: 0 <= k < j ==> !Contains(domains[k], a, b)
    {
      if Contains(domains[j], a, b) {
        break;
      }
      j := j + 1;
    }
    if j == |domains| {
      return Some(OutsideIdRanges);
    }
    var trusts := SearchRanges(ranges, ScopeOneLevel, TrustedDomainRange);
    var k := 0;
    while k < |trusts|
      invariant 0 <= k <= |trusts|
      invariant forall t :: 0 <= t < k ==> !HitsTrust(trusts[t], a, b)
    {
      if HitsTrust(trusts[k], a, b) {
        return Some(OverlapsTrustRange);
      }
      k := k + 1;
    }
    r := None;
  }

  /** `set_DNA_range`: validation, the connection to the target, then (for a
      non-zero start) the overlap and ID range checks, and the write. */
  method SetDnaRange(snap: DnaSnapshot, hostname: string, range: string, nextRange: bool)
    returns (r: Result<(), SetRangeError>)
    ensures r == SetDnaRangeSpec(snap, hostname, range, nextRange)
  {
    var invalid := ValidateRange(range, nextRange);
    if invalid.Some? {
      return Err(BadRange(invalid.value));
    }
    var (a, b) := ParseRange(range).value;
    if !snap.targetReachable {
      return Err(ConnectionFailed);
    }
    if a > 0 {
      if snap.masters.None? || |snap.masters.value| == 0 {
        return Err(MastersUnreadable);
      }
      var overlap := FindOverlap(snap.masters.value, hostname, nextRange, a, b);
      if overlap.Some? {
        return Err(overlap.value);
      }
      var verdict := CheckIdRanges(snap.ranges, a, b);
      if verdict.Some? {
        return Err(verdict.value);
      }
    }
    r := SaveVerdict(snap.save);
  }

  /** A range that `set_DNA_range` writes successfully is either the all-zero
      sentinel on the on-deck range, or a proper range below MAXINT that
      meets no checked master's current or next range, lies inside some
      domain ID range and meets no trust range. */
  lemma SetDnaRangeSound(snap: DnaSnapshot, hostname: string, range: string, nextRange: bool)
    requires SetDnaRangeSpec(snap, hostname, range, nextRange).Ok?
    ensures ParseRange(range).Some? && snap.save == Saved && snap.targetReachable
    ensures var (a, b) := ParseRange(range).value;
      || (a == 0 && b == 0 && nextRange)
      || (&& 0 < a < b < MAXINT
          && snap.masters.Some?
          && (forall i :: (0 <= i < |snap.masters.value| && Checked(snap.masters.value[i], hostname, nextRange) &&
                           snap.masters.value[i].view.Ranges?) ==>
                !Hits(snap.masters.value[i].view.current, a, b) && !Hits(snap.masters.value[i].view.next, a, b))
          && (exists d :: d in snap.ranges && d.cls == DomainIdRange && Contains(d, a, b))
          && (forall t :: t in snap.ranges && t.cls == TrustedDomainRange ==> !HitsTrust(t, a, b)))
  {
    SetDnaRangeOkSteps(snap, hostname, range, nextRange);
    var (a, b) := ParseRange(range).value;
    if a > 0 {
      var ms := snap.masters.value;
      FirstOverlapNone(ms, hostname, nextRange, a, b);
      forall i | 0 <= i < |ms| && Checked(ms[i], hostname, nextRange) && ms[i].view.Ranges?
        ensures !Hits(ms[i].view.current, a, b) && !Hits(ms[i].view.next, a, b)
      {
        assert OverlapAt(ms[i], hostname, nextRange, a, b).None?;
      }
      IdRangeVerdictNone(snap.ranges, a, b);
    }
  }

  /** The checks a successful `set_DNA_range` went through. */
  lemma SetDnaRangeOkSteps(snap: DnaSnapshot, hostname: string, range: string, nextRange: bool)
    requires SetDnaRangeSpec(snap, hostname, range, nextRange).Ok?
    ensures ValidateRange(range, nextRange).None? && ParseRange(range).Some?
    ensures snap.save == Saved && snap.targetReachable
    ensures var (a, b) := ParseRange(range).value;
      a > 0 ==> && snap.masters.Some?
                && FirstOverlap(snap.masters.value, hostname, nextRange, a, b).None?
                && IdRangeVerdict(snap.ranges, a, b, ScopeOneLevel).None?
  {
    assert ValidateRange(range, nextRange).None?;
    var p := ParseRange(range).value;
    assert WriteChecked(snap, hostname, nextRange, p.0, p.1).Ok?;
    assert SaveVerdict(snap.save).Ok?;
  }

  /** A range the cn=ranges checks let through fits inside a domain ID range
      and meets no trust range. */
  lemma IdRangeVerdictNone(ranges: seq<IdRange>, a: int, b: int)
    requires IdRangeVerdict(ranges, a, b, ScopeOneLevel).None?
    ensures exists d :: d in ranges && d.cls == DomainIdRange && Contains(d, a, b)
    ensures forall t :: t in ranges && t.cls == TrustedDomainRange ==> !HitsTrust(t, a, b)
  {
    var domains := SearchRanges(ranges, ScopeOneLevel, DomainIdRange);
    var d :| d in domains && Contains(d, a, b);
    assert d in ranges && d.cls == DomainIdRange;
    forall t | t in ranges && t.cls == TrustedDomainRange
      ensures !HitsTrust(t, a, b)
    {
      assert t in SearchRanges(ranges, ScopeOneLevel, TrustedDomainRange);
    }
  }

  /** A new range with a positive start that meets the current or next range
      of a checked master is refused before anything is written; when an
      on-deck range is set, the target's own ranges are checked too. */
  lemma SetDnaRangeRejectsOverlap(snap: DnaSnapshot, hostname: string, range: string, nextRange: bool, i: nat)
    requires ParseRange(range).Some? && ParseRange(range).value.0 > 0
    requires snap.masters.Some? && i < |snap.masters.value|
    requires Checked(snap.masters.value[i], hostname, nextRange) && snap.masters.value[i].view.Ranges?
    requires Hits(snap.masters.value[i].view.current, ParseRange(range).value.0, ParseRange(range).value.1) ||
             Hits(snap.masters.value[i].view.next, ParseRange(range).value.0, ParseRange(range).value.1)
    ensures SetDnaRangeSpec(snap, hostname, range, nextRange).Err?
    ensures !AfterWrite(SetDnaRangeSpec(snap, hostname, range, nextRange).error)
  {
    var a := ParseRange(range).value.0;
    var b := ParseRange(range).value.1;
    FirstOverlapSome(snap.masters.value, hostname, nextRange, a, b, i);
    var spec := SetDnaRangeSpec(snap, hostname, range, nextRange);
    var invalid := ValidateRange(range, nextRange);
    if invalid.Some? {
      assert spec == Err(BadRange(invalid.value));
    } else if !snap.targetReachable {
      assert spec == Err(ConnectionFailed);
    } else {
      assert spec == Err(FirstOverlap(snap.masters.value, hostname, nextRange, a, b).value);
    }
  }

  /** An overlap anywhere in the list is found. */
  lemma {:induction false} FirstOverlapSome(ms: seq<MasterDna>, hostname: string, nextRange: bool, a: int, b: int, i: nat)
    requires i < |ms| && OverlapAt(ms[i], hostname, nextRange, a, b).Some?
    ensures FirstOverlap(ms, hostname, nextRange, a, b).Some?
  {
    if i > 0 && OverlapAt(ms[0], hostname, nextRange, a, b).None? {
      FirstOverlapSome(ms[1..], hostname, nextRange, a, b, i - 1);
    }
  }

  /** Clearing the on-deck range with "0-0" skips every overlap, domain and
      trust check: only the connection and the write decide. */
  lemma SetDnaRangeZeroSkipsChecks(snap: DnaSnapshot, hostname: string)
    ensures SetDnaRangeSpec(snap, hostname, "0-0", true) ==
            (if snap.targetReachable then SaveVerdict(snap.save) else Err(ConnectionFailed))
  {
    ValidateFormattedRange(0, 0, true);
    assert IntToString(0) + "-" + IntToString(0) == "0-0";
  }

  lemma ScenarioRangeText()
    ensures IntToString(100) + "-" + IntToString(200) == "100-200"
  {
    assert IntToString(100) == "100";
    assert IntToString(200) == "200";
  }

  lemma ParseScenarioRange()
    ensures ParseRange("100-200") == Some((100, 200))
  {
    ValidateFormattedRange(100, 200, false);
    ScenarioRangeText();
  }

  lemma ValidScenarioRange()
    ensures ValidateRange("100-200", false).None?
  {
    ParseScenarioRange();
  }

  /** A range text that parses to 100-200 (as "100-200" does, by
      ParseScenarioRange) requested for the current range of master `m`
      while master `n` already holds 150-250 as its current range: refused,
      naming `n`; `m`'s own (empty) ranges are skipped. */
  lemma SetDnaRangeOverlapScenario(m: string, n: string, range: string, save: SaveReply)
    requires m != n && ParseRange(range) == Some((100, 200))
    ensures var snap := DnaSnapshot(true, Some([MasterDna(m, Ranges(None, None)),
                                              MasterDna(n, Ranges(Some(Interval(150, 250)), None))]),
                                    [IdRange(DomainIdRange, 1, 100000)], save);
            SetDnaRangeSpec(snap, m, range, false) == Err(OverlapsDnaRange(n))
  {
    var ms := [MasterDna(m, Ranges(None, None)), MasterDna(n, Ranges(Some(Interval(150, 250)), None))];
    assert OverlapAt(ms[0], m, false, 100, 200).None?;
    assert OverlapAt(ms[1], m, false, 100, 200) == Some(OverlapsDnaRange(n));
    assert ms[1..][0] == ms[1];
    assert FirstOverlap(ms, m, false, 100, 200) == Some(OverlapsDnaRange(n));
  }

  // ---------------------------------------------------------------------
  // store_DNA_range

  /** What `save_DNA_next_range` did on a candidate. */
  datatype SaveAttempt = Returned(saved: bool) | Raised

  /** What `store_DNA_range` learns about one candidate master. */
  datatype CandidateView =
    | Offline            // the connection failed: skipped
    | NextUnreadable     // get_DNA_next_range raised: the exception escapes
    | OnDeck(next: Option<Interval>, onSave: SaveAttempt)

  datatype Candidate = Candidate(name: string, view: CandidateView)

  /** Where a freed range went. `store_DNA_range` returns True only for
      `HandedTo(_, true)`. */
  datatype Handover =
    | HandedTo(host: string, saved: bool)
    | NoTaker                 // every candidate passed over
    | CandidatesUnreadable    // the search of cn=masters failed
    | ReadRaised(host: string)

  /** A candidate the loop moves past: the deleted master itself, an offline
      one, one that already has an on-deck range, or one whose write raised. */
  predicate PassedOver(c: Candidate, deleted: string) {
    || c.name == deleted
    || c.view.Offline?
    || (c.view.OnDeck? && (c.view.next.Some? || c.view.onSave.Raised?))
  }

  /** A candidate that takes the range: a surviving master with no on-deck
      range whose write returned. */
  predicate Takes(c: Candidate, deleted: string) {
    c.name != deleted && c.view.OnDeck? && c.view.next.None? && c.view.onSave.Returned?
  }

  function StoreSpec(cs: seq<Candidate>, deleted: string): Handover {
    if |cs| == 0 then NoTaker
    else
      var c := cs[0];
      if c.name == deleted then StoreSpec(cs[1..], deleted)
      else match c.view
        case Offline => StoreSpec(cs[1..], deleted)
        case NextUnreadable => ReadRaised(c.name)
        case OnDeck(next, onSave) =>
          if next.None? && onSave.Returned? then HandedTo(c.name, onSave.saved)
          else StoreSpec(cs[1..], deleted)
  }

  /** `store_DNA_range`: the loop returns at the first surviving master that
      has no on-deck range and whose write returns. */
  method StoreDnaRange(masters: Option<seq<Candidate>>, deleted: string) returns (h: Handover)
    ensures masters.None? || |masters.value| == 0 ==> h == CandidatesUnreadable
    ensures masters.Some? && |masters.value| > 0 ==> h == StoreSpec(masters.value, deleted)
  {
    if masters.None? || |masters.value| == 0 {
      return CandidatesUnreadable;
    }
    var cs := masters.value;
    var i := 0;
    while i < |cs|
      invariant 0 <= i <= |cs|
      invariant StoreSpec(cs, deleted) == StoreSpec(cs[i..], deleted)
    {
      assert cs[i..][1..] == cs[i + 1..];
      var c := cs[i];
      if c.name != deleted {
        match c.view {
          case Offline =>
          case NextUnreadable =>
            return ReadRaised(c.name);
          case OnDeck(next, onSave) =>
            if next.None? {
              match onSave {
                case Returned(saved) =>
                  return HandedTo(c.name, saved);
                case Raised =>
              }
            }
        }
      }
      i := i + 1;
    }
    h := NoTaker;
  }

  /** The freed range goes to candidate `i` exactly when `i` takes it and
      every candidate before it was passed over; it never goes to the
      deleted master. */
  lemma {:induction false} StoreSpecHandsToFirstTaker(cs: seq<Candidate>, deleted: string, i: nat)
    requires i < |cs| && Takes(cs[i], deleted)
    requires forall j :: 0 <= j < i ==> PassedOver(cs[j], deleted)
    ensures StoreSpec(cs, deleted) == HandedTo(cs[i].name, cs[i].view.onSave.saved)
  {
    if i > 0 {
      assert PassedOver(cs[0], deleted);
      StoreSpecHandsToFirstTaker(cs[1..], deleted, i - 1);
    }
  }

  /** Whatever `store_DNA_range` hands over goes to a taker that every
      earlier candidate was passed over for. */
  lemma {:induction false} StoreSpecHandedToTaker(cs: seq<Candidate>, deleted: string)
    requires StoreSpec(cs, deleted).HandedTo?
    ensures exists i :: (&& 0 <= i < |cs| && Takes(cs[i], deleted) && cs[i].name == StoreSpec(cs, deleted).host
                         && cs[i].view.onSave.saved == StoreSpec(cs, deleted).saved
                         && forall j :: 0 <= j < i ==> PassedOver(cs[j], deleted))
  {
    var h := StoreSpec(cs, deleted);
    if Takes(cs[0], deleted) {
      assert cs[0].name == h.host && cs[0].view.onSave.saved == h.saved;
    } else {
      var t := cs[1..];
      assert PassedOver(cs[0], deleted);
      assert h == StoreSpec(t, deleted);
      StoreSpecHandedToTaker(t, deleted);
      var i :| && 0 <= i < |t| && Takes(t[i], deleted) && t[i].name == h.host
               && t[i].view.onSave.saved == h.saved
               && forall j :: 0 <= j < i ==> PassedOver(t[j], deleted);
      assert cs[i + 1] == t[i];
      forall j | 0 <= j < i + 1
        ensures PassedOver(cs[j], deleted)
      {
        if j > 0 {
          assert cs[j] == t[j - 1];
        }
      }
    }
  }

  /** Nobody takes the range exactly when every candidate is passed over. */
  lemma {:induction false} StoreSpecNoTaker(cs: seq<Candidate>, deleted: string)
    ensures StoreSpec(cs, deleted) == NoTaker <==> forall j :: 0 <= j < |cs| ==> PassedOver(cs[j], deleted)
  {
    if |cs| > 0 {
      StoreSpecNoTaker(cs[1..], deleted);
      assert forall j :: 1 <= j < |cs| ==> cs[j] == cs[1..][j - 1];
    }
  }
}
