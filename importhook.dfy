/** The platform detection of `ipaplatform`: the platform ids derived from
    `sys.platform` and `/etc/os-release`, the choice of the first id with an
    `ipaplatform` provider, and the meta import hook that redirects the four
    generic `ipaplatform` modules to that provider. The file's lines, the
    value of `sys.platform`, the importable providers and the modules already
    in `sys.modules` are parameters. */
module ImportHook {
  import opened Basics
  import opened Text

  /** The modules the hook redirects. */
  const Modules: set<string> := {"ipaplatform.constants", "ipaplatform.paths", "ipaplatform.services", "ipaplatform.tasks"}

  const BsdFamily: seq<string> := ["freebsd", "openbsd", "netbsd", "dragonfly", "gnukfreebsd"]

  // ---------------------------------------------------------------------
  // _read_osrelease

  /** `value[1:-1]` when the value starts with a quote (Python slicing gives
      "" for a lone quote). */
  function Unquote(v: string): (r: string)
    ensures |v| > 0 && (v[0] == '"' || v[0] == '\'') ==> |r| == (if |v| >= 2 then |v| - 2 else 0)
    ensures !(|v| > 0 && (v[0] == '"' || v[0] == '\'')) ==> r == v
  {
    if |v| > 0 && (v[0] == '"' || v[0] == '\'') then
      if |v| >= 2 then v[1..|v| - 1] else ""
    else v
  }

  /** `key, value = line.rstrip('\n').split('=', 1)` followed by the
      unquoting; None where the unpacking raises ValueError. */
  function Entry(line: string): (r: Option<(string, string)>)
    ensures r.None? <==> '=' !in RStrip(line, {'\n'})
  {
    match SplitOnce(RStrip(line, {'\n'}), '=')
    case None => None
    case Some((k, v)) => Some((k, Unquote(v)))
  }

  /** A blank line or a comment, which the os-release format allows and
      asks readers to ignore. */
  predicate Ignorable(line: string) {
    var l := RStrip(line, {'\n'});
    Strip(l) == "" || l[0] == '#'
  }

  /** One entry's effect on the id list: `ID` goes to the front, the
      space-separated `ID_LIKE` fields go to the back. */
  function Apply(platforms: seq<string>, key: string, value: string): seq<string> {
    if key == "ID" then [value] + platforms
    else if key == "ID_LIKE" then platforms + Split(value, ' ')
    else platforms
  }

  /** The platform ids read from the lines, or the index of the first line
      that cannot be split at '='. With `skipIgnorable` blank and comment
      lines are passed over. */
  function OsReleaseFold(lines: seq<string>, skipIgnorable: bool): Result<seq<string>, nat> {
    if |lines| == 0 then Ok([])
    else
      var last := lines[|lines| - 1];
      match OsReleaseFold(lines[..|lines| - 1], skipIgnorable)
      case Err(i) => Err(i)
      case Ok(ps) =>
        if skipIgnorable && Ignorable(last) then Ok(ps)
        else match Entry(last)
          case None => Err(|lines| - 1)
          case Some((k, v)) => Ok(Apply(ps, k, v))
  }

  /** `_read_osrelease` as written: every line must contain '='. */
  function OsReleaseAsWritten(lines: seq<string>): Result<seq<string>, nat> {
    OsReleaseFold(lines, false)
  }

  /** `_read_osrelease` as intended: blank and comment lines are ignored. */
  function OsRelease(lines: seq<string>): Result<seq<string>, nat> {
    OsReleaseFold(lines, true)
  }

  /** A line that the fold takes into account. */
  predicate Counted(line: string, skipIgnorable: bool) {
    !(skipIgnorable && Ignorable(line)) && Entry(line).Some?
  }

  /** An `ID` line that the fold takes into account. */
  predicate IsIdLine(line: string, skipIgnorable: bool) {
    Counted(line, skipIgnorable) && Entry(line).value.0 == "ID"
  }

  function IdPart(key: string, value: string): seq<string> {
    if key == "ID" then [value] else []
  }

  function LikePart(key: string, value: string): seq<string> {
    if key == "ID_LIKE" then Split(value, ' ') else []
  }

  lemma ApplyParts(ps: seq<string>, key: string, value: string)
    ensures Apply(ps, key, value) == IdPart(key, value) + ps + LikePart(key, value)
  {
    if key == "ID" {
      assert key != "ID_LIKE";
    }
  }

  /** The `ID` values, the last one first. */
  function IdValues(lines: seq<string>, skipIgnorable: bool): seq<string> {
    if |lines| == 0 then []
    else
      var last := lines[|lines| - 1];
      (if Counted(last, skipIgnorable) then IdPart(Entry(last).value.0, Entry(last).value.1) else []) +
        IdValues(lines[..|lines| - 1], skipIgnorable)
  }

  /** The `ID_LIKE` fields, in file order. */
  function LikeFields(lines: seq<string>, skipIgnorable: bool): seq<string> {
    if |lines| == 0 then []
    else
      var last := lines[|lines| - 1];
      LikeFields(lines[..|lines| - 1], skipIgnorable) +
        (if Counted(last, skipIgnorable) then LikePart(Entry(last).value.0, Entry(last).value.1) else [])
  }

  /** The ids read are the `ID` values (the last one first) followed by
      every `ID_LIKE` field in file order. */
  lemma {:induction false} OsReleaseIdsThenLikes(lines: seq<string>, skipIgnorable: bool)
    requires OsReleaseFold(lines, skipIgnorable).Ok?
    ensures OsReleaseFold(lines, skipIgnorable).value == IdValues(lines, skipIgnorable) + LikeFields(lines, skipIgnorable)
  {
    if |lines| > 0 {
      var init := lines[..|lines| - 1];
      var last := lines[|lines| - 1];
      FoldStep(lines, skipIgnorable);
      OsReleaseIdsThenLikes(init, skipIgnorable);
      var ps := OsReleaseFold(init, skipIgnorable).value;
      var ids := IdValues(init, skipIgnorable);
      var likes := LikeFields(init, skipIgnorable);
      if Counted(last, skipIgnorable) {
        var e := Entry(last).value;
        PartsStep(lines, skipIgnorable);
        ApplyParts(ps, e.0, e.1);
        Regroup(IdPart(e.0, e.1), ids, likes, LikePart(e.0, e.1));
      } else {
        PartsStep(lines, skipIgnorable);
      }
    }
  }

  /** One step of the fold on a file it accepts: the last line is applied to
      what the earlier lines gave, or passed over when it does not count. */
  lemma FoldStep(lines: seq<string>, skipIgnorable: bool)
    requires |lines| > 0 && OsReleaseFold(lines, skipIgnorable).Ok?
    ensures OsReleaseFold(lines[..|lines| - 1], skipIgnorable).Ok?
    ensures var ps := OsReleaseFold(lines[..|lines| - 1], skipIgnorable).value;
            var last := lines[|lines| - 1];
            OsReleaseFold(lines, skipIgnorable).value ==
              if Counted(last, skipIgnorable) then Apply(ps, Entry(last).value.0, Entry(last).value.1) else ps
  {
  }

  /** One step of `IdValues` and `LikeFields`. */
  lemma PartsStep(lines: seq<string>, skipIgnorable: bool)
    requires |lines| > 0
    ensures var init := lines[..|lines| - 1];
            var last := lines[|lines| - 1];
            if Counted(last, skipIgnorable) then
              && IdValues(lines, skipIgnorable) == IdPart(Entry(last).value.0, Entry(last).value.1) + IdValues(init, skipIgnorable)
              && LikeFields(lines, skipIgnorable) == LikeFields(init, skipIgnorable) + LikePart(Entry(last).value.0, Entry(last).value.1)
            else
              && IdValues(lines, skipIgnorable) == IdValues(init, skipIgnorable)
              && LikeFields(lines, skipIgnorable) == LikeFields(init, skipIgnorable)
  {
    var init := lines[..|lines| - 1];
    assert [] + IdValues(init, skipIgnorable) == IdValues(init, skipIgnorable);
    assert LikeFields(init, skipIgnorable) + [] == LikeFields(init, skipIgnorable);
  }

  lemma Regroup(a: seq<string>, b: seq<string>, c: seq<string>, d: seq<string>)
    ensures a + (b + c) + d == (a + b) + (c + d)
  {
  }

  /** The first id read is the value of the last `ID` line. */
  lemma {:induction false} IdValuesHead(lines: seq<string>, skipIgnorable: bool, j: nat)
    requires j < |lines| && IsIdLine(lines[j], skipIgnorable)
    requires forall m :: j < m < |lines| ==> !IsIdLine(lines[m], skipIgnorable)
    ensures |IdValues(lines, skipIgnorable)| > 0
    ensures IdValues(lines, skipIgnorable)[0] == Entry(lines[j]).value.1
  {
    var last := lines[|lines| - 1];
    var init := lines[..|lines| - 1];
    if j < |lines| - 1 {
      assert !IsIdLine(last, skipIgnorable);
      assert IdValues(lines, skipIgnorable) == IdValues(init, skipIgnorable);
      assert init[j] == lines[j];
      forall m | j < m < |init|
        ensures !IsIdLine(init[m], skipIgnorable)
      {
        assert init[m] == lines[m];
      }
      IdValuesHead(init, skipIgnorable, j);
    }
  }

  /** Ignoring blank and comment lines only changes the outcome for files
      the code as written rejects: a comment that does contain '=' has a key
      starting with '#', which is neither `ID` nor `ID_LIKE`. */
  lemma {:induction false} OsReleaseExtendsAsWritten(lines: seq<string>)
    requires OsReleaseAsWritten(lines).Ok?
    ensures OsRelease(lines) == OsReleaseAsWritten(lines)
  {
    if |lines| > 0 {
      var init := lines[..|lines| - 1];
      OsReleaseExtendsAsWritten(init);
      var last := lines[|lines| - 1];
      if Ignorable(last) {
        var l := RStrip(last, {'\n'});
        var (k, v) := SplitOnce(l, '=').value;
        assert l == k + ['='] + v;
        if Strip(l) == "" {
          BlankHasNoEquals(l);
        } else {
          assert l[0] == '#';
          if k == "" {
            assert l[0] == '=';
          } else {
            assert k[0] == '#';
          }
        }
      }
    }
  }

  lemma BlankHasNoEquals(l: string)
    requires Strip(l) == ""
    ensures '=' !in l
  {
    WhitespaceOnly(l);
  }

  lemma {:induction false} WhitespaceOnly(l: string)
    requires Strip(l) == ""
    ensures forall i :: 0 <= i < |l| ==> l[i] in Whitespace
  {
    var left := LStrip(l, Whitespace);
    LStripDropsPrefix(l);
    assert RStrip(left, Whitespace) == "";
    assert |left| == 0;
  }

  lemma {:induction false} LStripDropsPrefix(s: string)
    ensures var r := LStrip(s, Whitespace);
      && s[|s| - |r|..] == r
      && forall i :: 0 <= i < |s| - |r| ==> s[i] in Whitespace
  {
    if |s| > 0 && s[0] in Whitespace {
      LStripDropsPrefix(s[1..]);
      var r := LStrip(s, Whitespace);
      assert r == LStrip(s[1..], Whitespace);
      forall i | 0 <= i < |s| - |r|
        ensures s[i] in Whitespace
      {
        if i > 0 {
          assert s[i] == s[1..][i - 1];
        }
      }
    }
  }

  /** A blank line makes the code as written fail (ValueError at that
      line) where the intended reading passes over it. */
  lemma BlankLineRejectedAsWritten(lines: seq<string>)
    requires OsReleaseAsWritten(lines).Ok?
    ensures OsReleaseAsWritten(lines + ["\n"]) == Err(|lines|)
    ensures OsRelease(lines + ["\n"]) == OsReleaseAsWritten(lines)
  {
    var all := lines + ["\n"];
    assert all[..|all| - 1] == lines;
    assert RStrip("\n", {'\n'}) == "";
    OsReleaseExtendsAsWritten(lines);
  }

  /** `_read_osrelease` with blank and comment lines passed over. */
  method ReadOsRelease(lines: seq<string>) returns (r: Result<seq<string>, nat>)
    ensures r == OsRelease(lines)
  {
    var platforms: seq<string> := [];
    var i := 0;
    while i < |lines|
      invariant 0 <= i <= |lines|
      invariant OsRelease(lines[..i]) == Ok(platforms)
    {
      var line := lines[i];
      assert lines[..i + 1][..i] == lines[..i];
      if !Ignorable(line) {
        var stripped := RStrip(line, {'\n'});
        var split := SplitOnce(stripped, '=');
        if split.None? {
          assert OsRelease(lines[..i + 1]) == Err(i);
          OsReleaseErrSticks(lines, i + 1);
          return Err(i);
        }
        var (key, value) := split.value;
        value := Unquote(value);
        if key == "ID" {
          platforms := [value] + platforms;
        }
        if key == "ID_LIKE" {
          platforms := platforms + Split(value, ' ');
        }
      }
      i := i + 1;
    }
    assert lines[..i] == lines;
    r := Ok(platforms);
  }

  /** Once a prefix fails, the whole file fails at the same line. */
  lemma {:induction false} OsReleaseErrSticks(lines: seq<string>, n: nat)
    requires n <= |lines| && OsRelease(lines[..n]).Err?
    ensures OsRelease(lines) == OsRelease(lines[..n])
    decreases |lines| - n
  {
    if n < |lines| {
      assert lines[..n + 1][..n] == lines[..n];
      OsReleaseErrSticks(lines, n + 1);
    } else {
      assert lines[..n] == lines;
    }
  }

  // ---------------------------------------------------------------------
  // _get_platform_ids

  datatype DetectError =
    | UnknownPlatform(platform: string)   // ValueError(sys.platform)
    | MalformedOsRelease(line: nat)        // ValueError while unpacking a line

  predicate IsBsd(platform: string) {
    exists i :: 0 <= i < |BsdFamily| && StartsWith(platform, BsdFamily[i])
  }

  /** `_get_platform_ids`: the os-release ids on Linux, a fixed id on
      Windows and macOS, and for a BSD its versioned and unversioned
      names. */
  function PlatformIds(platform: string, osRelease: seq<string>): (r: Result<seq<string>, DetectError>)
    ensures StartsWith(platform, "linux") ==> r == (match OsRelease(osRelease)
                                                      case Ok(ids) => Ok(ids)
                                                      case Err(i) => Err(MalformedOsRelease(i)))
    ensures r == Err(UnknownPlatform(platform)) <==>
              !StartsWith(platform, "linux") && platform != "win32" && platform != "darwin" && !IsBsd(platform)
    ensures !StartsWith(platform, "linux") && IsBsd(platform) ==>
              && r.Ok? && |r.value| == 2 && r.value[0] == platform
              && |r.value[1]| <= |platform| && r.value[1] == platform[..|r.value[1]|]
              && (forall i :: |r.value[1]| <= i < |platform| ==> IsDigit(platform[i]))
              && (|r.value[1]| > 0 ==> !IsDigit(r.value[1][|r.value[1]| - 1]))
  {
    if StartsWith(platform, "linux") then
      match OsRelease(osRelease)
      case Ok(ids) => Ok(ids)
      case Err(i) => Err(MalformedOsRelease(i))
    else if platform == "win32" then Ok(["win32"])
    else if platform == "darwin" then Ok(["macos"])
    else if IsBsd(platform) then Ok([platform, RStrip(platform, DecimalDigits)])
    else Err(UnknownPlatform(platform))
  }

  /** A FreeBSD release name falls back on the family name. */
  lemma FreeBsdFallsBack(version: string)
    requires |version| > 0 && AllDigits(version)
    ensures PlatformIds("freebsd" + version, []) == Ok(["freebsd" + version, "freebsd"])
  {
    var p := "freebsd" + version;
    assert StartsWith(p, BsdFamily[0]);
    assert !StartsWith(p, "linux") by {
      assert p[0] == 'f';
    }
    assert p != "win32" && p != "darwin" by {
      assert p[0] == 'f';
    }
    var r := RStrip(p, DecimalDigits);
    RStripKeepsPrefix(p, 7);
    assert r == "freebsd";
  }

  /** `rstrip` of the digits stops at the last non-digit. */
  lemma {:induction false} RStripKeepsPrefix(p: string, k: nat)
    requires 0 < k <= |p| && p[k - 1] !in DecimalDigits
    requires forall i :: k <= i < |p| ==> p[i] in DecimalDigits
    ensures RStrip(p, DecimalDigits) == p[..k]
    decreases |p|
  {
    if |p| > k {
      assert p[..|p| - 1][..k] == p[..k];
      RStripKeepsPrefix(p[..|p| - 1], k);
    } else {
      assert p[..k] == p;
    }
  }

  // ---------------------------------------------------------------------
  // _get_platform

  /** `_get_platform`: the first id with an importable provider; otherwise
      the ImportError message naming all ids. */
  method GetPlatform(ids: seq<string>, available: set<string>) returns (r: Result<string, string>)
    ensures r.Ok? <==> exists i :: 0 <= i < |ids| && ids[i] in available
    ensures r.Ok? ==> exists i :: && 0 <= i < |ids| && ids[i] == r.value && r.value in available
                                  && forall j :: 0 <= j < i ==> ids[j] !in available
    ensures r.Err? ==> r.error == "No ipaplatform available for \"" + Join(ids, ", ") + "\""
  {
    var i := 0;
    while i < |ids|
      invariant 0 <= i <= |ids|
      invariant forall j :: 0 <= j < i ==> ids[j] !in available
    {
      if ids[i] in available {
        return Ok(ids[i]);
      }
      i := i + 1;
    }
    r := Err("No ipaplatform available for \"" + Join(ids, ", ") + "\"");
  }

  // ---------------------------------------------------------------------
  // The meta import hook

  /** `find_module`: the hook answers (returns itself) exactly for the
      generic modules. */
  function FindModule(fullname: string): (r: bool)
    ensures r ==> StartsWith(fullname, "ipaplatform.")
  {
    fullname in Modules
  }

  /** The provider module `load_module` imports for `fullname`; None where
      `fullname.split('.', 1)[1]` raises IndexError. */
  function Alias(fullname: string, platform: string): (r: Option<string>)
    ensures r.None? <==> '.' !in fullname
  {
    match SplitOnce(fullname, '.')
    case None => None
    case Some((_, suffix)) => Some("ipaplatform." + platform + "." + suffix)
  }

  /** Each generic module is redirected to the module of the same name in
      the chosen platform's package. */
  lemma AliasOfGeneric(name: string, platform: string)
    ensures Alias("ipaplatform." + name, platform) == Some("ipaplatform." + platform + "." + name)
  {
    assert "ipaplatform." + name == "ipaplatform" + ['.'] + name;
    SplitOnceAt("ipaplatform", '.', name);
  }

  /** Every module the hook claims can be loaded. */
  lemma FoundModulesLoad(fullname: string, platform: string)
    requires FindModule(fullname)
    ensures Alias(fullname, platform).Some?
    ensures StartsWith(Alias(fullname, platform).value, "ipaplatform." + platform + ".")
  {
    var name := fullname[|"ipaplatform."|..];
    assert fullname == "ipaplatform." + name;
    AliasOfGeneric(name, platform);
  }

  /** The state the importer's constructor leaves: the ids, the chosen
      platform and, for every generic module already imported, the provider
      module it was re-pointed to. */
  datatype Importer = Importer(platformIds: seq<string>, platform: string, redirected: map<string, string>)

  datatype InitError = DetectFailed(e: DetectError) | NoProvider(message: string)

  /** `IpaMetaImporter()`. */
  method NewImporter(platform: string, osRelease: seq<string>, available: set<string>, loaded: set<string>)
    returns (r: Result<Importer, InitError>)
    ensures PlatformIds(platform, osRelease).Err? ==> r == Err(DetectFailed(PlatformIds(platform, osRelease).error))
    ensures PlatformIds(platform, osRelease).Ok? ==>
              (r.Err? <==> forall i :: 0 <= i < |PlatformIds(platform, osRelease).value| ==>
                                        PlatformIds(platform, osRelease).value[i] !in available)
    ensures r.Ok? ==> && r.value.platformIds == PlatformIds(platform, osRelease).value
                      && r.value.platform in available
                      && (exists i :: && 0 <= i < |r.value.platformIds| && r.value.platformIds[i] == r.value.platform
                                      && forall j :: 0 <= j < i ==> r.value.platformIds[j] !in available)
                      && r.value.redirected.Keys == Modules * loaded
                      && forall m :: m in r.value.redirected ==>
                           && Alias(m, r.value.platform).Some?
                           && r.value.redirected[m] == Alias(m, r.value.platform).value
                           && StartsWith(r.value.redirected[m], "ipaplatform." + r.value.platform + ".")
  {
    var ids := PlatformIds(platform, osRelease);
    if ids.Err? {
      return Err(DetectFailed(ids.error));
    }
    var chosen := GetPlatform(ids.value, available);
    if chosen.Err? {
      return Err(NoProvider(chosen.error));
    }
    var p := chosen.value;
    forall m | m in Modules * loaded
      ensures Alias(m, p).Some? && StartsWith(Alias(m, p).value, "ipaplatform." + p + ".")
    {
      FoundModulesLoad(m, p);
    }
    var redirected := map m | m in Modules * loaded :: Alias(m, p).value;
    r := Ok(Importer(ids.value, p, redirected));
  }
}
