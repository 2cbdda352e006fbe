/** The bounded zip reader of the inspector: `inspect_zip` in `xtask/src/artifact_inspector.rs`. */
module ZipReader {
  import opened Prelude
  import opened ScanPolicy
  import opened Inspector
  import Refs

  const MAX_COMPRESSION_RATIO: nat := 1000

  /** Neither a directory nor a link: the entries that are counted, read and scanned. */
  predicate IsFile(entry: ZipEntry) {
    entry.Member? && !entry.isDir && !entry.isSymlink
  }

  predicate IsBomb(compressed: u64, actual: nat) {
    compressed > 0 && actual / compressed > MAX_COMPRESSION_RATIO
  }

  predicate ContentIsHarmless(policy: Policy, compressed: u64, content: Result<seq<byte>, Str>) {
    && content.Ok?
    && |content.value| <= policy.maxUncompressedBytes
    && !IsBomb(compressed, |content.value|)
    && IsClean(policy, content.value)
  }

  predicate EntryIsHarmless(policy: Policy, entry: ZipEntry) {
    && entry.Member?
    && (!entry.isDir ==> !entry.isSymlink && ContentIsHarmless(policy, entry.compressed, entry.content))
  }

  predicate EntriesAreHarmless(policy: Policy, entries: seq<ZipEntry>) {
    forall k :: 0 <= k < |entries| ==> EntryIsHarmless(policy, entries[k])
  }

  function FileCount(entries: seq<ZipEntry>): nat {
    if entries == [] then 0
    else FileCount(entries[..|entries| - 1]) + if IsFile(entries[|entries| - 1]) then 1 else 0
  }

  function FileBytes(entry: ZipEntry): nat {
    if IsFile(entry) && entry.content.Ok? then |entry.content.value| else 0
  }

  function TotalBytes(entries: seq<ZipEntry>): nat {
    if entries == [] then 0 else TotalBytes(entries[..|entries| - 1]) + FileBytes(entries[|entries| - 1])
  }

  /** No entry of any kind comes after the last permitted file. */
  predicate CountIsWithin(policy: Policy, entries: seq<ZipEntry>) {
    entries != [] ==> FileCount(entries[..|entries| - 1]) < policy.maxEntries
  }

  predicate ZipIsWithin(policy: Policy, entries: seq<ZipEntry>) {
    CountIsWithin(policy, entries) && TotalBytes(entries) <= policy.maxUncompressedBytes
  }

  // ----- Paths inside the bundle --------------------------------------------------------------

  function TopOf(name: Str): Option<Str> {
    var end := Refs.NextSeparator(name, 0, |name|, Refs.IsSlash);
    if end == 0 then None else Some(name[..end] + [Refs.SLASH])
  }

  /** The first named top-level component of any file. */
  function TopPrefix(entries: seq<ZipEntry>): Option<Str> {
    if entries == [] then None
    else
      var (before, last) := (TopPrefix(entries[..|entries| - 1]), entries[|entries| - 1]);
      if before.None? && IsFile(last) then TopOf(last.name) else before
  }

  function Relative(name: Str, top: Option<Str>): Str {
    if top.Some? && Refs.StartsWith(name, top.value) then name[|top.value|..] else name
  }

  /** The contents of the files at `path`, in archive order. */
  function FilesAt(entries: seq<ZipEntry>, path: string): seq<seq<byte>> {
    if entries == [] then []
    else
      var last := entries[|entries| - 1];
      FilesAt(entries[..|entries| - 1], path)
      + if IsFile(last) && last.content.Ok? && Relative(last.name, TopPrefix(entries)) == Bytes(path)
        then [last.content.value] else []
  }

  function LastOf<T>(s: seq<T>): Option<T> {
    if s == [] then None else Some(s[|s| - 1])
  }

  predicate ManifestHolds(inspector: Inspector, manifest: seq<byte>) {
    var parsed := inspector.tools.packageManifest(manifest);
    parsed.Ok? && ManifestMatches(inspector.policy, parsed.value)
  }

  predicate ZipIsPackage(inspector: Inspector, entries: seq<ZipEntry>) {
    var (manifests, infos) := (FilesAt(entries, ZIP_MANIFEST), FilesAt(entries, ZIP_INFO_PLIST));
    && |FilesAt(entries, EXECUTABLE)| == 1
    && manifests != []
    && (forall k :: 0 <= k < |manifests| ==> ManifestHolds(inspector, manifests[k]))
    && infos != [] && IsInfoPlist(inspector.tools, infos[|infos| - 1])
  }

  predicate ZipIsAcceptable(inspector: Inspector, mode: Mode, entries: seq<ZipEntry>) {
    && EntriesAreHarmless(inspector.policy, entries)
    && ZipIsWithin(inspector.policy, entries)
    && (mode == Package ==> ZipIsPackage(inspector, entries))
  }

  function ZipExecutableDigest(tools: Tools, entries: seq<ZipEntry>): Option<Str> {
    var executables := FilesAt(entries, EXECUTABLE);
    if executables == [] then None else Some(Sha256Hex(tools, executables[0]))
  }

  // ----- The loop ------------------------------------------------------------------------------

  datatype Outcome = Stop | Skip | Keep(bytes: seq<byte>)

  /** From the entry count to the scan, for one file. */
  method InspectContent(policy: Policy, compressed: u64, content: Result<seq<byte>, Str>, report: Report)
    returns (outcome: Outcome)
    requires IsValid(policy) && report.Valid()
    requires report.uncompressedBytesScanned <= policy.maxUncompressedBytes
    modifies report`findings, report`entriesScanned, report`uncompressedBytesScanned
    ensures report.Valid() && old(report.findings) <= report.findings
    ensures report.entriesScanned == old(report.entriesScanned) + 1
    ensures report.uncompressedBytesScanned <= policy.maxUncompressedBytes
    ensures match content
            case Err(_) => outcome == Skip && Blocked(report.findings)
                           && report.uncompressedBytesScanned == old(report.uncompressedBytesScanned)
            case Ok(bytes) =>
              && outcome == (if old(report.uncompressedBytesScanned) + |bytes| > policy.maxUncompressedBytes
                                || IsBomb(compressed, |bytes|) then Stop else Keep(bytes))
              && (outcome == Stop ==> Blocked(report.findings))
              && (outcome != Stop ==>
                    && report.uncompressedBytesScanned == old(report.uncompressedBytesScanned) + |bytes|
                    && (Blocked(report.findings) <==> Blocked(old(report.findings)) || !IsClean(policy, bytes)))
  {
    report.entriesScanned := report.entriesScanned + 1;
    var cap := policy.maxUncompressedBytes;
    if content.Err? {
      report.Push(ManifestMalformed, content.error);
      return Skip;
    }
    var buffer := Limited(content.value, cap);
    var actual := |buffer|;
    if actual > cap {
      report.uncompressedBytesScanned := cap;
      report.Push(ByteLimitExceeded, Bytes("entry exceeds ") + Decimal(cap) + Bytes(" bytes (truncated)"));
      return Stop;
    }
    var attempted := SaturatingAdd(report.uncompressedBytesScanned, actual);
    if attempted > cap {
      report.uncompressedBytesScanned := cap;
      report.Push(ByteLimitExceeded, Decimal(attempted));
      return Stop;
    }
    report.uncompressedBytesScanned := attempted;
    if IsBomb(compressed, actual) {
      report.Push(ByteLimitExceeded, Bytes("compression ratio ") + Decimal(actual) + [Refs.SLASH] + Decimal(compressed));
      return Stop;
    }
    ScanBytes(policy, buffer, report);
    return Keep(buffer);
  }

  /** What the loop has collected. */
  datatype Reading = Reading(
    stopped: bool, top: Option<Str>, manifests: seq<seq<byte>>, infoPlist: Option<seq<byte>>,
    executables: nat, executable: Option<seq<byte>>)

  function Collect(reading: Reading, relative: Str, bytes: seq<byte>): (next: Reading)
    ensures next.stopped == reading.stopped
  {
    var isExecutable := relative == Bytes(EXECUTABLE);
    var counted := reading.(
      executables := reading.executables + if isExecutable then 1 else 0,
      executable := if isExecutable && reading.executable.None? then Some(bytes) else reading.executable);
    if relative == Bytes(ZIP_MANIFEST) then counted.(manifests := counted.manifests + [bytes])
    else if relative == Bytes(ZIP_INFO_PLIST) then counted.(infoPlist := Some(bytes))
    else counted
  }

  /** What the loop body makes of an entry that does not stop it. */
  function After(reading: Reading, entry: ZipEntry): Reading {
    if !IsFile(entry) then reading
    else
      var named := if reading.top.None? then reading.(top := TopOf(entry.name)) else reading;
      if entry.content.Err? then named else Collect(named, Relative(entry.name, named.top), entry.content.value)
  }

  ghost function Read(entries: seq<ZipEntry>): Reading {
    Reading(false, TopPrefix(entries), FilesAt(entries, ZIP_MANIFEST), LastOf(FilesAt(entries, ZIP_INFO_PLIST)),
            |FilesAt(entries, EXECUTABLE)|, First(FilesAt(entries, EXECUTABLE)))
  }

  lemma {:induction false} ZipPrefixLimits(policy: Policy, entries: seq<ZipEntry>, n: nat)
    requires n <= |entries|
    ensures FileCount(entries[..n]) <= FileCount(entries) && TotalBytes(entries[..n]) <= TotalBytes(entries)
    decreases |entries|
  {
    if n < |entries| {
      var front := entries[..|entries| - 1];
      assert front[..n] == entries[..n];
      ZipPrefixLimits(policy, front, n);
    } else {
      assert entries[..n] == entries;
    }
  }

  lemma PathsDiffer()
    ensures Bytes(ZIP_MANIFEST) != Bytes(ZIP_INFO_PLIST)
  {
    assert |Bytes(ZIP_MANIFEST)| != |Bytes(ZIP_INFO_PLIST)|;
  }

  lemma OneMoreRead(entries: seq<ZipEntry>, k: nat)
    requires k < |entries|
    ensures Read(entries[..k + 1]) == After(Read(entries[..k]), entries[k])
  {
    var more := entries[..k + 1];
    assert more[..|more| - 1] == entries[..k] && more[k] == entries[k];
    PathsDiffer();
    hide Bytes, TopOf, Relative, FilesAt, IsFile;
    FilesAtGrows(more, ZIP_MANIFEST);
    FilesAtGrows(more, ZIP_INFO_PLIST);
    FilesAtGrows(more, EXECUTABLE);
    PrefixGrows(more);
    hide TopPrefix;
  }

  lemma PrefixGrows(entries: seq<ZipEntry>)
    requires entries != []
    ensures var (before, last) := (TopPrefix(entries[..|entries| - 1]), entries[|entries| - 1]);
            TopPrefix(entries) == if before.None? && IsFile(last) then TopOf(last.name) else before
  {
  }

  lemma FilesAtGrows(entries: seq<ZipEntry>, path: string)
    requires entries != []
    ensures var last := entries[|entries| - 1];
            FilesAt(entries, path) == FilesAt(entries[..|entries| - 1], path)
              + if IsFile(last) && last.content.Ok? && Relative(last.name, TopPrefix(entries)) == Bytes(path)
                then [last.content.value] else []
  {
    hide TopPrefix, Relative, Bytes;
  }

  /** What one more entry adds to the counters, and when it is one too many. */
  lemma OneMoreEntry(policy: Policy, entries: seq<ZipEntry>, k: nat)
    requires k < |entries|
    ensures var (entry, before, after) := (entries[k], entries[..k], entries[..k + 1]);
            && FileCount(after) == FileCount(before) + (if IsFile(entry) then 1 else 0)
            && TotalBytes(after) == TotalBytes(before) + FileBytes(entry)
            && (FileCount(before) < policy.maxEntries ==> CountIsWithin(policy, after))
            && (FileCount(before) >= policy.maxEntries || TotalBytes(after) > policy.maxUncompressedBytes ==>
                  !ZipIsWithin(policy, entries))
            && (EntriesAreHarmless(policy, after) <==> EntriesAreHarmless(policy, before) && EntryIsHarmless(policy, entry))
            && (!EntryIsHarmless(policy, entry) ==> !EntriesAreHarmless(policy, entries))
  {
    assert entries[..k + 1][..k] == entries[..k];
    ZipPrefixLimits(policy, entries, k + 1);
    var front := entries[..|entries| - 1];
    ZipPrefixLimits(policy, front, k);
    assert front[..k] == entries[..k];
    hide EntryIsHarmless;
  }

  lemma StoppersAreHarmful(policy: Policy, entry: ZipEntry)
    ensures entry.Unreadable? || (IsFile(entry) && entry.content.Ok? && IsBomb(entry.compressed, FileBytes(entry))) ==>
              !EntryIsHarmless(policy, entry)
  {
  }

  /** One turn of the entry loop. */
  method ReadEntry(policy: Policy, entry: ZipEntry, reading: Reading, report: Report) returns (next: Reading)
    requires IsValid(policy) && report.Valid() && !reading.stopped
    requires report.entriesScanned <= policy.maxEntries && report.uncompressedBytesScanned <= policy.maxUncompressedBytes
    modifies report`findings, report`entriesScanned, report`uncompressedBytesScanned
    ensures report.Valid() && old(report.findings) <= report.findings
    ensures report.entriesScanned <= policy.maxEntries && report.uncompressedBytesScanned <= policy.maxUncompressedBytes
    ensures next.stopped <==>
              || old(report.entriesScanned) == policy.maxEntries
              || entry.Unreadable?
              || old(report.uncompressedBytesScanned) + FileBytes(entry) > policy.maxUncompressedBytes
              || (IsFile(entry) && entry.content.Ok? && IsBomb(entry.compressed, FileBytes(entry)))
    ensures next.stopped ==> Blocked(report.findings)
    ensures !next.stopped ==>
              && next == After(reading, entry)
              && report.entriesScanned == old(report.entriesScanned) + (if IsFile(entry) then 1 else 0)
              && report.uncompressedBytesScanned == old(report.uncompressedBytesScanned) + FileBytes(entry)
              && (Blocked(report.findings) <==> Blocked(old(report.findings)) || !EntryIsHarmless(policy, entry))
  {
    hide IsClean, Blocked, TopOf, Relative, Collect, Decimal, IsBomb;
    next := reading;
    if report.entriesScanned == policy.maxEntries {
      report.Push(EntryLimitExceeded, Decimal(policy.maxEntries));
      next := next.(stopped := true);
    } else if entry.Unreadable? {
      report.Push(ManifestMalformed, entry.message);
      next := next.(stopped := true);
    } else if entry.isDir {
    } else if entry.isSymlink {
      report.Push(LinkRejected, entry.name);
    } else {
      if next.top.None? {
        next := next.(top := TopOf(entry.name));
      }
      var relative := Relative(entry.name, next.top);
      var outcome := InspectContent(policy, entry.compressed, entry.content, report);
      match outcome
      case Stop => next := next.(stopped := true);
      case Skip =>
      case Keep(bytes) => next := Collect(next, relative, bytes);
    }
  }

  /** The entry loop. */
  method ReadEntries(policy: Policy, entries: seq<ZipEntry>, report: Report) returns (reading: Reading)
    requires IsValid(policy)
    requires report.Valid() && report.entriesScanned == 0 && report.uncompressedBytesScanned == 0
    modifies report`findings, report`entriesScanned, report`uncompressedBytesScanned
    ensures report.Valid() && old(report.findings) <= report.findings
    ensures report.entriesScanned <= policy.maxEntries && report.uncompressedBytesScanned <= policy.maxUncompressedBytes
    ensures Blocked(report.findings) <==>
              Blocked(old(report.findings)) || !EntriesAreHarmless(policy, entries) || !ZipIsWithin(policy, entries)
    ensures EntriesAreHarmless(policy, entries) && ZipIsWithin(policy, entries) ==>
              && report.entriesScanned == FileCount(entries)
              && report.uncompressedBytesScanned == TotalBytes(entries)
              && reading == Read(entries)
  {
    reading := Reading(false, None, [], None, 0, None);
    var k := 0;
    while k < |entries| && !reading.stopped
      invariant k <= |entries|
      invariant report.Valid() && old(report.findings) <= report.findings
      invariant report.entriesScanned <= policy.maxEntries
      invariant report.uncompressedBytesScanned <= policy.maxUncompressedBytes
      invariant !reading.stopped ==>
                  && report.entriesScanned == FileCount(entries[..k])
                  && report.uncompressedBytesScanned == TotalBytes(entries[..k])
                  && reading == Read(entries[..k])
                  && (k > 0 ==> CountIsWithin(policy, entries[..k]))
                  && (Blocked(report.findings) <==> Blocked(old(report.findings)) || !EntriesAreHarmless(policy, entries[..k]))
      invariant reading.stopped ==>
                  Blocked(report.findings) && !(EntriesAreHarmless(policy, entries) && ZipIsWithin(policy, entries))
    {
      OneMoreRead(entries, k);
      OneMoreEntry(policy, entries, k);
      StoppersAreHarmful(policy, entries[k]);
      hide *;
      reading := ReadEntry(policy, entries[k], reading, report);
      k := k + 1;
    }
    assert entries[..|entries|] == entries;
  }

  /** The manifest loop. */
  method CheckManifests(inspector: Inspector, manifests: seq<seq<byte>>, report: Report)
    requires report.Valid()
    modifies report`findings
    ensures report.Valid() && old(report.findings) <= report.findings
    ensures Blocked(report.findings) <==>
              || Blocked(old(report.findings))
              || exists k :: 0 <= k < |manifests| && !ManifestHolds(inspector, manifests[k])
  {
    for k := 0 to |manifests|
      invariant report.Valid() && old(report.findings) <= report.findings
      invariant Blocked(report.findings) <==>
                || Blocked(old(report.findings))
                || exists j :: 0 <= j < k && !ManifestHolds(inspector, manifests[j])
    {
      hide ManifestMatches, Blocked;
      match inspector.tools.packageManifest(manifests[k])
      case Ok(manifest) => CheckManifest(inspector.policy, manifest, report);
      case Err(message) => report.Push(ManifestMalformed, message);
    }
  }

  predicate ReadingIsPackage(inspector: Inspector, reading: Reading) {
    && reading.executables == 1
    && reading.manifests != []
    && (forall k :: 0 <= k < |reading.manifests| ==> ManifestHolds(inspector, reading.manifests[k]))
    && reading.infoPlist.Some? && IsInfoPlist(inspector.tools, reading.infoPlist.value)
  }

  /** The package checks after the loop. */
  method CheckPackage(inspector: Inspector, reading: Reading, report: Report)
    requires report.Valid()
    modifies report`findings, report`inspectedExecutableSha256
    ensures report.Valid() && old(report.findings) <= report.findings
    ensures Blocked(report.findings) <==> Blocked(old(report.findings)) || !ReadingIsPackage(inspector, reading)
    ensures report.inspectedExecutableSha256 ==
            if reading.executable.Some? then Some(Sha256Hex(inspector.tools, reading.executable.value))
            else old(report.inspectedExecutableSha256)
  {
    hide Blocked, ManifestHolds, IsInfoPlist, Decimal, Bytes;
    if reading.executables != 1 {
      report.Push(ExecutableCountMismatch, Decimal(reading.executables));
    }
    if reading.manifests == [] {
      report.Push(ManifestMissing, Decimal(0));
    } else {
      CheckManifests(inspector, reading.manifests, report);
      if reading.infoPlist.None? || !IsInfoPlist(inspector.tools, reading.infoPlist.value) {
        report.Push(PlatformMetadataMissing, Bytes("package integration"));
      }
    }
    if reading.executable.Some? {
      report.inspectedExecutableSha256 := Some(Sha256Hex(inspector.tools, reading.executable.value));
    }
  }

  /** `inspect_zip`: the findings stand against acceptance exactly when the archive is not
      acceptable as a whole, wherever the loop broke off. */
  method InspectZip(inspector: Inspector, mode: Mode, archive: Result<seq<ZipEntry>, Str>, report: Report)
    requires IsValid(inspector.policy)
    requires report.Valid() && report.entriesScanned == 0 && report.uncompressedBytesScanned == 0
    modifies report`findings, report`entriesScanned, report`uncompressedBytesScanned, report`inspectedExecutableSha256
    ensures report.Valid() && old(report.findings) <= report.findings
    ensures Blocked(report.findings) <==>
              Blocked(old(report.findings)) || archive.Err? || !ZipIsAcceptable(inspector, mode, archive.value)
    ensures report.entriesScanned <= inspector.policy.maxEntries
    ensures report.uncompressedBytesScanned <= inspector.policy.maxUncompressedBytes
    ensures archive.Ok? && ZipIsAcceptable(inspector, mode, archive.value) ==>
              && report.entriesScanned == FileCount(archive.value)
              && report.uncompressedBytesScanned == TotalBytes(archive.value)
              && report.inspectedExecutableSha256 ==
                 if mode == Package then ZipExecutableDigest(inspector.tools, archive.value)
                 else old(report.inspectedExecutableSha256)
  {
    if archive.Err? {
      report.Push(ManifestMalformed, archive.error);
      return;
    }
    var reading := ReadEntries(inspector.policy, archive.value, report);
    hide FileCount, TotalBytes, FilesAt, EntriesAreHarmless, TopPrefix, Blocked, ZipIsWithin, ManifestHolds, IsInfoPlist, Bytes, IsValid;
    if mode == Package {
      CheckPackage(inspector, reading, report);
    }
  }

  /** What the two limits are about: every entry that is neither a directory nor a link counts once
      and with its decompressed length, and joined archives add up. */
  lemma {:induction false} FileCountsAdd(entries: seq<ZipEntry>, more: seq<ZipEntry>)
    ensures FileCount(entries + more) == FileCount(entries) + FileCount(more)
    ensures TotalBytes(entries + more) == TotalBytes(entries) + TotalBytes(more)
    ensures forall entry: ZipEntry ::
              && FileCount([entry]) == (if entry.Unreadable? || entry.isDir || entry.isSymlink then 0 else 1)
              && TotalBytes([entry]) == (if entry.Unreadable? || entry.isDir || entry.isSymlink || entry.content.Err? then 0
                                         else |entry.content.value|)
  {
    if more == [] {
      assert entries + more == entries;
    } else {
      var n := |more| - 1;
      FileCountsAdd(entries, more[..n]);
      assert (entries + more)[..|entries| + n] == entries + more[..n];
    }
    forall entry: ZipEntry
      ensures FileCount([entry]) == if IsFile(entry) then 1 else 0
      ensures TotalBytes([entry]) == FileBytes(entry)
    {
      assert [entry][..0] == [];
    }
  }

  // ----- What an archive package is, file by file --------------------------------------------------

  /** The first named top-level component of any file, as text: no slash in it, and the file's name is
      that component or goes on below it. */
  ghost predicate IsTop(name: Str, top: Str) {
    && |top| > 1 && top[|top| - 1] == Refs.SLASH && Refs.SLASH !in top[..|top| - 1]
    && (name == top[..|top| - 1] || top <= name)
  }

  lemma TopIsComponent(name: Str)
    ensures TopOf(name).None? <==> name == [] || name[0] == Refs.SLASH
    ensures forall top :: TopOf(name) == Some(top) <==> IsTop(name, top)
  {
    var end := Refs.NextSeparator(name, 0, |name|, Refs.IsSlash);
    forall top | IsTop(name, top)
      ensures TopOf(name) == Some(top)
    {
      assert forall i :: 0 <= i < |top| - 1 ==> name[i] == top[i] && top[i] in top[..|top| - 1];
      var stem := |top| - 1;
      assert name[..stem] == top[..stem] && top == top[..stem] + [Refs.SLASH];
      assert stem < |name| ==> Refs.IsSlash(name[stem]);
      assert end == stem;
    }
  }

  /** The prefix that is stripped comes from the first file that has one. */
  lemma {:induction false} PrefixIsFirstTop(entries: seq<ZipEntry>)
    ensures forall top :: TopPrefix(entries) == Some(top) <==>
              exists k ::
                && 0 <= k < |entries| && IsFile(entries[k]) && TopOf(entries[k].name) == Some(top)
                && forall j :: 0 <= j < k && IsFile(entries[j]) ==> TopOf(entries[j].name).None?
    ensures TopPrefix(entries).None? <==>
              forall k :: 0 <= k < |entries| && IsFile(entries[k]) ==> TopOf(entries[k].name).None?
  {
    if entries != [] {
      var (front, n) := (entries[..|entries| - 1], |entries| - 1);
      PrefixIsFirstTop(front);
      assert forall k :: 0 <= k < n ==> entries[k] == front[k];
      hide TopOf;
      forall top
        ensures TopPrefix(entries) == Some(top) <==>
                  exists k ::
                    && 0 <= k < |entries| && IsFile(entries[k]) && TopOf(entries[k].name) == Some(top)
                    && forall j :: 0 <= j < k && IsFile(entries[j]) ==> TopOf(entries[j].name).None?
      {
        if TopPrefix(front) == Some(top) {
          var k :| 0 <= k < n && IsFile(front[k]) && TopOf(front[k].name) == Some(top)
                   && forall j :: 0 <= j < k && IsFile(front[j]) ==> TopOf(front[j].name).None?;
          assert entries[k] == front[k];
        }
      }
    }
  }

  /** `entries[k]` is a file at `path` below the prefix known when it is read. */
  predicate IsAt(entries: seq<ZipEntry>, k: nat, path: string): (at: bool)
    requires k < |entries|
    ensures at ==> IsFile(entries[k])
  {
    IsFile(entries[k]) && Relative(entries[k].name, TopPrefix(entries[..k + 1])) == Bytes(path)
  }

  lemma {:induction false} FilesAtArePositional(entries: seq<ZipEntry>, path: string, bytes: seq<byte>)
    ensures bytes in FilesAt(entries, path) <==>
              exists k :: 0 <= k < |entries| && IsAt(entries, k, path) && entries[k].content == Ok(bytes)
  {
    hide FilesAt, IsAt;
    if entries == [] {
      NoFilesAt(path);
    } else {
      var (front, n) := (entries[..|entries| - 1], |entries| - 1);
      FilesAtArePositional(front, path, bytes);
      OneMoreFileAt(entries, path);
      forall k | 0 <= k < n
        ensures entries[k] == front[k] && (IsAt(entries, k, path) <==> IsAt(front, k, path))
      {
        EarlierIsAt(entries, k, path);
      }
      if bytes in FilesAt(front, path) {
        var k :| 0 <= k < n && IsAt(front, k, path) && front[k].content == Ok(bytes);
        assert IsAt(entries, k, path);
      }
    }
  }

  lemma NoFilesAt(path: string)
    ensures FilesAt([], path) == []
  {
  }

  lemma OneMoreFileAt(entries: seq<ZipEntry>, path: string)
    requires entries != []
    ensures var last := |entries| - 1;
            FilesAt(entries, path) == FilesAt(entries[..last], path)
              + if IsAt(entries, last, path) && entries[last].content.Ok? then [entries[last].content.value] else []
  {
    hide TopPrefix, Relative, Bytes;
    assert entries[..|entries|] == entries;
  }

  lemma EarlierIsAt(entries: seq<ZipEntry>, k: nat, path: string)
    requires k < |entries| - 1
    ensures IsAt(entries, k, path) <==> IsAt(entries[..|entries| - 1], k, path)
  {
    hide TopPrefix, Relative, Bytes;
    assert entries[..|entries| - 1][..k + 1] == entries[..k + 1];
  }

  /** An archive is a package exactly when one file is the executable, there is a manifest, every
      manifest declares the license of the policy, and the version and the source commit where the
      policy names them, and the last property list has the three keys. */
  lemma ZipPackageIsExact(inspector: Inspector, entries: seq<ZipEntry>)
    ensures ZipIsPackage(inspector, entries) <==>
              && |FilesAt(entries, EXECUTABLE)| == 1
              && FilesAt(entries, ZIP_MANIFEST) != []
              && (forall bytes :: bytes in FilesAt(entries, ZIP_MANIFEST) ==>
                    && inspector.tools.packageManifest(bytes).Ok?
                    && var (policy, manifest) := (inspector.policy, inspector.tools.packageManifest(bytes).value);
                    && manifest.license == Some(policy.expectedLicense)
                    && policy.expectedVersion in {None, manifest.version}
                    && policy.expectedSourceCommit in {None, manifest.sourceCommit})
              && LastOf(FilesAt(entries, ZIP_INFO_PLIST)).Some?
              && var info := LastOf(FilesAt(entries, ZIP_INFO_PLIST)).value;
              && inspector.tools.isUtf8(info)
              && ContainsText(info, "CFBundleIdentifier")
              && ContainsText(info, "CFBundleDocumentTypes")
              && ContainsText(info, "UTTypeConformsTo")
  {
    hide FilesAt, ContainsText;
  }

  // ----- What the reader never sees --------------------------------------------------------------

  function Inserted(entries: seq<ZipEntry>, i: nat, extra: ZipEntry): (more: seq<ZipEntry>)
    requires i <= |entries|
    ensures |more| == |entries| + 1
  {
    entries[..i] + [extra] + entries[i..]
  }

  lemma InsertedFront(entries: seq<ZipEntry>, i: nat, extra: ZipEntry)
    requires i < |entries|
    ensures var (front, more) := (entries[..|entries| - 1], Inserted(entries, i, extra));
            && more != [] && more[|more| - 1] == entries[|entries| - 1]
            && more[..|more| - 1] == Inserted(front, i, extra)
  {
    var front := entries[..|entries| - 1];
    assert front[..i] == entries[..i] && entries[i..] == front[i..] + [entries[|entries| - 1]];
  }

  lemma InsertedLast(entries: seq<ZipEntry>, extra: ZipEntry)
    ensures Inserted(entries, |entries|, extra)[..|entries|] == entries
  {
  }

  /** A directory-marked entry is passed over before its link bit, its size or its bytes are looked at. */
  lemma {:induction false} DirectoryLeavesNoTrace(entries: seq<ZipEntry>, i: nat, extra: ZipEntry)
    requires i <= |entries| && extra.Member? && extra.isDir
    ensures var more := Inserted(entries, i, extra);
            && FileCount(more) == FileCount(entries) && TotalBytes(more) == TotalBytes(entries)
            && TopPrefix(more) == TopPrefix(entries)
            && forall path :: FilesAt(more, path) == FilesAt(entries, path)
    decreases |entries|
  {
    hide TopOf, Relative, Bytes;
    var more := Inserted(entries, i, extra);
    if i == |entries| {
      assert more[..|more| - 1] == entries && more[|more| - 1] == extra;
    } else {
      InsertedFront(entries, i, extra);
      DirectoryLeavesNoTrace(entries[..|entries| - 1], i, extra);
    }
  }

  lemma DirectoryIsHarmless(policy: Policy, entries: seq<ZipEntry>, i: nat, extra: ZipEntry)
    requires i <= |entries| && extra.Member? && extra.isDir
    ensures EntriesAreHarmless(policy, Inserted(entries, i, extra)) <==> EntriesAreHarmless(policy, entries)
  {
    hide ContentIsHarmless;
    var more := Inserted(entries, i, extra);
    assert more[i] == extra;
    assert forall k :: 0 <= k < i ==> more[k] == entries[k];
    assert forall k :: i <= k < |entries| ==> more[k + 1] == entries[k];
    if EntriesAreHarmless(policy, more) {
      forall k | 0 <= k < |entries| ensures EntryIsHarmless(policy, entries[k]) {
        var j := if k < i then k else k + 1;
        assert EntryIsHarmless(policy, more[j]);
      }
    }
    if EntriesAreHarmless(policy, entries) {
      forall k | 0 <= k < |more| ensures EntryIsHarmless(policy, more[k]) {
        if k != i {
          var j := if k < i then k else k - 1;
          assert EntryIsHarmless(policy, entries[j]) && more[k] == entries[j];
        }
      }
    }
  }

  lemma DirectoryKeepsCount(policy: Policy, entries: seq<ZipEntry>, i: nat, extra: ZipEntry)
    requires i <= |entries| && extra.Member? && extra.isDir
    ensures CountIsWithin(policy, Inserted(entries, i, extra)) <==>
              if i < |entries| then CountIsWithin(policy, entries) else FileCount(entries) < policy.maxEntries
  {
    hide FileCount, TotalBytes, TopPrefix, FilesAt, Inserted, IsFile;
    if i < |entries| {
      InsertedFront(entries, i, extra);
      DirectoryLeavesNoTrace(entries[..|entries| - 1], i, extra);
    } else {
      InsertedLast(entries, extra);
    }
  }

  lemma DirectoryKeepsPackage(inspector: Inspector, entries: seq<ZipEntry>, i: nat, extra: ZipEntry)
    requires i <= |entries| && extra.Member? && extra.isDir
    ensures var more := Inserted(entries, i, extra);
            && (ZipIsPackage(inspector, more) <==> ZipIsPackage(inspector, entries))
            && ZipExecutableDigest(inspector.tools, more) == ZipExecutableDigest(inspector.tools, entries)
  {
    DirectoryLeavesNoTrace(entries, i, extra);
    hide FilesAt, ManifestHolds, IsInfoPlist, FileCount, TotalBytes, TopPrefix, Bytes, Inserted, Sha256Hex;
    var more := Inserted(entries, i, extra);
    assert FilesAt(more, EXECUTABLE) == FilesAt(entries, EXECUTABLE);
    assert FilesAt(more, ZIP_MANIFEST) == FilesAt(entries, ZIP_MANIFEST);
    assert FilesAt(more, ZIP_INFO_PLIST) == FilesAt(entries, ZIP_INFO_PLIST);
  }

  /** Acceptance is blind to directory-marked entries: one put anywhere, link or not, with any bytes behind
      it, changes neither the verdict nor the measured executable; only one put after the last permitted
      file makes the archive too long. */
  lemma DirectoriesAreUnseen(inspector: Inspector, mode: Mode, entries: seq<ZipEntry>, i: nat, extra: ZipEntry)
    requires i <= |entries| && extra.Member? && extra.isDir
    ensures var more := Inserted(entries, i, extra);
            && (ZipIsAcceptable(inspector, mode, more) <==>
                  && ZipIsAcceptable(inspector, mode, entries)
                  && (i == |entries| ==> FileCount(entries) < inspector.policy.maxEntries))
            && ZipExecutableDigest(inspector.tools, more) == ZipExecutableDigest(inspector.tools, entries)
  {
    hide EntriesAreHarmless, Inserted, FilesAt, FileCount, TotalBytes, TopPrefix, ZipIsPackage, CountIsWithin, ZipExecutableDigest;
    DirectoryLeavesNoTrace(entries, i, extra);
    DirectoryIsHarmless(inspector.policy, entries, i, extra);
    DirectoryKeepsCount(inspector.policy, entries, i, extra);
    DirectoryKeepsPackage(inspector, entries, i, extra);
    if i == |entries| && FileCount(entries) < inspector.policy.maxEntries {
      CountBelowIsWithin(inspector.policy, entries);
    }
  }

  lemma CountBelowIsWithin(policy: Policy, entries: seq<ZipEntry>)
    requires FileCount(entries) < policy.maxEntries
    ensures CountIsWithin(policy, entries)
  {
    if entries != [] {
      ZipPrefixLimits(policy, entries, |entries| - 1);
    }
  }

  /** No link, and read in full without finding anything. */
  predicate IsSound(policy: Policy, entry: ZipEntry) {
    entry.Member? && !entry.isSymlink && entry.content.Ok? && IsClean(policy, entry.content.value)
  }

  /** So an acceptable archive holds neither links nor forbidden bytes exactly when its directory-marked
      entries do not. */
  lemma AcceptedZipIsSound(inspector: Inspector, mode: Mode, entries: seq<ZipEntry>)
    requires ZipIsAcceptable(inspector, mode, entries)
    ensures (forall k :: 0 <= k < |entries| ==> IsSound(inspector.policy, entries[k])) <==>
            (forall k :: 0 <= k < |entries| && entries[k].Member? && entries[k].isDir ==> IsSound(inspector.policy, entries[k]))
  {
    hide IsClean;
    forall k | 0 <= k < |entries|
      ensures entries[k].Member? && (!entries[k].isDir ==> IsSound(inspector.policy, entries[k]))
    {
      assert EntryIsHarmless(inspector.policy, entries[k]);
    }
    hide ZipIsAcceptable, IsSound;
  }
}
