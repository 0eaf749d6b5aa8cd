/**
 * The self-update pipeline: download next to the executable, verify, swap.
 *
 * The file system is a map from paths to contents. Every operation that
 * changes it records the new contents, so `Disk.history` lists every state in
 * which a crash could leave the machine.
 */
module Updater {
  import opened Common
  import opened Text
  import opened Digest

  // ------------------------------------------------------------------ paths

  /** A file name, which need not be valid UTF-8. */
  datatype FileName = Utf8(text: string) | NotUtf8(raw: seq<Byte>)

  datatype Component = Root | ParentDir | Normal(name: FileName)

  type Path = seq<Component>

  /** `Path::file_name`: none when the path ends in `..` or at the root. */
  function FileNameOf(p: Path): Option<FileName> {
    if p != [] && p[|p| - 1].Normal? then Some(p[|p| - 1].name) else None
  }

  /** `PathBuf::set_file_name`: replaces the file name, or appends one. */
  function WithFileName(p: Path, name: string): Path {
    (if FileNameOf(p).Some? then p[..|p| - 1] else p) + [Normal(Utf8(name))]
  }

  function TempPath(exe: Path): Path {
    match FileNameOf(exe)
    case Some(Utf8(name)) => WithFileName(exe, name + ".new")
    case _ => WithFileName(exe, "viscos.new")
  }

  function BackupPath(exe: Path): Path {
    match FileNameOf(exe)
    case Some(Utf8(name)) => WithFileName(exe, name + ".old")
    case _ => WithFileName(exe, "viscos.old")
  }

  /** They lie beside the executable and add `.new` and `.old` to its name; other names are not taken apart. */
  lemma SiblingNames(dir: Path, name: string, exe: Path)
    ensures TempPath(dir + [Normal(Utf8(name))]) == dir + [Normal(Utf8(name + ".new"))]
    ensures BackupPath(dir + [Normal(Utf8(name))]) == dir + [Normal(Utf8(name + ".old"))]
    ensures (exists raw :: exe == dir + [Normal(NotUtf8(raw))]) || (exe == dir && FileNameOf(exe) == None) ==>
      TempPath(exe) == dir + [Normal(Utf8("viscos.new"))] && BackupPath(exe) == dir + [Normal(Utf8("viscos.old"))]
  {
    var utf8 := dir + [Normal(Utf8(name))];
    assert utf8[..|utf8| - 1] == dir;
    if raw :| exe == dir + [Normal(NotUtf8(raw))] {
      assert exe[..|exe| - 1] == dir;
    }
  }

  /** The three files an update touches. */
  datatype Layout = Layout(exe: Path, temp: Path, backup: Path)
  {
    predicate Distinct() { exe != temp && exe != backup && temp != backup }

    function Paths(): set<Path> { {exe, temp, backup} }
  }

  function LayoutOf(exe: Path): Layout { Layout(exe, TempPath(exe), BackupPath(exe)) }

  /** They are three different files, whatever the executable is called. */
  lemma PathsDistinct(exe: Path)
    ensures LayoutOf(exe).Distinct()
  {
    var t, b := TempPath(exe), BackupPath(exe);
    assert t[|t| - 1].Normal? && b[|b| - 1].Normal?;
    var tn, bn := t[|t| - 1].name.text, b[|b| - 1].name.text;
    assert tn[|tn| - 1] == 'w' && bn[|bn| - 1] == 'd';
    if FileNameOf(exe).Some? && FileNameOf(exe).value.Utf8? {
      assert |tn| == |FileNameOf(exe).value.text| + 4 == |bn|;
    }
  }

  // -------------------------------------------------------- the file system

  type Bytes = seq<Byte>

  type Files = map<Path, Bytes>

  function Lookup(files: Files, p: Path): Option<Bytes> {
    if p in files then Some(files[p]) else None
  }

  ghost predicate SameExcept(a: Files, b: Files, paths: set<Path>) {
    forall p :: p !in paths ==> Lookup(a, p) == Lookup(b, p)
  }

  class Disk {
    var files: Files
    var runnable: set<Path>  // the files that may be executed, as Unix has it
    ghost var history: seq<Files>

    ghost predicate Valid()
      reads this
    {
      history != [] && history[|history| - 1] == files && runnable <= files.Keys
    }

    constructor (files: Files, runnable: set<Path>)
      requires runnable <= files.Keys
      ensures Valid() && this.files == files && this.runnable == runnable && history == [files]
    {
      this.files, this.runnable := files, runnable;
      history := [files];
    }

    /** Creates or truncates, or appends: the file at `p` now holds `content`. A new file is not executable. */
    method Write(p: Path, content: Bytes)
      requires Valid()
      modifies this
      ensures Valid() && files == old(files)[p := content] && runnable == old(runnable)
      ensures history == old(history) + [files]
    {
      files := files[p := content];
      history := history + [files];
    }

    /** Removes a file; fails when it is missing or the system refuses. */
    method Remove(p: Path, permitted: bool) returns (done: bool)
      requires Valid()
      modifies this
      ensures Valid() && (done <==> permitted && p in old(files))
      ensures files == if done then old(files) - {p} else old(files)
      ensures runnable == if done then old(runnable) - {p} else old(runnable)
      ensures history == if done then old(history) + [files] else old(history)
    {
      done := permitted && p in files;
      if done {
        files, runnable := files - {p}, runnable - {p};
        history := history + [files];
      }
    }

    /** Renames a file, with its mode, replacing the target; fails when the source is missing. */
    method Rename(src: Path, dst: Path, permitted: bool) returns (done: bool)
      requires Valid()
      modifies this
      ensures Valid() && (done <==> permitted && src in old(files))
      ensures files == if done then (old(files) - {src})[dst := old(files)[src]] else old(files)
      ensures runnable == if done then Moved(old(runnable), src, dst) else old(runnable)
      ensures history == if done then old(history) + [files] else old(history)
    {
      done := permitted && src in files;
      if done {
        files, runnable := (files - {src})[dst := files[src]], Moved(runnable, src, dst);
        history := history + [files];
      }
    }

    /** Makes a file executable; fails when it is missing or the system refuses. */
    method MakeRunnable(p: Path, permitted: bool)
      requires Valid()
      modifies this`runnable
      ensures Valid() && runnable == if permitted && p in files then old(runnable) + {p} else old(runnable)
    {
      if permitted && p in files {
        runnable := runnable + {p};
      }
    }
  }

  function Moved(runnable: set<Path>, src: Path, dst: Path): set<Path> {
    if src in runnable then runnable - {src} + {dst} else runnable - {src, dst}
  }

  // ------------------------------------------------------------- the update

  /** How the outside world behaves during one update. */
  datatype World = World(
    logging: bool,            // log lines of level INFO are formatted
    located: bool,            // the path of the running program can be found out
    directoryOk: bool,        // the parent directory exists or can be created
    createOk: bool,           // the temp file can be created
    chunks: seq<Bytes>,       // what the transfer delivers before it ends
    transferOk: bool,         // whether the transfer ends well
    readOk: bool,             // the temp file can be read back
    removeTempOk: bool,
    removeBackupOk: bool,
    setAsideOk: bool,         // rename of the executable to its backup
    installOk: bool,          // rename of the temp file to the executable
    modeOk: bool,             // the new executable can be given its mode
    cleanupOk: bool,
    unix: bool)

  datatype Error = DownloadFailed | HashMismatch(expected: string, actual: string) | ReplaceFailed

  /** `Panicked`: the log line at the start cuts the digest inside a character. */
  datatype Outcome = Updated | Failed(error: Error) | Panicked

  function Concat(chunks: seq<Bytes>): Bytes {
    if chunks == [] then [] else Concat(chunks[..|chunks| - 1]) + chunks[|chunks| - 1]
  }

  /** How many bytes a character takes in UTF-8. */
  function Utf8Length(c: char): nat {
    if c < '\U{80}' then 1 else if c < '\U{800}' then 2 else if c < '\U{10000}' then 3 else 4
  }

  function ByteLength(s: string): nat {
    if s == [] then 0 else ByteLength(s[..|s| - 1]) + Utf8Length(s[|s| - 1])
  }

  /** A character ends, or the text does, where the first eight bytes do. */
  ghost predicate Cuttable(s: string) {
    ByteLength(s) < 8 || exists k :: 0 <= k <= |s| && ByteLength(s[..k]) == 8
  }

  /** Whether `&s[..s.len().min(8)]` ends between characters, looking from character `k` on. */
  predicate CutFits(s: string, k: nat)
    requires k <= |s|
    decreases |s| - k
  {
    if k == |s| then ByteLength(s) <= 8
    else ByteLength(s[..k]) == 8 || (ByteLength(s[..k]) < 8 && CutFits(s, k + 1))
  }

  lemma {:induction false} LongerPrefix(s: string, j: nat, k: nat)
    requires j < k <= |s|
    ensures ByteLength(s[..j]) < ByteLength(s[..k])
  {
    assert s[..k][..k - 1] == s[..k - 1];
    if j < k - 1 {
      LongerPrefix(s, j, k - 1);
    }
  }

  lemma {:induction false} CutFitsIff(s: string, k: nat)
    requires k <= |s| && forall j :: 0 <= j < k ==> ByteLength(s[..j]) < 8
    ensures CutFits(s, k) <==> Cuttable(s)
    decreases |s| - k
  {
    assert s[..|s|] == s;
    if ByteLength(s[..k]) > 8 {
      forall j | k < j <= |s|
        ensures ByteLength(s[..j]) > 8
      {
        LongerPrefix(s, k, j);
      }
    } else if ByteLength(s[..k]) < 8 && k < |s| {
      CutFitsIff(s, k + 1);
    }
  }

  lemma {:induction false} AsciiLength(s: string)
    requires forall k :: 0 <= k < |s| ==> s[k] < '\U{80}'
    ensures ByteLength(s) == |s|
  {
    if s != [] {
      AsciiLength(s[..|s| - 1]);
    }
  }

  /** Seven plain characters and one that is not: the eighth byte is inside the latter. */
  lemma CutInsideCharacter(plain: string, c: char, rest: string)
    requires |plain| == 7 && (forall k :: 0 <= k < 7 ==> plain[k] < '\U{80}') && c >= '\U{80}'
    ensures !Cuttable(plain + [c] + rest)
  {
    var s := plain + [c] + rest;
    AsciiLength(plain);
    assert s[..7] == plain && s[..8] == plain + [c] && s[..8][..7] == plain;
    assert ByteLength(s[..7]) == 7 && ByteLength(s[..8]) > 8;
    assert s[..|s|] == s;
    forall k | 0 <= k <= |s|
      ensures ByteLength(s[..k]) != 8
    {
      if k < 7 {
        LongerPrefix(s, k, 7);
      } else if k > 8 {
        LongerPrefix(s, 8, k);
      }
    }
    if |s| > 8 {
      LongerPrefix(s, 8, |s|);
    }
  }

  /** A digest is plain ASCII and can always be cut; only an asset name may not. */
  lemma DigestsAreCuttable(sha: Bytes -> Digest256, content: Bytes, expected: string)
    requires Matches(sha, content, expected)
    ensures Cuttable(expected)
  {
    if |expected| != DIGEST_CHARS || exists k :: 0 <= k < |expected| && !IsHexDigit(expected[k]) {
      NonDigestNeverMatches(sha(content), expected);
    }
    AsciiLength(expected[..8]);
  }

  /** `sha256_of_file` and the comparison with a release digest. */
  predicate Matches(sha: Bytes -> Digest256, content: Bytes, expected: string) {
    HexOf(sha(content)) == Lower(expected)
  }

  /**
   * A state a machine may safely be left in: the executable is what it was, or
   * it is missing with its old content kept as the backup, or it is verified.
   */
  ghost predicate CrashSafe(before: Files, s: Files, l: Layout, sha: Bytes -> Digest256, expected: string) {
    || Lookup(s, l.exe) == Lookup(before, l.exe)
    || (l.exe !in s && l.exe in before && Lookup(s, l.backup) == Some(before[l.exe]))
    || (l.exe in s && Matches(sha, s[l.exe], expected))
  }

  /** Crash safe, and no file outside the update's own three has changed. */
  ghost predicate StateSafe(before: Files, s: Files, l: Layout, sha: Bytes -> Digest256, expected: string) {
    CrashSafe(before, s, l, sha, expected) && SameExcept(before, s, l.Paths())
  }

  /** Every state recorded since `h0` is safe. */
  ghost predicate SafeSince(disk: Disk, h0: nat, before: Files, l: Layout, sha: Bytes -> Digest256, expected: string)
    reads disk
  {
    forall k :: h0 <= k < |disk.history| ==> StateSafe(before, disk.history[k], l, sha, expected)
  }

  /** Every state recorded since `h0` differs from `before` at `dest` only. */
  ghost predicate OnlyDestSince(disk: Disk, h0: nat, before: Files, dest: Path)
    reads disk
  {
    forall k :: h0 <= k < |disk.history| ==> SameExcept(before, disk.history[k], {dest})
  }

  /** `download_to_file`: create the destination and stream into it. */
  method DownloadToFile(disk: Disk, dest: Path, w: World) returns (ok: bool)
    requires disk.Valid()
    modifies disk
    ensures disk.Valid() && old(disk.history) <= disk.history
    ensures OnlyDestSince(disk, |old(disk.history)|, old(disk.files), dest)
    ensures SameExcept(old(disk.files), disk.files, {dest})
    ensures ok <==> w.directoryOk && w.createOk && w.transferOk
    ensures disk.runnable == old(disk.runnable)
    // Once it is created, the destination grows by one chunk after the other, whether or not the transfer ends well.
    ensures w.directoryOk && w.createOk ==>
      && |disk.history| == |old(disk.history)| + 1 + |w.chunks|
      && forall i :: 0 <= i <= |w.chunks| ==>
           disk.history[|old(disk.history)| + i] == old(disk.files)[dest := Concat(w.chunks[..i])]
    ensures w.directoryOk && w.createOk ==> disk.files == old(disk.files)[dest := Concat(w.chunks)]
    ensures !(w.directoryOk && w.createOk) ==> disk.files == old(disk.files) && disk.history == old(disk.history)
  {
    if !w.directoryOk || !w.createOk {
      return false;
    }
    disk.Write(dest, []);
    var written: Bytes := [];
    for i := 0 to |w.chunks|
      invariant disk.Valid() && old(disk.history) <= disk.history
      invariant written == Concat(w.chunks[..i])
      invariant disk.files == old(disk.files)[dest := written]
      invariant |disk.history| == |old(disk.history)| + 1 + i
      invariant forall j :: 0 <= j <= i ==>
        disk.history[|old(disk.history)| + j] == old(disk.files)[dest := Concat(w.chunks[..j])]
      invariant disk.runnable == old(disk.runnable)
    {
      assert w.chunks[..i + 1][..i] == w.chunks[..i];
      written := written + w.chunks[i];
      disk.Write(dest, written);
    }
    assert w.chunks[..|w.chunks|] == w.chunks;
    GrowsOnlyDest(disk, |old(disk.history)|, old(disk.files), dest, w.chunks);
    return w.transferOk;
  }

  lemma GrowsOnlyDest(disk: Disk, h0: nat, before: Files, dest: Path, chunks: seq<Bytes>)
    requires |disk.history| == h0 + 1 + |chunks|
    requires forall i :: 0 <= i <= |chunks| ==> disk.history[h0 + i] == before[dest := Concat(chunks[..i])]
    ensures OnlyDestSince(disk, h0, before, dest)
  {
    forall k | h0 <= k < |disk.history|
      ensures SameExcept(before, disk.history[k], {dest})
    {
      assert disk.history[h0 + (k - h0)] == before[dest := Concat(chunks[..k - h0])];
    }
  }

  /** `verify_temp_hash`: on a mismatch the temp file is deleted. */
  method VerifyTempHash(disk: Disk, temp: Path, expected: string, sha: Bytes -> Digest256, w: World)
    returns (failure: Option<Error>)
    requires disk.Valid()
    modifies disk
    ensures disk.Valid() && old(disk.history) <= disk.history
    ensures OnlyDestSince(disk, |old(disk.history)|, old(disk.files), temp)
    ensures failure == None <==> w.readOk && temp in old(disk.files) && Matches(sha, old(disk.files)[temp], expected)
    ensures failure == None ==> disk.files == old(disk.files) && disk.history == old(disk.history)
    ensures forall p :: p != temp ==> (p in disk.runnable <==> p in old(disk.runnable))
    ensures failure == None ==> disk.runnable == old(disk.runnable)
    ensures disk.files ==
            if w.readOk && failure != None && w.removeTempOk then old(disk.files) - {temp} else old(disk.files)
    ensures failure != None ==>
      failure.value == if w.readOk && temp in old(disk.files)
                       then HashMismatch(Lower(expected), HexOf(sha(old(disk.files)[temp]))) else ReplaceFailed
  {
    if !w.readOk || temp !in disk.files {
      return Some(ReplaceFailed);
    }
    var actual := HexEncode(sha(disk.files[temp]));
    var lowered := Lower(expected);
    if actual != lowered {
      var _ := disk.Remove(temp, w.removeTempOk);
      return Some(HashMismatch(lowered, actual));
    }
    return None;
  }

  /** The files after the executable has been set aside. */
  function SetAside(files: Files, l: Layout): Files
    requires l.exe in files
  {
    (files - {l.exe})[l.backup := files[l.exe]]
  }

  /** The files after the new binary has been moved in as well. */
  function Swapped(files: Files, l: Layout): Files
    requires l.exe in files && l.temp in files
  {
    (SetAside(files, l) - {l.temp})[l.exe := files[l.temp]]
  }

  /** The states a swap goes through. */
  ghost predicate SwapState(before: Files, s: Files, l: Layout) {
    || s == before
    || s == before - {l.backup}
    || (l.exe in before && s == SetAside(before, l))
    || (l.exe in before && l.temp in before && s == Swapped(before, l))
  }

  /** Those, and the one after the removal of the backup at the end. */
  ghost predicate ReplaceState(before: Files, s: Files, l: Layout) {
    SwapState(before, s, l) || (l.exe in before && l.temp in before && s == Swapped(before, l) - {l.backup})
  }

  ghost predicate ReplaceStatesSince(disk: Disk, h0: nat, before: Files, l: Layout)
    reads disk
  {
    forall k :: h0 <= k < |disk.history| ==> ReplaceState(before, disk.history[k], l)
  }

  ghost predicate SwapStatesSince(disk: Disk, h0: nat, before: Files, l: Layout)
    reads disk
  {
    forall k :: h0 <= k < |disk.history| ==> SwapState(before, disk.history[k], l)
  }

  /** With a verified new binary all of them are safe. */
  lemma ReplaceStateIsSafe(before: Files, s: Files, l: Layout, sha: Bytes -> Digest256, expected: string)
    requires l.Distinct() && l.temp in before && Matches(sha, before[l.temp], expected)
    requires ReplaceState(before, s, l)
    ensures StateSafe(before, s, l, sha, expected)
  {
  }

  /** The files after an old backup was dropped, if that succeeded. */
  function Dropped(files: Files, backup: Path, w: World): Files {
    if w.removeBackupOk then files - {backup} else files
  }

  /** What a swap that fails half-way, or at its start, leaves behind. */
  function AfterFailedSwap(files: Files, l: Layout, w: World): Files {
    if l.exe in files && w.setAsideOk then SetAside(files, l) else Dropped(files, l.backup, w)
  }

  /** The download is complete and its digest is right: the swap begins. */
  ghost predicate Verified(w: World, sha: Bytes -> Digest256, expected: string) {
    && w.located && w.directoryOk && w.createOk && w.transferOk && w.readOk
    && Matches(sha, Concat(w.chunks), expected)
  }

  /** Some state recorded since `h0` has no file at `p`. */
  ghost predicate MissingSince(disk: Disk, h0: nat, p: Path)
    reads disk
  {
    exists k :: h0 <= k < |disk.history| && p !in disk.history[k]
  }

  /** Dropping an old backup first makes no difference to what follows. */
  lemma OldBackupIsIrrelevant(before: Files, l: Layout, w: World)
    requires l.Distinct() && l.exe in before
    ensures
      var dropped := Dropped(before, l.backup, w);
      && l.exe in dropped && SetAside(dropped, l) == SetAside(before, l)
  {
  }

  /** The first step of the swap: an old backup is dropped, if that succeeds. */
  method DropOldBackup(disk: Disk, backup: Path, w: World)
    requires disk.Valid()
    modifies disk
    ensures disk.Valid() && disk.files == Dropped(old(disk.files), backup, w)
    ensures disk.history == old(disk.history) || disk.history == old(disk.history) + [disk.files]
    ensures forall p :: p != backup ==> (p in disk.runnable <==> p in old(disk.runnable))
  {
    if backup in disk.files {
      var _ := disk.Remove(backup, w.removeBackupOk);
    }
    assert backup !in old(disk.files) ==> old(disk.files) - {backup} == old(disk.files);
  }

  /** The first rename. The backup made room for is gone even when it fails. */
  method SetExecutableAside(disk: Disk, l: Layout, w: World) returns (aside: bool)
    requires disk.Valid() && l.Distinct()
    modifies disk
    ensures disk.Valid() && old(disk.history) <= disk.history
    ensures SwapStatesSince(disk, |old(disk.history)|, old(disk.files), l)
    ensures aside <==> l.exe in old(disk.files) && w.setAsideOk
    ensures disk.files == if aside then SetAside(old(disk.files), l) else Dropped(old(disk.files), l.backup, w)
    ensures aside ==> |old(disk.history)| < |disk.history|
    ensures l.exe in old(disk.files) ==> (MissingSince(disk, |old(disk.history)|, l.exe) <==> aside)
    ensures l.temp in disk.runnable <==> l.temp in old(disk.runnable)
  {
    ghost var before := disk.files;
    DropOldBackup(disk, l.backup, w);
    aside := disk.Rename(l.exe, l.backup, w.setAsideOk);
    if aside {
      OldBackupIsIrrelevant(before, l, w);
      assert l.exe !in disk.history[|disk.history| - 1];
    }
  }

  /** What the second rename makes of the files. */
  lemma InstallingSwaps(before: Files, l: Layout)
    requires l.Distinct() && l.exe in before && l.temp in before
    ensures
      var aside := SetAside(before, l);
      l.temp in aside && (aside - {l.temp})[l.exe := aside[l.temp]] == Swapped(before, l)
  {
  }

  /**
   * `atomic_replace`: drop an old backup, set the executable aside, move the
   * new binary in.
   */
  method AtomicReplace(disk: Disk, l: Layout, w: World) returns (ok: bool)
    requires disk.Valid() && l.Distinct()
    modifies disk
    ensures disk.Valid() && old(disk.history) <= disk.history
    ensures SwapStatesSince(disk, |old(disk.history)|, old(disk.files), l)
    ensures ok <==> l.exe in old(disk.files) && l.temp in old(disk.files) && w.setAsideOk && w.installOk
    ensures ok ==> disk.files == Swapped(old(disk.files), l)
    // The swap is two steps, not one: in between there is no executable, whether or not the second one works.
    ensures l.exe in old(disk.files) ==> (MissingSince(disk, |old(disk.history)|, l.exe) <==> w.setAsideOk)
    ensures ok ==>
      |old(disk.history)| <= |disk.history| - 2 && disk.history[|disk.history| - 2] == SetAside(old(disk.files), l)
    ensures !ok ==> disk.files == AfterFailedSwap(old(disk.files), l, w)
    // The new executable has the mode of the downloaded file, which need not be executable.
    ensures ok ==> (l.exe in disk.runnable <==> l.temp in old(disk.runnable))
  {
    ghost var before := disk.files;
    ok := SetExecutableAside(disk, l, w);
    ghost var h1 := |disk.history|;
    if ok {
      ok := disk.Rename(l.temp, l.exe, w.installOk);
      assert disk.history[h1 - 1] == SetAside(before, l);
      if ok {
        InstallingSwaps(before, l);
      }
    }
  }

  /**
   * `post_replace_cleanup`. On Unix the executable is given its mode and the
   * backup is removed, even if the former fails; on Windows the removal is
   * left to a detached process and does not happen here.
   */
  method PostReplaceCleanup(disk: Disk, l: Layout, w: World)
    requires disk.Valid() && l.Distinct()
    modifies disk
    ensures disk.Valid() && old(disk.history) <= disk.history
    ensures disk.files == if w.unix && w.cleanupOk then old(disk.files) - {l.backup} else old(disk.files)
    ensures disk.history == old(disk.history) || disk.history == old(disk.history) + [disk.files]
    ensures l.exe in disk.runnable <==> l.exe in old(disk.runnable) || (w.unix && w.modeOk && l.exe in old(disk.files))
  {
    if w.unix {
      disk.MakeRunnable(l.exe, w.modeOk);
      var _ := disk.Remove(l.backup, w.cleanupOk);
    }
  }

  /** Changing only the temp file is safe. */
  lemma TempOnlySince(disk: Disk, h0: nat, before: Files, l: Layout, sha: Bytes -> Digest256, expected: string)
    requires l.Distinct() && OnlyDestSince(disk, h0, before, l.temp)
    ensures SafeSince(disk, h0, before, l, sha, expected)
  {
  }

  /** What is safe after the download was safe before it. */
  lemma SafeAcrossDownload(before: Files, content: Bytes, s: Files, l: Layout, sha: Bytes -> Digest256, expected: string)
    requires l.Distinct() && StateSafe(before[l.temp := content], s, l, sha, expected)
    ensures StateSafe(before, s, l, sha, expected)
  {
  }

  lemma DownloadedSince(disk: Disk, h0: nat, h1: nat, before: Files, content: Bytes, l: Layout,
                        sha: Bytes -> Digest256, expected: string)
    requires l.Distinct() && Matches(sha, content, expected)
    requires ReplaceStatesSince(disk, h1, before[l.temp := content], l)
    requires forall k :: h0 <= k < h1 && k < |disk.history| ==> StateSafe(before, disk.history[k], l, sha, expected)
    ensures SafeSince(disk, h0, before, l, sha, expected)
  {
    forall k | h1 <= k < |disk.history|
      ensures StateSafe(before, disk.history[k], l, sha, expected)
    {
      ReplaceStateIsSafe(before[l.temp := content], disk.history[k], l, sha, expected);
      SafeAcrossDownload(before, content, disk.history[k], l, sha, expected);
    }
  }

  /** The download is complete: the temp file holds all of it. */
  predicate Downloads(w: World) { w.directoryOk && w.createOk && w.transferOk }

  /** The answer to a download that was complete and could be read, but has another digest than was announced. */
  function Mismatch(sha: Bytes -> Digest256, expected: string, w: World): Outcome {
    Failed(HashMismatch(Lower(expected), HexOf(sha(Concat(w.chunks)))))
  }

  /** What an attempt that does not panic answers, step by step. */
  ghost predicate Answered(before: Files, l: Layout, sha: Bytes -> Digest256, expected: string, w: World, r: Outcome) {
    && (!w.located ==> r == Failed(ReplaceFailed))
    && (w.located && !Downloads(w) <==> r == Failed(DownloadFailed))
    && (w.located && Downloads(w) && !w.readOk ==> r == Failed(ReplaceFailed))
    && (w.located && Downloads(w) && w.readOk && !Matches(sha, Concat(w.chunks), expected) ==>
        r == Mismatch(sha, expected, w))
    && (Verified(w, sha, expected) ==>
        r == if l.exe in before && w.setAsideOk && w.installOk then Updated else Failed(ReplaceFailed))
  }

  /** What it leaves. */
  ghost predicate Left(before: Files, after: Files, l: Layout, sha: Bytes -> Digest256, expected: string, w: World) {
    var downloaded := before[l.temp := Concat(w.chunks)];
    if !w.located || !w.directoryOk || !w.createOk then after == before
    else if !w.transferOk || !w.readOk then after == downloaded
    else if !Matches(sha, Concat(w.chunks), expected) then
      after == if w.removeTempOk then before - {l.temp} else downloaded
    else if l.exe in before && w.setAsideOk && w.installOk then
      after == if w.unix && w.cleanupOk then Swapped(downloaded, l) - {l.backup} else Swapped(downloaded, l)
    else after == AfterFailedSwap(downloaded, l, w)
  }

  /** Both, given what was there before. */
  ghost predicate Settled(before: Files, after: Files, l: Layout, sha: Bytes -> Digest256, expected: string, w: World, r: Outcome) {
    if r == Panicked then after == before
    else Answered(before, l, sha, expected, w, r) && Left(before, after, l, sha, expected, w)
  }

  /** What that means for a program that was there, for its backup, and for all other files. */
  lemma SettledProgram(before: Files, after: Files, l: Layout, sha: Bytes -> Digest256, expected: string, w: World, r: Outcome)
    requires l.Distinct() && Settled(before, after, l, sha, expected, w, r)
    requires r == Panicked ==> !Verified(w, sha, expected)
    ensures r == Updated <==> l.exe in before && Verified(w, sha, expected) && w.setAsideOk && w.installOk
    ensures r == Updated ==>
      && Lookup(after, l.exe) == Some(Concat(w.chunks))
      && l.temp !in after
      && Lookup(after, l.backup) == if w.unix && w.cleanupOk then None else Some(before[l.exe])
    ensures !Verified(w, sha, expected) ==> SameExcept(before, after, {l.temp})
    ensures l.exe in before ==> (l.exe !in after <==> Verified(w, sha, expected) && w.setAsideOk && !w.installOk)
    ensures l.exe in before && r != Updated ==>
      || Lookup(after, l.exe) == Some(before[l.exe])
      || (l.exe !in after && Lookup(after, l.backup) == Some(before[l.exe]))
    ensures l.exe !in before ==>
      && l.exe !in after
      && Lookup(after, l.backup) ==
         if Verified(w, sha, expected) && w.removeBackupOk then None else Lookup(before, l.backup)
  {
    if !Verified(w, sha, expected) {
      assert SameExcept(before, after, {l.temp});
      assert Lookup(before, l.exe) == Lookup(after, l.exe) && Lookup(before, l.backup) == Lookup(after, l.backup);
    }
  }

  /** `Updater::apply`. */
  method Apply(disk: Disk, exe: Path, expected: string, sha: Bytes -> Digest256, w: World) returns (r: Outcome)
    requires disk.Valid()
    modifies disk
    ensures disk.Valid() && old(disk.history) <= disk.history
    // No crash point loses a program that was there, and no other file ever changes.
    ensures SafeSince(disk, |old(disk.history)|, old(disk.files), LayoutOf(exe), sha, expected)
    // At some crash point it is missing exactly when it could be set aside.
    ensures exe in old(disk.files) ==>
      (MissingSince(disk, |old(disk.history)|, exe) <==> Verified(w, sha, expected) && w.setAsideOk)
    // A fallback name that cannot be cut for the log ends the program before anything is done.
    ensures r == Panicked <==> w.logging && !Cuttable(expected)
    ensures r == Panicked ==> disk.history == old(disk.history)
    ensures Settled(old(disk.files), disk.files, LayoutOf(exe), sha, expected, w, r)
    // Success does not mean that it can be started: setting its mode may have failed.
    ensures r == Updated ==> (exe in disk.runnable <==> TempPath(exe) in old(disk.runnable) || (w.unix && w.modeOk))
    // It succeeds exactly when every step does and the digest is right.
    ensures r == Updated <==> exe in old(disk.files) && Verified(w, sha, expected) && w.setAsideOk && w.installOk
    ensures r == Updated ==>
      && Lookup(disk.files, exe) == Some(Concat(w.chunks))
      && TempPath(exe) !in disk.files
      && Lookup(disk.files, BackupPath(exe)) == if w.unix && w.cleanupOk then None else Some(old(disk.files)[exe])
    // What is not verified never reaches the executable or its backup.
    ensures !Verified(w, sha, expected) ==> SameExcept(old(disk.files), disk.files, {TempPath(exe)})
    // The program goes missing exactly when it was set aside and the new one not installed, and then stays missing.
    ensures exe in old(disk.files) ==>
      (exe !in disk.files <==> Verified(w, sha, expected) && w.setAsideOk && !w.installOk)
    ensures exe !in old(disk.files) ==>
      && exe !in disk.files
      && Lookup(disk.files, BackupPath(exe)) ==
         if Verified(w, sha, expected) && w.removeBackupOk then None else Lookup(old(disk.files), BackupPath(exe))
    // Unless updated, it is in its place or in the backup.
    ensures exe in old(disk.files) && r != Updated ==>
      || Lookup(disk.files, exe) == Some(old(disk.files)[exe])
      || (exe !in disk.files && Lookup(disk.files, BackupPath(exe)) == Some(old(disk.files)[exe]))
  {
    PathsDistinct(exe);
    var l := LayoutOf(exe);
    r := ApplyLogged(disk, l, expected, sha, w);
    SettledProgram(old(disk.files), disk.files, l, sha, expected, w, r);
  }

  /** It starts with the log line, and with finding out the path of the program. */
  method ApplyLogged(disk: Disk, l: Layout, expected: string, sha: Bytes -> Digest256, w: World) returns (r: Outcome)
    requires disk.Valid() && l.Distinct()
    modifies disk
    ensures disk.Valid() && old(disk.history) <= disk.history
    ensures SafeSince(disk, |old(disk.history)|, old(disk.files), l, sha, expected)
    ensures l.exe in old(disk.files) ==>
      (MissingSince(disk, |old(disk.history)|, l.exe) <==> Verified(w, sha, expected) && w.setAsideOk)
    ensures r == Panicked <==> w.logging && !Cuttable(expected)
    ensures r == Panicked ==> disk.history == old(disk.history) && !Verified(w, sha, expected)
    ensures Settled(old(disk.files), disk.files, l, sha, expected, w, r)
    ensures r == Updated ==> (l.exe in disk.runnable <==> l.temp in old(disk.runnable) || (w.unix && w.modeOk))
  {
    CutFitsIff(expected, 0);
    if Matches(sha, Concat(w.chunks), expected) {
      DigestsAreCuttable(sha, Concat(w.chunks), expected);
    }
    if w.logging && !CutFits(expected, 0) {
      return Panicked;
    }
    if !w.located {
      return Failed(ReplaceFailed);
    }
    r := ApplyAt(disk, l, expected, sha, w);
  }

  /** The body of `apply` once the three paths are known. */
  method ApplyAt(disk: Disk, l: Layout, expected: string, sha: Bytes -> Digest256, w: World) returns (r: Outcome)
    requires disk.Valid() && l.Distinct() && w.located
    modifies disk
    ensures disk.Valid() && old(disk.history) <= disk.history
    ensures SafeSince(disk, |old(disk.history)|, old(disk.files), l, sha, expected)
    ensures l.exe in old(disk.files) ==>
      (MissingSince(disk, |old(disk.history)|, l.exe) <==> Verified(w, sha, expected) && w.setAsideOk)
    ensures r != Panicked && Settled(old(disk.files), disk.files, l, sha, expected, w, r)
    ensures r == Updated ==> (l.exe in disk.runnable <==> l.temp in old(disk.runnable) || (w.unix && w.modeOk))
  {
    ghost var before, h0, content := disk.files, |disk.history|, Concat(w.chunks);
    var failure := DownloadAndVerify(disk, l.temp, expected, sha, w);
    TempOnlySince(disk, h0, before, l, sha, expected);
    if failure != None {
      return Failed(failure.value);
    }
    ghost var h1 := |disk.history|;
    var replaced := ReplaceAndCleanUp(disk, l, w);
    DownloadedSince(disk, h0, h1, before, content, l, sha, expected);
    MissingAfterDownload(disk, h0, h1, before, l);
    return if replaced then Updated else Failed(ReplaceFailed);
  }

  /** Steps 1 and 2: afterwards the temp file is the verified download, or there is a failure. */
  method DownloadAndVerify(disk: Disk, temp: Path, expected: string, sha: Bytes -> Digest256, w: World)
    returns (failure: Option<Error>)
    requires disk.Valid() && w.located
    modifies disk
    ensures disk.Valid() && old(disk.history) <= disk.history
    ensures OnlyDestSince(disk, |old(disk.history)|, old(disk.files), temp)
    ensures failure == None <==> Verified(w, sha, expected)
    ensures failure == None ==> disk.runnable == old(disk.runnable)
    ensures !Downloads(w) ==> failure == Some(DownloadFailed)
    ensures Downloads(w) && !w.readOk ==> failure == Some(ReplaceFailed)
    ensures Downloads(w) && w.readOk && !Matches(sha, Concat(w.chunks), expected) ==>
      failure != None && Failed(failure.value) == Mismatch(sha, expected, w)
    ensures disk.files ==
            if !w.directoryOk || !w.createOk then old(disk.files)
            else if w.transferOk && w.readOk && failure != None && w.removeTempOk then old(disk.files) - {temp}
            else old(disk.files)[temp := Concat(w.chunks)]
  {
    var downloaded := DownloadToFile(disk, temp, w);
    if !downloaded {
      return Some(DownloadFailed);
    }
    failure := VerifyTempHash(disk, temp, expected, sha, w);
    assert old(disk.files)[temp := Concat(w.chunks)] - {temp} == old(disk.files) - {temp};
  }

  /** Steps 3 to 6. */
  method ReplaceAndCleanUp(disk: Disk, l: Layout, w: World) returns (replaced: bool)
    requires disk.Valid() && l.Distinct() && l.temp in disk.files
    modifies disk
    ensures disk.Valid() && old(disk.history) <= disk.history
    ensures ReplaceStatesSince(disk, |old(disk.history)|, old(disk.files), l)
    ensures l.exe in old(disk.files) ==> (MissingSince(disk, |old(disk.history)|, l.exe) <==> w.setAsideOk)
    ensures replaced <==> l.exe in old(disk.files) && w.setAsideOk && w.installOk
    ensures !replaced ==> disk.files == AfterFailedSwap(old(disk.files), l, w)
    ensures replaced ==>
      disk.files == if w.unix && w.cleanupOk then Swapped(old(disk.files), l) - {l.backup} else Swapped(old(disk.files), l)
    ensures replaced ==> (l.exe in disk.runnable <==> l.temp in old(disk.runnable) || (w.unix && w.modeOk))
  {
    ghost var h0 := |disk.history|;
    replaced := AtomicReplace(disk, l, w);
    if replaced {
      ghost var k :| h0 <= k < |disk.history| && l.exe !in disk.history[k];
      ghost var swapped := disk.history;
      PostReplaceCleanup(disk, l, w);
      assert disk.history[k] == swapped[k];
    }
  }

  /** The download changes nothing but the temp file, so a missing program is missing because of the swap. */
  lemma MissingAfterDownload(disk: Disk, h0: nat, h1: nat, before: Files, l: Layout)
    requires l.Distinct() && h0 <= h1 <= |disk.history|
    requires forall k :: h0 <= k < h1 ==> SameExcept(before, disk.history[k], {l.temp})
    ensures l.exe in before ==> (MissingSince(disk, h0, l.exe) <==> MissingSince(disk, h1, l.exe))
  {
    forall k | h0 <= k < h1 && l.exe in before
      ensures l.exe in disk.history[k]
    {
      assert Lookup(before, l.exe) == Lookup(disk.history[k], l.exe);
    }
  }

  /**
   * A swap that fails between its renames leaves the program in the backup
   * only, and the next attempt, which is meant to repair that, drops the
   * backup before it finds nothing to set aside.
   */
  method RetryAfterFailedSwap(disk: Disk, exe: Path, expected: string, sha: Bytes -> Digest256, w: World, again: World)
    returns (first: Outcome, second: Outcome)
    requires disk.Valid() && exe in disk.files
    requires Verified(w, sha, expected) && w.setAsideOk && !w.installOk
    requires Verified(again, sha, expected)
    modifies disk
    ensures first == Failed(ReplaceFailed) && second == Failed(ReplaceFailed)
    ensures exe !in disk.files && Lookup(disk.files, TempPath(exe)) == Some(Concat(again.chunks))
    ensures Lookup(disk.files, BackupPath(exe)) == if again.removeBackupOk then None else Some(old(disk.files)[exe])
  {
    PathsDistinct(exe);
    DigestsAreCuttable(sha, Concat(w.chunks), expected);
    first := Apply(disk, exe, expected, sha, w);
    second := Apply(disk, exe, expected, sha, again);
  }

  // ------------------------------------------------------------- the proofs

  /**
   * The digest a release carries: the first one in its notes, and failing that
   * the name of the asset.
   */
  method ReleaseDigest(body: Option<string>, assetName: string) returns (sha256: string)
    ensures body.Some? ==> exists found :: IsLeftmostDigest(body.value, found)
                                        && sha256 == if found.Some? then found.value else assetName
    ensures body.None? ==> sha256 == assetName
  {
    var found := ExtractSha256(body);
    sha256 := match found case Some(hex) => hex case None => assetName;
  }

  /** Release notes that print the digest `d` after a harmless prefix. */
  ghost predicate Publishes(body: string, d: Digest256) {
    exists prefix, suffix ::
      && body == prefix + HexOf(d) + suffix
      && (forall j :: !WindowAt(prefix, j))
      && (prefix == [] || !IsHexDigit(prefix[|prefix| - 1]))
  }

  /**
   * The whole pipeline: with notes that publish `d`, an update goes through
   * only for content whose digest is `d`, and then does when nothing else fails.
   */
  method InstallPublished(disk: Disk, exe: Path, body: string, assetName: string, ghost d: Digest256,
                          sha: Bytes -> Digest256, w: World) returns (r: Outcome)
    requires disk.Valid() && Publishes(body, d)
    modifies disk
    ensures disk.Valid() && old(disk.history) <= disk.history
    ensures SafeSince(disk, |old(disk.history)|, old(disk.files), LayoutOf(exe), sha, HexOf(d))
    ensures r == Updated <==>
      && w.located && w.directoryOk && w.createOk && w.transferOk && w.readOk && w.setAsideOk && w.installOk
      && exe in old(disk.files) && sha(Concat(w.chunks)) == d
    ensures r == Updated ==> exe in disk.files && sha(disk.files[exe]) == d
  {
    var expected := ReleaseDigest(Some(body), assetName);
    ghost var found :| IsLeftmostDigest(body, found) && expected == if found.Some? then found.value else assetName;
    PublishedIsFound(body, d, found);
    LowerOfHex(d);
    PrintedEqualIffEqual(sha(Concat(w.chunks)), d, expected);
    r := Apply(disk, exe, expected, sha, w);
  }

  lemma PublishedIsFound(body: string, d: Digest256, found: Option<string>)
    requires Publishes(body, d) && IsLeftmostDigest(body, found)
    ensures found == Some(HexOf(d))
  {
    var prefix, suffix :|
      && body == prefix + HexOf(d) + suffix
      && (forall j :: !WindowAt(prefix, j))
      && (prefix == [] || !IsHexDigit(prefix[|prefix| - 1]));
    ScanFindsPrinted(prefix, d, suffix, found);
  }

  /**
   * The other side of the pipeline: with notes that publish no digest, or
   * without notes, nothing is ever installed, whatever is downloaded, unless
   * the asset itself is named like a digest.
   */
  method NoDigestNoUpdate(disk: Disk, exe: Path, body: Option<string>, assetName: string, sha: Bytes -> Digest256, w: World)
    returns (r: Outcome)
    requires disk.Valid() && (body.Some? ==> forall j :: !WindowAt(body.value, j))
    requires |assetName| != DIGEST_CHARS || exists k :: 0 <= k < |assetName| && !IsHexDigit(assetName[k])
    modifies disk
    ensures disk.Valid() && old(disk.history) <= disk.history
    ensures r != Updated && SameExcept(old(disk.files), disk.files, {TempPath(exe)})
    ensures r == Panicked <==> w.logging && !Cuttable(assetName)
  {
    var expected := ReleaseDigest(body, assetName);
    if body.Some? {
      ghost var found :|
        IsLeftmostDigest(body.value, found) && expected == if found.Some? then found.value else assetName;
      assert found.None?;
    }
    NonDigestNeverMatches(sha(Concat(w.chunks)), assetName);
    r := Apply(disk, exe, expected, sha, w);
  }
}
