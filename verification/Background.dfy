/**
 * `background_check`: the loop that asks for releases and, with `auto_apply`,
 * installs them. Its baseline is the version it was started with.
 */
module Background {
  import opened Common
  import opened Digest
  import opened Version
  import opened Updater

  /** What one round meets: the answer of the release source, the path of the program, and the world. */
  datatype Round = Round(answer: Result<Option<Release>, string>, exe: Path, world: World)

  /** The same round as far as versions matter: the answer, and whether installing works. */
  datatype Turn = Turn(answer: Result<Option<Release>, string>, applied: bool)

  /** The release that `check` hands to `apply`. */
  function Offered(current: string, answer: Result<Option<Release>, string>): Option<Release> {
    match Check(current, answer)
    case Ok(offer) => offer
    case Err(_) => None
  }

  /** The releases that one run installs. */
  function Installs(start: string, autoApply: bool, turns: seq<Turn>): seq<Release> {
    if turns == [] then []
    else
      var before, last := Installs(start, autoApply, turns[..|turns| - 1]), turns[|turns| - 1];
      match Offered(start, last.answer)
      case Some(r) => if autoApply && last.applied then before + [r] else before
      case None => before
  }

  function TurnsOf(rounds: seq<Round>, outcomes: seq<Option<Outcome>>): seq<Turn>
    requires |outcomes| <= |rounds|
  {
    seq(|outcomes|, k requires 0 <= k < |outcomes| => Turn(rounds[k].answer, outcomes[k] == Some(Updated)))
  }

  // ------------------------------------------- what rounds do to the program

  /**
   * What one round is up to. `tries`: it calls `apply`; `panics`: and that
   * panics; `drops`: it removes a backup before anything else; `breaks`: it
   * moves the program to the backup and fails to install the new one;
   * `works`: it installs `content`, if there is a program to be replaced.
   */
  datatype Act = Act(tries: bool, panics: bool, drops: bool, breaks: bool, works: bool, content: Bytes)

  /** Some round has broken the program. */
  ghost predicate Broken(acts: seq<Act>) {
    exists i :: 0 <= i < |acts| && acts[i].breaks
  }

  /** Some round has broken the program, and a later one has dropped the backup. */
  ghost predicate Gone(acts: seq<Act>) {
    exists i, j :: 0 <= i < j < |acts| && acts[i].breaks && acts[j].drops
  }

  /** What was installed last, as long as the program was not broken; `original` was there at first. */
  ghost function LastProgram(original: Bytes, acts: seq<Act>): Bytes {
    if acts == [] then original
    else
      var before, last := acts[..|acts| - 1], acts[|acts| - 1];
      if last.works && !Broken(before) then last.content else LastProgram(original, before)
  }

  /** Where the rounds leave the last program: in its place, in the backup only, or nowhere. */
  ghost predicate Fate(files: Files, exe: Path, original: Bytes, acts: seq<Act>) {
    && Lookup(files, exe) == (if Broken(acts) then None else Some(LastProgram(original, acts)))
    && (Broken(acts) ==>
        Lookup(files, BackupPath(exe)) == if Gone(acts) then None else Some(LastProgram(original, acts)))
  }

  /** What one round does to the program and to its backup. */
  ghost predicate Effect(act: Act, exe: Path, before: Files, after: Files) {
    var backup := BackupPath(exe);
    if exe in before then
      && Lookup(after, exe) == (if act.breaks then None else if act.works then Some(act.content) else Some(before[exe]))
      && (act.breaks ==> Lookup(after, backup) == Some(before[exe]))
    else
      exe !in after && Lookup(after, backup) == if act.drops then None else Lookup(before, backup)
  }

  /** The outcome of a round, given whether the program is there. */
  predicate Fits(act: Act, present: bool, outcome: Option<Outcome>) {
    && (outcome.Some? <==> act.tries)
    && (outcome == Some(Updated) <==> present && act.works)
    && (outcome == Some(Panicked) <==> act.panics)
  }

  /** The outcome of a round, wherever it looks for the program. */
  predicate Possible(act: Act, outcome: Option<Outcome>) {
    Fits(act, true, outcome) || Fits(act, false, outcome)
  }

  ghost predicate AllPossible(acts: seq<Act>, outcomes: seq<Option<Outcome>>) {
    |acts| == |outcomes| && forall k :: 0 <= k < |acts| ==> Possible(acts[k], outcomes[k])
  }

  lemma AllPossibleSnoc(acts: seq<Act>, outcomes: seq<Option<Outcome>>, act: Act, outcome: Option<Outcome>)
    requires AllPossible(acts, outcomes) && Possible(act, outcome)
    ensures AllPossible(acts + [act], outcomes + [outcome])
  {
  }

  /** The outcomes of rounds that find the program in its place until one breaks it. */
  ghost predicate AllFit(acts: seq<Act>, outcomes: seq<Option<Outcome>>) {
    |acts| == |outcomes| &&
    (acts == [] ||
     (var n := |acts| - 1;
      AllFit(acts[..n], outcomes[..n]) && Fits(acts[n], !Broken(acts[..n]), outcomes[n])))
  }

  /** Round by round: it succeeds exactly if it works and none before it has broken the program. */
  lemma {:induction false} FitsAt(acts: seq<Act>, outcomes: seq<Option<Outcome>>, k: nat)
    requires AllFit(acts, outcomes) && k < |acts|
    ensures Fits(acts[k], !Broken(acts[..k]), outcomes[k])
  {
    var n := |acts| - 1;
    if k < n {
      FitsAt(acts[..n], outcomes[..n], k);
      assert acts[..n][..k] == acts[..k];
    }
  }

  lemma BrokenSnoc(acts: seq<Act>, act: Act)
    ensures Broken(acts + [act]) <==> Broken(acts) || act.breaks
  {
    var longer, n := acts + [act], |acts|;
    assert longer[n] == act;
    if i :| 0 <= i < n && acts[i].breaks {
      assert longer[i] == acts[i];
    }
    if i :| 0 <= i < n + 1 && longer[i].breaks {
      assert i < n ==> acts[i] == longer[i];
    }
  }

  lemma GoneIsBroken(acts: seq<Act>)
    ensures Gone(acts) ==> Broken(acts)
  {
  }

  lemma GoneSnoc(acts: seq<Act>, act: Act)
    ensures Gone(acts + [act]) <==> Gone(acts) || (Broken(acts) && act.drops)
  {
    var longer, n := acts + [act], |acts|;
    assert longer[n] == act;
    if i, j :| 0 <= i < j < n && acts[i].breaks && acts[j].drops {
      assert longer[i].breaks && longer[j].drops;
    }
    if i :| 0 <= i < n && acts[i].breaks {
      assert longer[i].breaks && (act.drops ==> longer[n].drops);
    }
    if i, j :| 0 <= i < j < n + 1 && longer[i].breaks && longer[j].drops {
      assert acts[i].breaks && (j < n ==> acts[j].drops);
    }
  }

  /** One more round moves the fate on. */
  lemma FateSnoc(before: Files, after: Files, exe: Path, original: Bytes, acts: seq<Act>, act: Act)
    requires Fate(before, exe, original, acts) && Effect(act, exe, before, after)
    requires act.breaks ==> !act.works
    ensures Fate(after, exe, original, acts + [act])
  {
    BrokenSnoc(acts, act);
    GoneSnoc(acts, act);
    GoneIsBroken(acts);
    assert (acts + [act])[..|acts|] == acts;
  }

  lemma AllFitSnoc(acts: seq<Act>, outcomes: seq<Option<Outcome>>, act: Act, outcome: Option<Outcome>)
    requires AllFit(acts, outcomes) && Fits(act, !Broken(acts), outcome)
    ensures AllFit(acts + [act], outcomes + [outcome])
  {
    assert (acts + [act])[..|acts|] == acts;
    assert (outcomes + [outcome])[..|outcomes|] == outcomes;
  }

  // -------------------------------------------------------- the loop on disk

  /** How the loop is set up; `sha` is the hash function. */
  datatype Setup = Setup(start: string, autoApply: bool, sha: Bytes -> Digest256)
  {
    /** The release that the round hands to `apply`. */
    function Attempt(round: Round): Option<Release> {
      if autoApply then Offered(start, round.answer) else None
    }

    /** The round gets as far as the swap. */
    ghost predicate Swaps(round: Round) {
      Attempt(round).Some? && Verified(round.world, sha, Attempt(round).value.sha256)
    }

    ghost function ActOf(round: Round): Act {
      var attempt, w := Attempt(round), round.world;
      Act(attempt.Some?,
          attempt.Some? && w.logging && !Cuttable(attempt.value.sha256),
          Swaps(round) && w.removeBackupOk,
          Swaps(round) && w.setAsideOk && !w.installOk,
          Swaps(round) && w.setAsideOk && w.installOk,
          Concat(w.chunks))
    }

    ghost function ActsOf(rounds: seq<Round>): seq<Act> {
      seq(|rounds|, k requires 0 <= k < |rounds| => ActOf(rounds[k]))
    }

    /** The releases that the rounds have installed. */
    function InstalledBy(rounds: seq<Round>, outcomes: seq<Option<Outcome>>): seq<Release>
      requires |outcomes| <= |rounds|
    {
      Installs(start, autoApply, TurnsOf(rounds, outcomes))
    }

    /** All outcomes, and the fate, of rounds that look for the program at `exe`, where `original` was at first. */
    ghost predicate Told(files: Files, exe: Path, original: Bytes, rounds: seq<Round>, outcomes: seq<Option<Outcome>>) {
      AllFit(ActsOf(rounds), outcomes) && Fate(files, exe, original, ActsOf(rounds))
    }

    /**
     * What these rounds make of the files. If all of them look for the program
     * at `exe` and it is there at first, the outcome of every round is known,
     * and so is where the program ends up: it is missing exactly if some round
     * broke it, and gone with its backup exactly if a later one dropped that.
     * If it is not there, nothing is ever installed.
     */
    ghost predicate Ran(before: Files, after: Files, exe: Path, rounds: seq<Round>, outcomes: seq<Option<Outcome>>) {
      && |rounds| == |outcomes| && AllPossible(ActsOf(rounds), outcomes)
      && (SamePath(rounds, exe) && exe in before ==> Told(after, exe, before[exe], rounds, outcomes))
      && (SamePath(rounds, exe) && exe !in before ==> exe !in after && Some(Updated) !in outcomes)
      && (!autoApply ==> after == before)
    }

    /** The round moves the program to the backup and fails to put the new one in its place. */
    ghost predicate Breaks(round: Round) { Swaps(round) && round.world.setAsideOk && !round.world.installOk }

    ghost predicate BreaksThenDrops(rounds: seq<Round>, i: int, j: int) {
      0 <= i < j < |rounds| && Breaks(rounds[i]) && Swaps(rounds[j]) && rounds[j].world.removeBackupOk
    }

    /**
     * Exactly when the program is lost over a run that starts with it: it is
     * missing iff some round set it aside without installing the new one, and
     * its backup is missing too iff a later round, verified like the first,
     * could drop that. Otherwise the last one installed is there.
     */
    lemma ProgramLostIff(before: Files, after: Files, exe: Path, rounds: seq<Round>, outcomes: seq<Option<Outcome>>)
      requires Ran(before, after, exe, rounds, outcomes) && SamePath(rounds, exe) && exe in before
      ensures exe !in after <==> exists i :: 0 <= i < |rounds| && Breaks(rounds[i])
      ensures exe !in after && BackupPath(exe) !in after <==> exists i, j :: BreaksThenDrops(rounds, i, j)
      ensures exe in after || BackupPath(exe) in after ==>
        after[if exe in after then exe else BackupPath(exe)] == LastProgram(before[exe], ActsOf(rounds))
    {
      var acts := ActsOf(rounds);
      assert forall k :: 0 <= k < |rounds| ==> acts[k] == ActOf(rounds[k]);
      BrokenIff(rounds);
      GoneIff(rounds);
      GoneIsBroken(acts);
    }

    lemma BrokenIff(rounds: seq<Round>)
      ensures Broken(ActsOf(rounds)) <==> exists i :: 0 <= i < |rounds| && Breaks(rounds[i])
    {
      var acts := ActsOf(rounds);
      if i :| 0 <= i < |acts| && acts[i].breaks {
        assert Breaks(rounds[i]);
      }
      if i :| 0 <= i < |rounds| && Breaks(rounds[i]) {
        assert acts[i].breaks;
      }
    }

    lemma GoneIff(rounds: seq<Round>)
      ensures Gone(ActsOf(rounds)) <==> exists i, j :: BreaksThenDrops(rounds, i, j)
    {
      var acts := ActsOf(rounds);
      if i, j :| 0 <= i < j < |acts| && acts[i].breaks && acts[j].drops {
        assert BreaksThenDrops(rounds, i, j);
      }
      if i, j :| BreaksThenDrops(rounds, i, j) {
        assert acts[i].breaks && acts[j].drops;
      }
    }

    /** Exactly when round `k` of such a run installs: it could, and no round before it has broken the program. */
    lemma UpdatedIff(before: Files, after: Files, exe: Path, rounds: seq<Round>, outcomes: seq<Option<Outcome>>, k: nat)
      requires Ran(before, after, exe, rounds, outcomes) && SamePath(rounds, exe) && exe in before && k < |rounds|
      ensures outcomes[k] == Some(Updated) <==>
        && Swaps(rounds[k]) && rounds[k].world.setAsideOk && rounds[k].world.installOk
        && forall i :: 0 <= i < k ==> !Breaks(rounds[i])
    {
      FitsAt(ActsOf(rounds), outcomes, k);
      assert ActsOf(rounds)[..k] == ActsOf(rounds[..k]);
      BrokenIff(rounds[..k]);
      assert forall i :: 0 <= i < k ==> rounds[..k][i] == rounds[i];
    }

    lemma ToldSnoc(before: Files, after: Files, exe: Path, original: Bytes, rounds: seq<Round>,
                   outcomes: seq<Option<Outcome>>, round: Round, outcome: Option<Outcome>)
      requires Told(before, exe, original, rounds, outcomes)
      requires Fits(ActOf(round), exe in before, outcome) && Effect(ActOf(round), exe, before, after)
      ensures Told(after, exe, original, rounds + [round], outcomes + [outcome])
    {
      ActsSnoc(rounds, round);
      FateSnoc(before, after, exe, original, ActsOf(rounds), ActOf(round));
      AllFitSnoc(ActsOf(rounds), outcomes, ActOf(round), outcome);
    }

    lemma ActsSnoc(rounds: seq<Round>, round: Round)
      ensures ActsOf(rounds + [round]) == ActsOf(rounds) + [ActOf(round)]
    {
    }

    lemma RanSnoc(before: Files, mid: Files, after: Files, exe: Path, rounds: seq<Round>,
                  outcomes: seq<Option<Outcome>>, round: Round, outcome: Option<Outcome>)
      requires Ran(before, mid, exe, rounds, outcomes)
      requires Fits(ActOf(round), round.exe in mid, outcome) && Effect(ActOf(round), round.exe, mid, after)
      requires outcome.None? ==> after == mid
      ensures Ran(before, after, exe, rounds + [round], outcomes + [outcome])
    {
      var longer := rounds + [round];
      ActsSnoc(rounds, round);
      AllPossibleSnoc(ActsOf(rounds), outcomes, ActOf(round), outcome);
      if SamePath(longer, exe) {
        assert longer[|rounds|] == round && forall k :: 0 <= k < |rounds| ==> rounds[k] == longer[k];
        if exe in before {
          ToldSnoc(mid, after, exe, before[exe], rounds, outcomes, round, outcome);
        }
      }
    }
  }

  /** All rounds look for the program at the same path. */
  ghost predicate SamePath(rounds: seq<Round>, exe: Path) {
    forall k :: 0 <= k < |rounds| ==> rounds[k].exe == exe
  }

  /** One round: check, and apply what is offered if that is allowed. */
  method RunRound(disk: Disk, s: Setup, round: Round) returns (outcome: Option<Outcome>)
    requires disk.Valid()
    modifies disk
    ensures disk.Valid() && old(disk.history) <= disk.history
    ensures Fits(s.ActOf(round), round.exe in old(disk.files), outcome)
    ensures Effect(s.ActOf(round), round.exe, old(disk.files), disk.files)
    ensures outcome.None? ==> disk.files == old(disk.files) && disk.history == old(disk.history)
  {
    var offer := Offered(s.start, round.answer);
    if offer.None? || !s.autoApply {
      return None;
    }
    PathsDistinct(round.exe);
    var r := Apply(disk, round.exe, offer.value.sha256, s.sha, round.world);
    return Some(r);
  }

  /**
   * The loop for as many rounds as are given, or up to a panic. `Ran` says
   * what the outcomes are and where the program ends up.
   */
  method BackgroundCheck(disk: Disk, s: Setup, rounds: seq<Round>, ghost exe: Path)
    returns (outcomes: seq<Option<Outcome>>)
    requires disk.Valid()
    modifies disk
    ensures disk.Valid() && old(disk.history) <= disk.history
    ensures |outcomes| <= |rounds| && s.Ran(old(disk.files), disk.files, exe, rounds[..|outcomes|], outcomes)
    ensures |outcomes| < |rounds| ==> outcomes != [] && outcomes[|outcomes| - 1] == Some(Panicked)
    ensures forall k :: 0 <= k < |outcomes| - 1 ==> outcomes[k] != Some(Panicked)
    ensures !s.autoApply ==> disk.history == old(disk.history)
  {
    outcomes := [];
    for i := 0 to |rounds|
      invariant disk.Valid() && old(disk.history) <= disk.history
      invariant |outcomes| == i && Some(Panicked) !in outcomes
      invariant s.Ran(old(disk.files), disk.files, exe, rounds[..i], outcomes)
      invariant !s.autoApply ==> disk.history == old(disk.history)
    {
      ghost var before := disk.files;
      var outcome := RunRound(disk, s, rounds[i]);
      s.RanSnoc(old(disk.files), before, disk.files, exe, rounds[..i], outcomes, rounds[i], outcome);
      assert rounds[..i + 1] == rounds[..i] + [rounds[i]];
      outcomes := outcomes + [outcome];
      if outcome == Some(Panicked) {
        return;
      }
    }
  }

  // ----------------------------------------------------- versions over a run

  /** Every installed release is newer than the version the loop was started with. */
  lemma {:induction false} InstallsAreNewer(start: string, autoApply: bool, turns: seq<Turn>, k: nat)
    requires k < |Installs(start, autoApply, turns)|
    ensures autoApply && VersionIsNewer(start, Installs(start, autoApply, turns)[k].version).Greater?
  {
    var before := Installs(start, autoApply, turns[..|turns| - 1]);
    if k < |before| {
      InstallsAreNewer(start, autoApply, turns[..|turns| - 1], k);
    }
  }

  function CountApplied(turns: seq<Turn>): nat {
    if turns == [] then 0 else CountApplied(turns[..|turns| - 1]) + if turns[|turns| - 1].applied then 1 else 0
  }

  /**
   * A source that keeps answering the same release has it downloaded and
   * applied again in every round, however often that has already worked.
   */
  lemma {:induction false} ConstantSourceReinstalls(start: string, r: Release, turns: seq<Turn>)
    requires forall k :: 0 <= k < |turns| ==> turns[k].answer == Ok(Some(r))
    ensures VersionIsNewer(start, r.version).Greater? ==>
      && (forall k :: 0 <= k < |turns| ==> Offered(start, turns[k].answer) == Some(r))
      && Installs(start, true, turns) == seq(CountApplied(turns), _ => r)
    ensures !VersionIsNewer(start, r.version).Greater? ==> Installs(start, true, turns) == []
  {
    if turns != [] {
      ConstantSourceReinstalls(start, r, turns[..|turns| - 1]);
    }
  }

  /**
   * On the disk: if the world lets every round work, a release that stays the
   * latest is downloaded, verified and installed over itself in every round.
   */
  method ConstantSourceOnDisk(disk: Disk, s: Setup, r: Release, rounds: seq<Round>, exe: Path)
    returns (outcomes: seq<Option<Outcome>>)
    requires disk.Valid() && exe in disk.files && SamePath(rounds, exe)
    requires s.autoApply && VersionIsNewer(s.start, r.version).Greater?
    requires forall k :: 0 <= k < |rounds| ==> rounds[k].answer == Ok(Some(r)) && WorldWorks(rounds[k].world, s.sha, r)
    modifies disk
    ensures |outcomes| == |rounds| && forall k :: 0 <= k < |rounds| ==> outcomes[k] == Some(Updated)
    ensures s.InstalledBy(rounds, outcomes) == seq(|rounds|, _ => r)
    ensures disk.Valid()
    ensures Lookup(disk.files, exe) ==
            Some(if rounds == [] then old(disk.files)[exe] else Concat(rounds[|rounds| - 1].world.chunks))
  {
    outcomes := BackgroundCheck(disk, s, rounds, exe);
    ghost var acts := s.ActsOf(rounds[..|outcomes|]);
    assert forall k :: 0 <= k < |acts| ==> acts[k] == s.ActOf(rounds[k]);
    AllWork(old(disk.files)[exe], acts, outcomes);
    assert rounds[..|rounds|] == rounds;
    ConstantSourceReinstalls(s.start, r, TurnsOf(rounds, outcomes));
    AllApplied(TurnsOf(rounds, outcomes));
  }

  lemma {:induction false} AllWork(original: Bytes, acts: seq<Act>, outcomes: seq<Option<Outcome>>)
    requires AllFit(acts, outcomes) && forall k :: 0 <= k < |acts| ==> acts[k].works && !acts[k].breaks
    ensures !Broken(acts) && forall k :: 0 <= k < |acts| ==> outcomes[k] == Some(Updated)
    ensures LastProgram(original, acts) == if acts == [] then original else acts[|acts| - 1].content
  {
    if acts != [] {
      AllWork(original, acts[..|acts| - 1], outcomes[..|acts| - 1]);
    }
  }

  /** Nothing goes wrong with the release: it downloads, matches its digest, and both renames work. */
  ghost predicate WorldWorks(w: World, sha: Bytes -> Digest256, r: Release) {
    Verified(w, sha, r.sha256) && w.setAsideOk && w.installOk
  }

  lemma {:induction false} AllApplied(turns: seq<Turn>)
    requires forall k :: 0 <= k < |turns| ==> turns[k].applied
    ensures CountApplied(turns) == |turns|
  {
    if turns != [] {
      AllApplied(turns[..|turns| - 1]);
    }
  }

  /** The version that is installed after these releases. */
  function Current(start: string, installs: seq<Release>): string {
    if installs == [] then start else installs[|installs| - 1].version
  }

  /** Every release is newer than what was installed before it. */
  ghost predicate Increasing(start: string, installs: seq<Release>) {
    forall k :: 0 <= k < |installs| ==> VersionIsNewer(Current(start, installs[..k]), installs[k].version).Greater?
  }

  lemma IncreasingSnoc(start: string, installs: seq<Release>, r: Release)
    ensures Increasing(start, installs + [r])
            <==> Increasing(start, installs) && VersionIsNewer(Current(start, installs), r.version).Greater?
  {
    var longer := installs + [r];
    assert forall k :: 0 <= k <= |installs| ==> longer[..k] == installs[..k];
    assert installs[..|installs|] == installs;
    assert longer[|installs|] == r;
  }

  /**
   * One more round breaks the order exactly when its answer is newer than the
   * version at the start but not newer than the one that is installed.
   */
  lemma StepsBackIff(start: string, turns: seq<Turn>, turn: Turn)
    requires Increasing(start, Installs(start, true, turns))
    ensures
      !Increasing(start, Installs(start, true, turns + [turn]))
      <==>
      && turn.applied && turn.answer.Ok? && turn.answer.value.Some?
      && VersionIsNewer(start, turn.answer.value.value.version).Greater?
      && !VersionIsNewer(Current(start, Installs(start, true, turns)), turn.answer.value.value.version).Greater?
  {
    assert (turns + [turn])[..|turns|] == turns;
    if Offered(start, turn.answer).Some? {
      IncreasingSnoc(start, Installs(start, true, turns), Offered(start, turn.answer).value);
    }
  }

  /** The installs of a loop that would remember what it has installed. */
  function TrackedInstalls(start: string, turns: seq<Turn>): seq<Release> {
    if turns == [] then []
    else
      var before, last := TrackedInstalls(start, turns[..|turns| - 1]), turns[|turns| - 1];
      match Offered(Current(start, before), last.answer)
      case Some(r) => if last.applied then before + [r] else before
      case None => before
  }

  lemma {:induction false} TrackedIncrease(start: string, turns: seq<Turn>)
    ensures Increasing(start, TrackedInstalls(start, turns))
  {
    if turns != [] {
      var before := TrackedInstalls(start, turns[..|turns| - 1]);
      TrackedIncrease(start, turns[..|turns| - 1]);
      if Offered(Current(start, before), turns[|turns| - 1].answer).Some? {
        IncreasingSnoc(start, before, Offered(Current(start, before), turns[|turns| - 1].answer).value);
      }
    }
  }

  lemma {:induction false} CurrentNotOlder(start: string, turns: seq<Turn>)
    requires Increasing(start, Installs(start, true, turns))
    ensures
      var installs := Installs(start, true, turns);
      installs == [] || VersionIsNewer(start, Current(start, installs)).Greater?
  {
    var installs := Installs(start, true, turns);
    if installs != [] {
      InstallsAreNewer(start, true, turns, |installs| - 1);
    }
  }

  /**
   * Versions go up over a run exactly when forgetting them makes no difference:
   * when a loop that remembers what it has installed would do the same.
   */
  lemma {:induction false} IncreasingIffTracked(start: string, turns: seq<Turn>)
    ensures Increasing(start, Installs(start, true, turns)) <==> Installs(start, true, turns) == TrackedInstalls(start, turns)
  {
    TrackedIncrease(start, turns);
    if turns != [] && Increasing(start, Installs(start, true, turns)) {
      var n := |turns| - 1;
      var before := Installs(start, true, turns[..n]);
      var offer := Offered(start, turns[n].answer);
      if offer.Some? {
        IncreasingSnoc(start, before, offer.value);
      }
      IncreasingIffTracked(start, turns[..n]);
      CurrentNotOlder(start, turns[..n]);
      if turns[n].answer.Ok? && turns[n].answer.value.Some? {
        var v := turns[n].answer.value.value.version;
        NewerIsStrictOrder(start, Current(start, before), v);
      }
    }
  }

  lemma TwoInstalls(start: string, first: Release, second: Release)
    requires VersionIsNewer(start, first.version).Greater? && VersionIsNewer(start, second.version).Greater?
    ensures Installs(start, true, [Turn(Ok(Some(first)), true)] + [Turn(Ok(Some(second)), true)]) == [first, second]
  {
    var one, two := [Turn(Ok(Some(first)), true)], [Turn(Ok(Some(second)), true)];
    InstallsOneMore(start, [], first);
    InstallsOneMore(start, one, second);
    assert [] + one == one && [] + [first] + [second] == [first, second];
  }

  lemma InstallsOneMore(start: string, turns: seq<Turn>, r: Release)
    requires VersionIsNewer(start, r.version).Greater?
    ensures Installs(start, true, turns + [Turn(Ok(Some(r)), true)]) == Installs(start, true, turns) + [r]
  {
    assert (turns + [Turn(Ok(Some(r)), true)])[..|turns|] == turns;
  }

  lemma IncreasingPair(start: string, first: Release, second: Release)
    ensures Increasing(start, [first, second]) ==> VersionIsNewer(first.version, second.version).Greater?
  {
    assert [first, second] == [first] + [second];
    IncreasingSnoc(start, [first], second);
  }

  /** It does make a difference: from 1.0 the loop installs 3.0 and then 2.0. */
  lemma MayStepBack(first: Release, second: Release)
    requires first.version == Dotted([3, 0]) && second.version == Dotted([2, 0])
    ensures
      var turns := [Turn(Ok(Some(first)), true)] + [Turn(Ok(Some(second)), true)];
      Installs(Dotted([1, 0]), true, turns) == [first, second] && !Increasing(Dotted([1, 0]), [first, second])
  {
    NewerByMajor(1, 3);
    NewerByMajor(1, 2);
    NewerByMajor(2, 3);
    NewerIsStrictOrder(Dotted([2, 0]), Dotted([3, 0]), "");
    TwoInstalls(Dotted([1, 0]), first, second);
    IncreasingPair(Dotted([1, 0]), first, second);
  }

  lemma NewerByMajor(a: nat, b: nat)
    requires a < b <= U64_MAX
    ensures VersionIsNewer(Dotted([a, 0]), Dotted([b, 0])).Greater?
  {
    NewerOnDotted([a, 0], [b, 0]);
    assert DiffersAt([a, 0], [b, 0], 0);
  }
}
