/**
 * The per-patient loop of autosegment.py (autosegment.py:83-277) over the state it carries from
 * one patient to the next: `tissue_class_model`, `abnormality_model` and `revised_filenames`
 * (set only when a branch of the chain fires) and `INPUT_FOLDER` (set only after staging).
 * Copies, commands and folder removals are recorded in logs instead of being performed.
 */
module Pipeline {
  import opened Wrappers
  import opened Strings
  import opened MriSequences
  import opened Catalogue
  import opened Discovery
  import opened Staging

  /** What became of one patient. */
  datatype Outcome =
    | NoImaging                          // no usable file: the warning branch
    | Inferred(command: Option<string>)  // staged; the command run, if the mode names one
    | Crashed(crash: Crash)              // an uncaught exception: the run ends here

  /**
   * What one patient hands on to the next: the branch whose assignments the three model
   * variables hold (they are unbound while `selected` is `None`), `INPUT_FOLDER`, and the
   * effects so far.
   */
  datatype Carried = Carried(
    selected: Option<nat>, inputFolder: Option<string>,
    copies: seq<Copy>, commands: seq<string>, removals: seq<string>)

  /** The state after one patient, and what became of that patient. */
  datatype Turn = Turn(after: Carried, outcome: Outcome)

  /** The state after a run of patients, and one outcome per patient processed. */
  datatype Trace = Trace(after: Carried, outcomes: seq<Outcome>)

  /** The carried branch, if any, is a branch of the chain. */
  predicate Bound(st: Carried) {
    st.selected.Some? ==> st.selected.value < |Chain()|
  }

  /** The remap `revised_filenames` holds in state `st`: unbound until a branch has fired. */
  function RemapOf(st: Carried): Option<map<string, string>> {
    if st.selected.Some? && st.selected.value < |Chain()| then
      Some(Chain()[st.selected.value].revisedFilenames)
    else
      None
  }

  /** The command lines a launch records: the one `--mode` selects, if any. */
  function Launched(command: Option<string>): seq<string> {
    if command.Some? then [command.value] else []
  }

  /**
   * The end of an iteration (autosegment.py:270-277): unless `--nocleanup`, `INPUT_FOLDER` is
   * removed, or a NameError is raised while it is still unbound.
   */
  function Finish(nocleanup: bool, st: Carried, outcome: Outcome): (t: Turn)
    ensures t.after.selected == st.selected && t.after.inputFolder == st.inputFolder
    ensures t.after.copies == st.copies && t.after.commands == st.commands
    ensures t.outcome.Crashed? <==> outcome.Crashed? || (!nocleanup && st.inputFolder.None?)
    ensures |t.after.removals| == |st.removals| + (if nocleanup || st.inputFolder.None? then 0 else 1)
  {
    if nocleanup then Turn(st, outcome)
    else if st.inputFolder.None? then Turn(st, Crashed(NameError("INPUT_FOLDER")))
    else Turn(st.(removals := st.removals + [st.inputFolder.value]), outcome)
  }

  /** The chain's effect on the carried state: the branch that fires, or the old one. */
  function Chosen(st: Carried, available: seq<string>): (r: Carried)
    ensures r.selected == (if Lookup(available).Some? then Lookup(available) else st.selected)
    ensures r.(selected := st.selected) == st
  {
    st.(selected := if Lookup(available).Some? then Lookup(available) else st.selected)
  }

  /**
   * After staging (autosegment.py:248-265): `INPUT_FOLDER` is bound from the last staged path,
   * and the command `--mode` selects for the carried branch is recorded.
   */
  function LaunchTurn(mode: string, st: Carried, last: string, pid: string): (t: Turn)
    requires Bound(st) && st.selected.Some?
    ensures t.outcome.Inferred? && t.after.inputFolder.Some?
    ensures t.after.(inputFolder := st.inputFolder, commands := st.commands) == st
  {
    var i := st.selected.value;
    var command := CommandFor(mode, InputFolder(last, pid), OutputFolder(last, pid),
                              TissueModel(i), AbnormalityModel(i));
    Turn(st.(inputFolder := Some(InputFolder(last, pid)), commands := st.commands + Launched(command)),
         Inferred(command))
  }

  /**
   * Staging (autosegment.py:242-265) under the remap the carried branch gives: the copies of
   * `CopyPlan`, then the crash it raises or the launch.
   */
  function StageTurn(mode: string, st: Carried, pid: string, usable: seq<string>): (t: Turn)
    requires usable != []
    ensures t.after.selected == st.selected && t.after.removals == st.removals
    ensures t.outcome.Crashed? <==> CopyPlan(usable, pid, RemapOf(st)).failure.Some?
  {
    var plan := CopyPlan(usable, pid, RemapOf(st));
    var staged := st.(copies := st.copies + plan.copies);
    if plan.failure.Some? then
      Turn(staged, Crashed(plan.failure.value))
    else
      CopyPlanFailure(usable, pid, RemapOf(st));
      LaunchTurn(mode, staged, usable[|usable| - 1], pid)
  }

  /**
   * One iteration once discovery has produced the usable files: the chain (which keeps the old
   * branch when nothing matches), staging under the resulting remap, the command for `--mode`,
   * and the cleanup, which an exception during staging skips.
   */
  function StepOn(mode: string, nocleanup: bool, st: Carried, pid: string, usable: seq<string>): Turn {
    if usable == [] then
      Finish(nocleanup, st, NoImaging)
    else
      var t := StageTurn(mode, Chosen(st, Available(usable)), pid, usable);
      if t.outcome.Crashed? then t else Finish(nocleanup, t.after, t.outcome)
  }

  /**
   * One iteration of the per-patient loop (autosegment.py:83-277) as a function of the state
   * the previous iterations left: discovery in the patient's directory, then `StepOn`.
   */
  function Step(inpath: string, mode: string, nocleanup: bool, st: Carried, pid: string, entries: seq<string>)
    : Turn
  {
    StepOn(mode, nocleanup, st, pid, Usable(GlobPaths(PatientDir(inpath, pid), entries)))
  }

  /** `StepOn` for `--mode` and `--nocleanup`, as a step function. */
  function UsableStep(mode: string, nocleanup: bool): (Carried, string, seq<string>) -> Turn {
    (st, pid, usable) => StepOn(mode, nocleanup, st, pid, usable)
  }

  /** The usable files discovery finds for each patient, in order. */
  function Discovered(inpath: string, subs: seq<string>, listings: seq<seq<string>>): (r: seq<seq<string>>)
    requires |listings| == |subs|
    ensures |r| == |subs|
    decreases |subs|
  {
    if subs == [] then []
    else [Usable(GlobPaths(PatientDir(inpath, subs[0]), listings[0]))] + Discovered(inpath, subs[1..], listings[1..])
  }

  /** Entry `k` of `Discovered` is what discovery finds for patient `k`. */
  lemma {:induction false} DiscoveredAt(inpath: string, subs: seq<string>, listings: seq<seq<string>>, k: nat)
    requires |listings| == |subs| && k < |subs|
    ensures Discovered(inpath, subs, listings)[k] == Usable(GlobPaths(PatientDir(inpath, subs[k]), listings[k]))
    decreases k
  {
    if k > 0 {
      DiscoveredAt(inpath, subs[1..], listings[1..], k - 1);
    }
  }

  /**
   * A loop over the subject list with iteration `step`: one step per patient, in order, each
   * from the state the previous one left, ending after the first step that raised.
   */
  function Fold(step: (Carried, string, seq<string>) -> Turn, st: Carried,
                subs: seq<string>, listings: seq<seq<string>>): (r: Trace)
    requires |listings| == |subs|
    ensures |r.outcomes| <= |subs|
    decreases |subs|
  {
    if subs == [] then Trace(st, [])
    else
      var t := step(st, subs[0], listings[0]);
      if t.outcome.Crashed? then Trace(t.after, [t.outcome])
      else
        var rest := Fold(step, t.after, subs[1..], listings[1..]);
        Trace(rest.after, [t.outcome] + rest.outcomes)
  }

  /**
   * The loop of autosegment.py:83-277 over the subject list: discovery for each patient, and
   * `StepOn` folded over the patients.
   */
  function Run(inpath: string, mode: string, nocleanup: bool, st: Carried,
               subs: seq<string>, listings: seq<seq<string>>): (r: Trace)
    requires |listings| == |subs|
  {
    Fold(UsableStep(mode, nocleanup), st, subs, Discovered(inpath, subs, listings))
  }

  /**
   * The run is the first patient's `Step` from the initial state, then, unless it raised, the
   * run over the other patients from the state it left.
   */
  lemma RunUnfolds(inpath: string, mode: string, nocleanup: bool, st: Carried,
                   subs: seq<string>, listings: seq<seq<string>>)
    requires |listings| == |subs| && subs != []
    ensures var t := Step(inpath, mode, nocleanup, st, subs[0], listings[0]);
      Run(inpath, mode, nocleanup, st, subs, listings) ==
        if t.outcome.Crashed? then Trace(t.after, [t.outcome])
        else
          var rest := Run(inpath, mode, nocleanup, t.after, subs[1..], listings[1..]);
          Trace(rest.after, [t.outcome] + rest.outcomes)
  {
    var usables := Discovered(inpath, subs, listings);
    assert usables[1..] == Discovered(inpath, subs[1..], listings[1..]);
  }

  lemma AppendAssociative<T>(a: seq<T>, b: seq<T>, c: seq<T>)
    ensures a + (b + c) == (a + b) + c
  {
  }

  /** A fold resumed after the outcomes `done`: `done`, then the fold over the rest. */
  function Resume(step: (Carried, string, seq<string>) -> Turn, st: Carried, done: seq<Outcome>,
                  subs: seq<string>, listings: seq<seq<string>>): Trace
    requires |listings| == |subs|
  {
    var rest := Fold(step, st, subs, listings);
    Trace(rest.after, done + rest.outcomes)
  }

  /** Resuming at patient `k`: that patient's step, then the rest unless it raised. */
  lemma ResumeStep(step: (Carried, string, seq<string>) -> Turn, st: Carried, done: seq<Outcome>,
                   subs: seq<string>, listings: seq<seq<string>>, k: nat)
    requires |listings| == |subs| && k < |subs|
    ensures var t := step(st, subs[k], listings[k]);
      Resume(step, st, done, subs[k..], listings[k..]) ==
        if t.outcome.Crashed? then Trace(t.after, done + [t.outcome])
        else Resume(step, t.after, done + [t.outcome], subs[k + 1..], listings[k + 1..])
  {
    assert subs[k..][0] == subs[k] && subs[k..][1..] == subs[k + 1..];
    assert listings[k..][0] == listings[k] && listings[k..][1..] == listings[k + 1..];
    var t := step(st, subs[k], listings[k]);
    if !t.outcome.Crashed? {
      var rest := Fold(step, t.after, subs[k + 1..], listings[k + 1..]);
      AppendAssociative(done, [t.outcome], rest.outcomes);
    }
  }

  /** Resuming with nothing done at the first patient is the whole fold. */
  lemma ResumeWhole(step: (Carried, string, seq<string>) -> Turn, st: Carried,
                    subs: seq<string>, listings: seq<seq<string>>)
    requires |listings| == |subs|
    ensures Resume(step, st, [], subs[0..], listings[0..]) == Fold(step, st, subs, listings)
  {
    assert subs[0..] == subs && listings[0..] == listings;
    assert [] + Fold(step, st, subs, listings).outcomes == Fold(step, st, subs, listings).outcomes;
  }

  /**
   * The outcomes of a run over `n` patients that ends at the first crash: no outcome but the
   * last is a crash, and a run that stops before the `n`-th patient stops on a crash.
   */
  predicate StopsAtCrash(outcomes: seq<Outcome>, n: nat) {
    && (forall k :: 0 <= k < |outcomes| - 1 ==> !outcomes[k].Crashed?)
    && (|outcomes| < n ==> outcomes != [] && outcomes[|outcomes| - 1].Crashed?)
  }

  /** A fold ends at the first step that raised, whatever the step. */
  lemma {:induction false} FoldStopsAtCrash(step: (Carried, string, seq<string>) -> Turn, st: Carried,
                                            subs: seq<string>, listings: seq<seq<string>>)
    requires |listings| == |subs|
    ensures StopsAtCrash(Fold(step, st, subs, listings).outcomes, |subs|)
    decreases |subs|
  {
    if subs != [] {
      var t := step(st, subs[0], listings[0]);
      if !t.outcome.Crashed? {
        FoldStopsAtCrash(step, t.after, subs[1..], listings[1..]);
      }
    }
  }

  /**
   * An iteration, whatever discovery found, only adds copies, command lines and removals, and
   * keeps the carried branch a branch of the chain.
   */
  lemma StepAccumulates(mode: string, nocleanup: bool, st: Carried, pid: string, usable: seq<string>)
    requires Bound(st)
    ensures var t := StepOn(mode, nocleanup, st, pid, usable);
      && Bound(t.after)
      && st.copies <= t.after.copies && st.commands <= t.after.commands
      && st.removals <= t.after.removals
  {
  }

  /**
   * A first patient without usable imaging ends the run when nothing has bound `INPUT_FOLDER`
   * yet: the cleanup raises a NameError.
   */
  lemma FirstPatientWithoutImaging(inpath: string, mode: string, st: Carried,
                                   subs: seq<string>, listings: seq<seq<string>>)
    requires |listings| == |subs| && subs != []
    requires st.inputFolder.None?
    requires Usable(GlobPaths(PatientDir(inpath, subs[0]), listings[0])) == []
    ensures Run(inpath, mode, false, st, subs, listings).outcomes == [Crashed(NameError("INPUT_FOLDER"))]
  {
  }

  class Autosegment {
    /** `--path`, `--mode` and `--nocleanup`. */
    const inpath: string
    const mode: string
    const nocleanup: bool

    /** The script's module-level variables; `None` while still unbound. */
    var tissueClassModel: Option<string>
    var abnormalityModel: Option<string>
    var revisedFilenames: Option<map<string, string>>
    var inputFolder: Option<string>

    /** The effects the script has had so far. */
    var copies: seq<Copy>
    var commands: seq<string>
    var removals: seq<string>

    /** The index of the branch whose assignments the three variables hold. */
    ghost var selected: Option<nat>

    /** The three variables are either all unbound or all hold the values of one branch. */
    ghost predicate Valid()
      reads this`selected, this`tissueClassModel, this`abnormalityModel, this`revisedFilenames
    {
      match selected
      case None =>
        tissueClassModel.None? && abnormalityModel.None? && revisedFilenames.None?
      case Some(i) =>
        && i < |Chain()|
        && tissueClassModel == Some(TissueModel(i))
        && abnormalityModel == Some(AbnormalityModel(i))
        && revisedFilenames == Some(Chain()[i].revisedFilenames)
    }

    /** The state the next patient inherits. */
    ghost function Snapshot(): Carried
      reads this`selected, this`inputFolder, this`copies, this`commands, this`removals
    {
      Carried(selected, inputFolder, copies, commands, removals)
    }

    constructor(inpath: string, mode: string, nocleanup: bool)
      ensures Valid()
      ensures this.inpath == inpath && this.mode == mode && this.nocleanup == nocleanup
      ensures selected.None? && inputFolder.None?
      ensures copies == [] && commands == [] && removals == []
    {
      this.inpath := inpath;
      this.mode := mode;
      this.nocleanup := nocleanup;
      tissueClassModel, abnormalityModel, revisedFilenames := None, None, None;
      inputFolder := None;
      copies, commands, removals := [], [], [];
      selected := None;
    }

    /**
     * The chain of fifteen independent `if` statements (autosegment.py:127-239), each of which
     * assigns the three variables when it fires. It ends holding the branch `Lookup` selects,
     * and leaves the variables as they were when no branch fires.
     */
    method ResolveModels(available: seq<string>)
      requires Valid()
      modifies this`tissueClassModel, this`abnormalityModel, this`revisedFilenames, this`selected
      ensures Valid()
      ensures selected == (if Lookup(available).Some? then Lookup(available) else old(selected))
      ensures Lookup(available).None? ==>
        && tissueClassModel == old(tissueClassModel) && abnormalityModel == old(abnormalityModel)
        && revisedFilenames == old(revisedFilenames)
    {
      for k := 0 to |Chain()|
        invariant Valid()
        invariant selected == (if LastFiring(available, k).Some? then LastFiring(available, k) else old(selected))
      {
        var branch := Chain()[k];
        if Fires(branch, available) {
          tissueClassModel := Some(TissueModel(k));
          abnormalityModel := Some(AbnormalityModel(k));
          revisedFilenames := Some(branch.revisedFilenames);
          selected := Some(k);
        }
      }
      LastFiringIsLookup(available, |Chain()|);
    }

    /**
     * The staging loop (autosegment.py:242-246): copies each usable file in turn, and stops at
     * the first exception. It performs exactly the copies of `CopyPlan`.
     */
    method StageFiles(paths: seq<string>, pid: string) returns (failure: Option<Crash>)
      modifies this`copies
      ensures copies == old(copies) + CopyPlan(paths, pid, revisedFilenames).copies
      ensures failure == CopyPlan(paths, pid, revisedFilenames).failure
    {
      ghost var done: seq<Copy> := [];
      var i := 0;
      assert paths[0..] == paths;
      while i < |paths|
        invariant 0 <= i <= |paths|
        invariant copies == old(copies) + done
        invariant CopyPlan(paths, pid, revisedFilenames).copies
          == done + CopyPlan(paths[i..], pid, revisedFilenames).copies
        invariant CopyPlan(paths, pid, revisedFilenames).failure
          == CopyPlan(paths[i..], pid, revisedFilenames).failure
      {
        var row := Split(paths[i]);
        var rawName := Join(row);
        var name := row[|row| - 1];
        assert name == LastComponent(paths[i]);
        JoinSplit(paths[i]);
        PlanStep(paths, i, pid, revisedFilenames);
        if revisedFilenames.None? {
          assert done + [] == done;
          return Some(NameError("revised_filenames"));
        }
        if name !in revisedFilenames.value {
          assert done + [] == done;
          return Some(KeyError(name));
        }
        var copy := Copy(rawName, Destination(paths[i], pid, revisedFilenames.value[name]));
        ghost var rest := CopyPlan(paths[i + 1..], pid, revisedFilenames).copies;
        assert done + ([copy] + rest) == (done + [copy]) + rest;
        assert old(copies) + done + [copy] == old(copies) + (done + [copy]);
        copies := copies + [copy];
        done := done + [copy];
        i := i + 1;
      }
      assert paths[i..] == [];
      return None;
    }

    /**
     * The body of the per-patient loop once some file is usable (autosegment.py:116-265): the
     * chain, staging, and the command for `--mode`. The staging uses the remap the chain has
     * just left in place, which is an earlier patient's when nothing matched.
     */
    method Infer(usable: seq<string>, pid: string) returns (outcome: Outcome)
      requires Valid() && usable != []
      modifies this`tissueClassModel, this`abnormalityModel, this`revisedFilenames, this`selected
      modifies this`copies, this`inputFolder, this`commands
      ensures Valid()
      ensures Turn(Snapshot(), outcome) == StageTurn(mode, Chosen(old(Snapshot()), Available(usable)), pid, usable)
      ensures selected == (if Lookup(Available(usable)).Some? then Lookup(Available(usable)) else old(selected))
      ensures copies == old(copies) + CopyPlan(usable, pid, revisedFilenames).copies
      ensures outcome.Inferred? ==> inputFolder.Some?
      ensures CopyPlan(usable, pid, revisedFilenames).failure.Some? ==>
        && outcome == Crashed(CopyPlan(usable, pid, revisedFilenames).failure.value)
        && inputFolder == old(inputFolder) && commands == old(commands)
      ensures CopyPlan(usable, pid, revisedFilenames).failure.None? ==>
        var last := usable[|usable| - 1];
        && selected.Some?
        && inputFolder == Some(InputFolder(last, pid))
        && outcome == Inferred(CommandFor(mode, InputFolder(last, pid), OutputFolder(last, pid),
                                          TissueModel(selected.value), AbnormalityModel(selected.value)))
        && commands == old(commands) + (if outcome.command.Some? then [outcome.command.value] else [])
    {
      ResolveModels(Available(usable));
      assert Snapshot() == Chosen(old(Snapshot()), Available(usable));
      outcome := StageAndLaunch(usable, pid);
    }

    /**
     * Staging followed, when it succeeds, by the command (autosegment.py:242-265), under the
     * variables the chain has left in place.
     */
    method StageAndLaunch(usable: seq<string>, pid: string) returns (outcome: Outcome)
      requires Valid() && usable != []
      modifies this`copies, this`inputFolder, this`commands
      ensures Turn(Snapshot(), outcome) == StageTurn(mode, old(Snapshot()), pid, usable)
      ensures copies == old(copies) + CopyPlan(usable, pid, revisedFilenames).copies
      ensures CopyPlan(usable, pid, revisedFilenames).failure.Some? ==>
        && outcome == Crashed(CopyPlan(usable, pid, revisedFilenames).failure.value)
        && inputFolder == old(inputFolder) && commands == old(commands)
      ensures CopyPlan(usable, pid, revisedFilenames).failure.None? ==>
        var last := usable[|usable| - 1];
        && selected.Some?
        && inputFolder == Some(InputFolder(last, pid))
        && outcome == Inferred(CommandFor(mode, InputFolder(last, pid), OutputFolder(last, pid),
                                          TissueModel(selected.value), AbnormalityModel(selected.value)))
        && commands == old(commands) + (if outcome.command.Some? then [outcome.command.value] else [])
    {
      assert RemapOf(Snapshot()) == revisedFilenames;
      var failure := StageFiles(usable, pid);
      if failure.Some? {
        return Crashed(failure.value);
      }
      assert revisedFilenames.Some?;
      outcome := Launch(usable[|usable| - 1], pid);
    }

    /**
     * After staging (autosegment.py:248-265): `INPUT_FOLDER` and `OUTPUT_FOLDER` are derived from
     * the last staged path, and the command for `--mode` is run with the selected identifiers.
     */
    method Launch(last: string, pid: string) returns (outcome: Outcome)
      requires Valid() && selected.Some?
      modifies this`inputFolder, this`commands
      ensures Turn(Snapshot(), outcome) == LaunchTurn(mode, old(Snapshot()), last, pid)
      ensures inputFolder == Some(InputFolder(last, pid))
      ensures outcome == Inferred(CommandFor(mode, InputFolder(last, pid), OutputFolder(last, pid),
                                             TissueModel(selected.value), AbnormalityModel(selected.value)))
      ensures commands == old(commands) + (if outcome.command.Some? then [outcome.command.value] else [])
    {
      inputFolder := Some(InputFolder(last, pid));
      var output := OutputFolder(last, pid);
      var command := CommandFor(mode, inputFolder.value, output, tissueClassModel.value, abnormalityModel.value);
      if command.Some? {
        commands := commands + [command.value];
      }
      outcome := Inferred(command);
    }

    /**
     * One iteration of the per-patient loop (autosegment.py:83-277): discovery, then `Infer`
     * when some file is usable, then the cleanup that `--nocleanup` disables. `entries` are the
     * names of the patient directory's entries that `*gz` matches, in the order `glob` reports
     * them.
     */
    method ProcessPatient(pid: string, entries: seq<string>) returns (outcome: Outcome)
      requires Valid()
      modifies this
      ensures Valid()
      ensures Turn(Snapshot(), outcome) == Step(inpath, mode, nocleanup, old(Snapshot()), pid, entries)
    {
      var found := GlobPaths(PatientDir(inpath, pid), entries);
      var usable := Usable(found);
      if |usable| > 0 {
        outcome := Infer(usable, pid);
        if outcome.Crashed? {
          return;
        }
      } else {
        outcome := NoImaging;
      }
      var crash := Cleanup();
      if crash.Some? {
        outcome := Crashed(crash.value);
      }
    }

    /**
     * The cleanup at the end of each iteration (autosegment.py:270-277), unless `--nocleanup`:
     * `INPUT_FOLDER` is removed, and a NameError is raised while it is still unbound.
     */
    method Cleanup() returns (crash: Option<Crash>)
      modifies this`removals
      ensures Snapshot() == Finish(nocleanup, old(Snapshot()), NoImaging).after
      ensures crash == (if !nocleanup && inputFolder.None? then Some(NameError("INPUT_FOLDER")) else None)
      ensures removals == old(removals) + (if !nocleanup && inputFolder.Some? then [inputFolder.value] else [])
    {
      crash := None;
      if !nocleanup {
        if inputFolder.None? {
          return Some(NameError("INPUT_FOLDER"));
        }
        removals := removals + [inputFolder.value];
      }
    }

    /**
     * The per-patient loop over the subject list (autosegment.py:83). `listings[k]` stands for
     * what `glob` finds in the directory of `subs[k]`. The outcomes and the effects are those of
     * `Run`, one `Step` per patient from the state the previous patient left; the loop ends at
     * the first crash.
     */
    method ProcessAll(subs: seq<string>, listings: seq<seq<string>>) returns (outcomes: seq<Outcome>)
      requires Valid()
      requires |listings| == |subs|
      modifies this
      ensures Valid()
      ensures Trace(Snapshot(), outcomes) == Run(inpath, mode, nocleanup, old(Snapshot()), subs, listings)
      ensures |outcomes| <= |subs|
      ensures StopsAtCrash(outcomes, |subs|)
      ensures subs != [] && old(inputFolder).None? && !nocleanup
              && Usable(GlobPaths(PatientDir(inpath, subs[0]), listings[0])) == [] ==>
        outcomes == [Crashed(NameError("INPUT_FOLDER"))]
    {
      outcomes := [];
      var k := 0;
      ghost var start := Snapshot();
      ghost var step := UsableStep(mode, nocleanup);
      ghost var usables := Discovered(inpath, subs, listings);
      ghost var run := Fold(step, start, subs, usables);
      ResumeWhole(step, start, subs, usables);
      FoldStopsAtCrash(step, start, subs, usables);
      if subs != [] && start.inputFolder.None? && !nocleanup
         && Usable(GlobPaths(PatientDir(inpath, subs[0]), listings[0])) == [] {
        FirstPatientWithoutImaging(inpath, mode, start, subs, listings);
      }
      while k < |subs|
        invariant 0 <= k <= |subs| && |outcomes| == k
        invariant Valid()
        invariant run == Resume(step, Snapshot(), outcomes, subs[k..], usables[k..])
      {
        ghost var before := Snapshot();
        var outcome := ProcessPatient(subs[k], listings[k]);
        DiscoveredAt(inpath, subs, listings, k);
        assert step(before, subs[k], usables[k]) == Turn(Snapshot(), outcome);
        ResumeStep(step, before, outcomes, subs, usables, k);
        outcomes := outcomes + [outcome];
        if outcome.Crashed? {
          return;
        }
        k := k + 1;
      }
      assert subs[k..] == [] && outcomes + [] == outcomes;
    }
  }

  /**
   * A patient that gets past staging ran the models its own files select: with distinct
   * directory entries, staging under an earlier patient's remap (or none) fails whenever the
   * chain matched nothing.
   */
  lemma MatchedWhenStaged(inpath: string, pid: string, entries: seq<string>, remap: Option<map<string, string>>)
    requires Distinct(entries) && forall i :: 0 <= i < |entries| ==> '/' !in entries[i]
    requires remap.Some? ==> exists i :: 0 <= i < |Chain()| && remap.value == Chain()[i].revisedFilenames
    requires var usable := Usable(GlobPaths(PatientDir(inpath, pid), entries));
      usable != [] && CopyPlan(usable, pid, remap).failure.None?
    ensures Lookup(Available(Usable(GlobPaths(PatientDir(inpath, pid), entries)))).Some?
  {
    var usable := Usable(GlobPaths(PatientDir(inpath, pid), entries));
    UsableNamesDistinct(inpath, pid, entries);
    if Lookup(Available(usable)).None? {
      UnmatchedNeverStages(usable, pid, remap);
      assert false;
    }
  }

  /**
   * A patient without usable imaging (autosegment.py:116, 267-277) changes nothing but what the
   * cleanup does: it removes the folder an earlier patient left bound, or raises a NameError
   * when there is none.
   */
  lemma StepWithoutImaging(inpath: string, mode: string, nocleanup: bool, st: Carried,
                           pid: string, entries: seq<string>)
    requires Usable(GlobPaths(PatientDir(inpath, pid), entries)) == []
    ensures var t := Step(inpath, mode, nocleanup, st, pid, entries);
      && t.after.selected == st.selected && t.after.inputFolder == st.inputFolder
      && t.after.copies == st.copies && t.after.commands == st.commands
      && t.outcome == (if !nocleanup && st.inputFolder.None? then Crashed(NameError("INPUT_FOLDER")) else NoImaging)
      && t.after.removals == st.removals + (if !nocleanup && st.inputFolder.Some? then [st.inputFolder.value] else [])
  {
  }

  /**
   * A patient with usable imaging either raises during staging, and then the cleanup is
   * skipped, or gets `INPUT_FOLDER` bound and cleaned up unless `--nocleanup`; the cleanup
   * itself never raises here.
   */
  lemma StepWithImaging(inpath: string, mode: string, nocleanup: bool, st: Carried,
                        pid: string, entries: seq<string>)
    requires Usable(GlobPaths(PatientDir(inpath, pid), entries)) != []
    ensures var t := Step(inpath, mode, nocleanup, st, pid, entries);
      && !t.outcome.NoImaging?
      && (t.outcome.Crashed? ==> t.after.removals == st.removals && t.after.inputFolder == st.inputFolder)
      && (t.outcome.Inferred? ==>
            && t.after.inputFolder.Some?
            && t.after.removals == st.removals + (if nocleanup then [] else [t.after.inputFolder.value]))
  {
  }

  /**
   * With distinct directory entries, a patient that reaches inference ran the models of the
   * branch its own files select, whatever an earlier patient left behind: the branch is the
   * one `Lookup` gives for the patient's available names, every file was copied under that
   * branch's remap, and the command recorded is the one `--mode` selects for that branch.
   */
  lemma StepRunsOwnModels(inpath: string, mode: string, nocleanup: bool, st: Carried,
                          pid: string, entries: seq<string>)
    requires Distinct(entries) && forall i :: 0 <= i < |entries| ==> '/' !in entries[i]
    ensures var t := Step(inpath, mode, nocleanup, st, pid, entries);
      var usable := Usable(GlobPaths(PatientDir(inpath, pid), entries));
      var found := Lookup(Available(usable));
      t.outcome.Inferred? ==>
        && usable != [] && found.Some? && t.after.selected == found
        && t.after.copies == st.copies + CopyPlan(usable, pid, Some(Chain()[found.value].revisedFilenames)).copies
        && t.outcome.command == CommandFor(mode, InputFolder(usable[|usable| - 1], pid),
                                           OutputFolder(usable[|usable| - 1], pid),
                                           TissueModel(found.value), AbnormalityModel(found.value))
        && t.after.commands == st.commands + Launched(t.outcome.command)
  {
    var usable := Usable(GlobPaths(PatientDir(inpath, pid), entries));
    if usable != [] {
      var chosen := Chosen(st, Available(usable));
      if CopyPlan(usable, pid, RemapOf(chosen)).failure.None? && Lookup(Available(usable)).None? {
        assert chosen == st;
        MatchedWhenStaged(inpath, pid, entries, RemapOf(st));
      }
    }
  }
}
