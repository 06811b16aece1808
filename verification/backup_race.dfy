/** Cleaning up one backup while restores are submitted. The cleaner counts the
    active tasks, removes the file and deletes the row in three steps; a submission
    finds the row and creates its task in two. Nothing locks them out of each other. */
module BackupRace {
  import opened Options

  /** Where the cleaner stands with this backup. */
  datatype Stage = Ahead | Counted | Removed | Deleted | Skipped

  /** The backup's file and row, the active tasks that restore from it, and the
      submissions that have found the row and not created their task yet. */
  datatype Shared = Shared(stage: Stage, file: bool, row: bool, tasks: set<nat>, found: set<nat>)

  datatype Step =
    | Count
    | Remove
    | Delete
    | Find(task: nat)
    | Start(task: nat)
    | Finish(task: nat)

  /** A library has one active task at most, so a backup has. */
  predicate Enabled(s: Shared, step: Step) {
    match step
    case Count => s.stage == Ahead && s.row
    case Remove => s.stage == Counted
    case Delete => s.stage == Removed
    case Find(task) => s.row && task !in s.found && task !in s.tasks
    case Start(task) => task in s.found && s.tasks == {}
    case Finish(task) => task in s.tasks
  }

  function Apply(s: Shared, step: Step): Shared
    requires Enabled(s, step)
  {
    match step
    case Count => s.(stage := if s.tasks == {} then Counted else Skipped)
    case Remove => s.(file := false, stage := Removed)
    case Delete => s.(row := false, stage := Deleted)
    case Find(task) => s.(found := s.found + {task})
    case Start(task) => s.(tasks := s.tasks + {task}, found := s.found - {task})
    case Finish(task) => s.(tasks := s.tasks - {task})
  }

  /** The cleaner finds no task only while no submission has found the row, and no
      submission finds the row while the cleaner is past its count. */
  predicate Apart(s: Shared, step: Step) {
    match step
    case Count => s.tasks == {} ==> s.found == {}
    case Find(_) => s.stage != Counted && s.stage != Removed
    case _ => true
  }

  /** Past the count no restore is active or on its way; up to it, and when the
      backup is skipped, nothing is deleted. */
  ghost predicate Inv(s: Shared) {
    match s.stage
    case Ahead => s.file && s.row
    case Skipped => s.file && s.row
    case Counted => s.file && s.row && s.tasks == {} && s.found == {}
    case Removed => !s.file && s.row && s.tasks == {} && s.found == {}
    case Deleted => !s.file && !s.row && s.tasks == {} && s.found == {}
  }

  /** Every active restore has its source. */
  ghost predicate SourcesExist(s: Shared) {
    s.tasks != {} ==> s.file && s.row
  }

  ghost function Run(s: Shared, steps: seq<Step>, apart: bool): Option<Shared>
    decreases |steps|
  {
    if steps == [] then Some(s)
    else if Enabled(s, steps[0]) && (apart ==> Apart(s, steps[0])) then Run(Apply(s, steps[0]), steps[1..], apart)
    else None
  }

  /** A RESTORE KEEPS ITS SOURCE. In every interleaving in which counting and finding
      are apart, the file and the row of a backup last as long as a restore from it
      is active. */
  lemma {:induction false} ApartRunsKeepSources(s: Shared, steps: seq<Step>)
    requires Inv(s) && Run(s, steps, true).Some?
    ensures Inv(Run(s, steps, true).value) && SourcesExist(Run(s, steps, true).value)
    decreases |steps|
  {
    if steps != [] {
      ApartRunsKeepSources(Apply(s, steps[0]), steps[1..]);
    }
  }

  lemma RunTwo(s: Shared, first: Step, second: Step)
    requires Enabled(s, first) && Enabled(Apply(s, first), second)
    ensures Run(s, [first, second], false) == Some(Apply(Apply(s, first), second))
  {
    assert [first, second][1..] == [second] && [second][1..] == [];
    assert Run(Apply(s, first), [second], false) == Some(Apply(Apply(s, first), second));
  }

  lemma RunOne(s: Shared, step: Step)
    requires Enabled(s, step)
    ensures Run(s, [step], false) == Some(Apply(s, step))
  {
    assert [step][1..] == [];
  }

  /** EXACTLY THEN. Whenever a step is not apart, some continuation leaves an active
      restore without the file it restores from. */
  lemma NotApartLosesSource(s: Shared, step: Step) returns (steps: seq<Step>)
    requires Inv(s) && Enabled(s, step) && !Apart(s, step)
    ensures var end := Run(Apply(s, step), steps, false);
            end.Some? && end.value.tasks != {} && !end.value.file
  {
    var s1 := Apply(s, step);
    match step
    case Count =>
      var task :| task in s.found;
      steps := [Start(task), Remove];
      RunTwo(s1, steps[0], steps[1]);
    case Find(task) =>
      if s.stage == Counted {
        steps := [Start(task), Remove];
        RunTwo(s1, steps[0], steps[1]);
      } else {
        steps := [Start(task)];
        RunOne(s1, steps[0]);
      }
  }

  /** From the start: a submission finds the row, the cleaner counts no task, the task
      is created, and the cleaner removes the file. */
  lemma SourceLostFromTheStart(task: nat)
    ensures var s := Shared(Ahead, true, true, {}, {});
            && Inv(s)
            && Enabled(s, Find(task)) && Enabled(Apply(s, Find(task)), Count)
            && var end := Run(Apply(Apply(s, Find(task)), Count), [Start(task), Remove], false);
               end.Some? && end.value.tasks == {task} && !end.value.file && end.value.row
  {
    var s := Apply(Apply(Shared(Ahead, true, true, {}, {}), Find(task)), Count);
    RunTwo(s, Start(task), Remove);
  }
}
