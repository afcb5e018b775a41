# autosegment — a Dafny model of the per-patient segmentation pipeline

`autosegment.py` runs over a list of patient identifiers. For each patient it does five things:

- It finds the `*gz` image volumes in the patient directory and drops those whose path contains `mask`.
- It turns the remaining file names into the list of available MRI sequences (FLAIR, T1, T1CE, T2).
- It compares that list with a catalogue of pre-trained models. A chain of fifteen `if` statements does this, one per non-empty set of sequences. Each `if` assigns a tissue-class model identifier, an abnormality model identifier and a file-name remap.
- It copies every volume into `segmentation/tmpdir/` under the positional name the remap gives it (`image_0000.nii.gz`, ...).
- It builds the `nnUNet_predict` command line for the model that `--mode` selects, and removes the staging folder unless `--nocleanup` is given.

The model keeps the script's structure:

- `Strings`: the Python string operations the script relies on.
  - code-point order and `sorted`;
  - `in` on strings;
  - `str.replace`;
  - `split('/')` and `'/'.join`.
- `MriSequences`: the four sequence types and the order `sorted` puts their names in.
- `Catalogue`:
  - the thirty model identifiers and the fifteen branches of the chain, as data;
  - the chain read as a table lookup;
  - proofs that every non-empty sequence set has exactly one branch, and that every remap is the positional one.
- `Discovery`: from directory entries to `sequences_available`.
- `Staging`:
  - the copy loop as a plan of copies that stops at the first exception;
  - the two output folders;
  - the command line.
- `Pipeline`: the script's loop as a class `Autosegment`.
  - Its fields are the module-level variables that survive from one patient to the next: `tissue_class_model`, `abnormality_model`, `revised_filenames` and `INPUT_FOLDER`.
  - Logs of copies, commands and removals stand in for the file system and the subprocess.
  - The functions `Step` (one iteration, as a function of the state the previous patient left) and `Run` (the fold of these steps over the subject list) specify the class's methods.

The model's main result is about stale state. When no branch matches a patient's files, the variables keep the previous patient's values. Even so, a patient whose files match nothing can never get past staging (`Staging.UnmatchedNeverStages`, `Pipeline.MatchedWhenStaged`). `Pipeline.Autosegment.ProcessPatient` performs exactly one `Pipeline.Step` of the state the previous patient left, and `Pipeline.StepRunsOwnModels` shows that, for a directory with distinct entries, every command line such a step records names the models the patient's own files select. `Pipeline.Autosegment.ProcessAll` performs `Pipeline.Run`, the fold of these steps over the subject list.

The script defines 30 task lists (`Task890` to `Task919`): one tissue and one abnormality identifier for each of the 15 non-empty sets. The chain assigns all 30 of them.

## Model

| member | source | states |
|---|---|---|
| Strings.SortSorted | autosegment.py:113 | `sorted` returns an ordered permutation of its input |
| Strings.SortIsUnique | autosegment.py:120 | any ordered permutation of a list is the list `sorted` returns, so the result depends only on the multiset of names |
| Strings.InsertSorted | autosegment.py:113 | inserting into an ordered list keeps it ordered and adds exactly one occurrence |
| Strings.ContainsAt | autosegment.py:114 | the `'mask' in p` test holds when the pattern occurs at some position |
| Strings.ContainsWitness | autosegment.py:114 | the `'mask' in p` test holds only when the pattern occurs at some position |
| Strings.ReplaceSkips | autosegment.py:121-122 | `str.replace` leaves a prefix untouched when the prefix does not hold the pattern's first character |
| Strings.Split | autosegment.py:118 | `split('/')` gives at least one part, and no part contains `/` |
| Strings.JoinSplit | autosegment.py:243 | `'/'.join` of the split row rebuilds the original path (`raw_fname`) |
| Strings.SplitJoin | autosegment.py:118 | splitting a join of `/`-free parts gives those parts back |
| MriSequences.RankOrder | autosegment.py:41 | lists a set of sequence types once each, in increasing rank, holding exactly the set's members |
| MriSequences.SortSpellings | autosegment.py:46-81 | `sorted` on distinct sequence spellings equals the rank-ordered spellings of the types present |
| MriSequences.SpelledDistinct | autosegment.py:41 | distinct sequence types have distinct spellings |
| MriSequences.RankedNamesInjective | autosegment.py:46-81 | different sets of types have different sorted name lists |
| Catalogue.Digits | autosegment.py:46-81 | the task number in an identifier has three digits |
| Catalogue.ModelNameInjective | autosegment.py:46-81 | different task numbers give different model identifiers |
| Catalogue.PositionalRemapKeys | autosegment.py:130 | the positional remap renames exactly the files of the listed types |
| Catalogue.PositionalRemapAt | autosegment.py:130 | the file of the `k`-th listed type is renamed to `image_000k.nii.gz` |
| Catalogue.PositionalRemapInjective | autosegment.py:130 | no two files are renamed to the same positional name |
| Catalogue.BranchShape | autosegment.py:127-239 | every branch has the common shape: a non-empty set of types, both sorted lists equal to its rank-ordered names, the positional remap, and two different task numbers |
| Catalogue.SlotCovers | autosegment.py:127-239 | every non-empty set of sequence types is the set of some branch |
| Catalogue.SlotOfBranch | autosegment.py:127-239 | each branch is the one at the slot of its own set |
| Catalogue.SeqSetsDistinct | autosegment.py:127-239 | different branches are for different sets of types |
| Catalogue.FiresExactly | autosegment.py:127 | a branch's condition holds exactly when the available list is the sorted names of its set |
| Catalogue.AtMostOneFires | autosegment.py:127-239 | at most one condition of the chain holds for any list, so the order of the independent `if`s does not matter |
| Catalogue.FirstFiring | autosegment.py:127-239 | the first branch from `k` on whose condition holds, with none before it |
| Catalogue.Lookup | autosegment.py:127-239 | the branch whose condition holds, or none exactly when no condition holds |
| Catalogue.Resolve | autosegment.py:127-239 | the selected branch belongs to the chain and its condition holds; no branch fires when it selects none |
| Catalogue.LookupUnique | autosegment.py:127-239 | a branch whose condition holds is the one the lookup returns |
| Catalogue.LookupAt | autosegment.py:127-239 | a branch's condition holds if and only if it is the branch the lookup returns |
| Catalogue.LastFiringIsLookup | autosegment.py:127-239 | among the first `k` independent `if`s, the last whose condition holds is the lookup's branch when that lies below `k`, and there is none otherwise |
| Catalogue.ResolveComplete | autosegment.py:127-239 | for every non-empty set, its sorted names select the branch for exactly that set |
| Catalogue.ResolveSound | autosegment.py:127-239 | a selected branch was selected because the names are the sorted names of its set |
| Catalogue.ResolveNone | autosegment.py:127-239 | the chain selects nothing exactly when the names are not the sorted names of any non-empty set |
| Catalogue.ResolvedSorted | autosegment.py:127-239 | the chain fires only on a strictly sorted list of names |
| Catalogue.RemapDomain | autosegment.py:130 | a branch's remap renames exactly the files `SEQ.nii.gz` of its own types |
| Catalogue.RemapPositions | autosegment.py:130 | a branch's remap sends the file of the `k`-th sorted name to `image_000k.nii.gz` |
| Catalogue.RemapInjective | autosegment.py:130 | within one remap, no two files get the same positional name |
| Catalogue.TasksDistinct | autosegment.py:128-129 | the two task numbers of a branch differ, and so do those of different branches |
| Catalogue.ModelsDistinct | autosegment.py:128-129 | no identifier is used for both tasks, and no two branches assign the same identifier |
| Discovery.PatientDir | autosegment.py:91 | the patient directory ends in `/` |
| Discovery.GlobNames | autosegment.py:113-120 | the file names of the paths `glob` reports are the directory entries themselves, and distinct entries give distinct paths |
| Discovery.DropMasks | autosegment.py:114 | keeps exactly the paths that do not contain `mask` |
| Discovery.DropMasksSorted | autosegment.py:114 | the mask filter keeps a sorted list sorted |
| Discovery.DropMasksDistinct | autosegment.py:114 | the mask filter keeps a list free of repetitions |
| Discovery.Usable | autosegment.py:113-114 | the usable files are sorted and are exactly the found paths without `mask` |
| Discovery.LastComponent | autosegment.py:118 | the last `/` component contains no `/` |
| Discovery.Available | autosegment.py:118-122 | one available name per usable file |
| Discovery.NoUsableImaging | autosegment.py:116 | the warning branch is taken exactly when every found path contains `mask` |
| Discovery.LastOfPatientPath | autosegment.py:118 | the file name of a path `glob` reports is the directory entry itself |
| Discovery.StripCanonical | autosegment.py:121-122 | `SEQ.nii.gz` is stripped to the sequence name |
| Discovery.StripPrefixed | autosegment.py:121-122 | `image_SEQ.nii.gz` is stripped to the sequence name as well |
| Discovery.CanonicalAvailable | autosegment.py:118-122 | files named `SEQ.nii.gz` for distinct types yield the rank-ordered names of those types |
| Discovery.SingleAvailable | autosegment.py:118-122 | one usable file yields its stripped file name |
| Discovery.PairAvailable | autosegment.py:118-122 | two files of one directory yield their stripped names in the order of their raw names |
| Discovery.UsableNamesDistinct | autosegment.py:113-118 | distinct `/`-free entries give usable files with distinct file names |
| Staging.Destination | autosegment.py:245 | a file is copied into `INPUT_FOLDER` under the name the remap gives it |
| Staging.CopyPlan | autosegment.py:242-246 | the loop makes at most one copy per file, and one per file when nothing is raised |
| Staging.CopyPlanCopies | autosegment.py:242-246 | every copy takes a file from its own path to the destination its remapped raw name gives |
| Staging.CopyPlanFailure | autosegment.py:242-246 | staging succeeds exactly when the remap is bound and holds every raw name; otherwise the exception names the first file not copied |
| Staging.CommandFor | autosegment.py:252-265 | a command is built exactly when the mode is `tissue` or `abnormality` |
| Staging.PredictCommandInjective | autosegment.py:254 | the command line determines the model identifier it runs |
| Staging.ModesDiffer | autosegment.py:252-265 | for every branch, the two modes run the commands of its two identifiers, which differ |
| Staging.SameFolder | autosegment.py:248-249 | all files of one directory are staged into the same input and output folders |
| Staging.PatientFolders | autosegment.py:248-249 | when `--path` ends in `/`, the input folder is the patient's `segmentation/tmpdir/` and the output folder is its `segmentation` folder |
| Staging.DestinationsDistinct | autosegment.py:245 | different files renamed by one remap land on different paths |
| Staging.PrefixedNotRemapped | autosegment.py:130 | `image_SEQ.nii.gz` is never a key of any remap |
| Staging.CanonicalFilesStage | autosegment.py:116-246 | files named `SEQ.nii.gz` select a branch, and staging under its remap raises nothing |
| Staging.CanonicalKeys | autosegment.py:242-246 | each such file's raw name is a key of its branch's remap |
| Staging.UnmatchedNeverStages | autosegment.py:116-246 | with distinct file names and no matching branch, staging fails under any remap an earlier patient left bound |
| Staging.PrefixedFileCrashes | autosegment.py:121-245 | a lone `image_SEQ.nii.gz` selects its branch but raises a KeyError while staging |
| Staging.MixedNamingUnmatched | autosegment.py:120-127 | mixing `T1.nii.gz` with `image_FLAIR.nii.gz` gives an unsorted list that no branch matches |
| Pipeline.Autosegment.constructor | autosegment.py:34-43 | the run starts with the options set, every carried variable unbound and no effects |
| Pipeline.Autosegment.ResolveModels | autosegment.py:127-239 | afterwards the three variables hold the branch the lookup selects, or are unchanged when no branch fires |
| Pipeline.Finish | autosegment.py:270-277 | the cleanup raises exactly when the iteration already raised or, without `--nocleanup`, `INPUT_FOLDER` is unbound; it adds one removal only when it removes a bound folder, and changes nothing else |
| Pipeline.Chosen | autosegment.py:127-239 | the chain selects the branch the lookup finds, or keeps the old one; nothing else changes |
| Pipeline.LaunchTurn | autosegment.py:248-265 | launching always infers and binds `INPUT_FOLDER`, and changes nothing but `INPUT_FOLDER` and the command log |
| Pipeline.StageTurn | autosegment.py:242-265 | staging raises exactly when the copy plan under the carried remap fails, and leaves the selection and the removals alone |
| Pipeline.StepAccumulates | autosegment.py:83-277 | an iteration only appends to the copy, command and removal logs, and keeps the carried branch a branch of the chain |
| Pipeline.StepWithoutImaging | autosegment.py:267-277 | a patient without usable files changes nothing but what the cleanup does: it removes the folder an earlier patient left bound, or raises a NameError |
| Pipeline.StepWithImaging | autosegment.py:116-277 | a patient with usable files either raises during staging and skips the cleanup, or binds `INPUT_FOLDER` and has it removed unless `--nocleanup` |
| Pipeline.StepRunsOwnModels | autosegment.py:116-265 | with distinct entries, a patient that reaches inference selected the branch its own files match, copied every file under that branch's remap, and recorded the command `--mode` selects for that branch |
| Pipeline.RunUnfolds | autosegment.py:83-277 | the run is the first patient's step, then the run over the remaining patients unless that step raised |
| Pipeline.FoldStopsAtCrash | autosegment.py:83 | the loop's outcomes contain no crash before the last one, and the loop stops early only on a crash |
| Pipeline.FirstPatientWithoutImaging | autosegment.py:83-277 | a first patient without usable files, with cleanup enabled, ends the run with a NameError for `INPUT_FOLDER` |
| Pipeline.Autosegment.StageFiles | autosegment.py:242-246 | appends exactly the plan's copies and reports the plan's exception |
| Pipeline.Autosegment.Launch | autosegment.py:248-265 | does what `Pipeline.LaunchTurn` describes: binds `INPUT_FOLDER` from the last file and records the command the mode selects for the selected models |
| Pipeline.Autosegment.StageAndLaunch | autosegment.py:242-265 | does what `Pipeline.StageTurn` describes: on an exception it crashes with `INPUT_FOLDER` and the commands unchanged, otherwise it launches |
| Pipeline.Autosegment.Infer | autosegment.py:116-265 | the chain (`Pipeline.Chosen`) and then `Pipeline.StageTurn`, with the selected branch and the copies stated in terms of the lookup |
| Pipeline.Autosegment.Cleanup | autosegment.py:270-277 | does what `Pipeline.Finish` describes: removes `INPUT_FOLDER` unless `--nocleanup`, and raises NameError while it is unbound |
| Pipeline.Autosegment.ProcessPatient | autosegment.py:83-277 | the outcome, the carried variables and the copy, command and removal logs are exactly those of `Pipeline.Step` from the state before the patient |
| Pipeline.Autosegment.ProcessAll | autosegment.py:83-277 | the outcomes, the final carried state and the logs are exactly those of `Pipeline.Run`; the loop stops at the first crash; a first patient without usable files crashes the run with a NameError during cleanup |
| Pipeline.MatchedWhenStaged | autosegment.py:116-246 | a patient whose staging succeeds under the previous patient's remap has its own matching branch |

## Left out

- File-system effects: `glob` is replaced by the list of matched entries it would report, in `glob`'s order. `shutil.copy` and the `rmtree` of `INPUT_FOLDER` are recorded in logs instead of performed. The removal and recreation of `segmentation/` and `segmentation/tmpdir/` (autosegment.py:93-111) are not modelled, since their `OSError`s are all suppressed.
- The `nnUNet_predict` subprocess: its output and exit status are ignored by the script, and the model only records the command line.
- Argument parsing, `np.loadtxt` of the subject file, `tqdm`, `print` and the per-patient timing (autosegment.py:34-44, 279-285): they do not affect which files are staged or which model runs. The subject list and options are parameters.
- pandas `str.split('/', expand=True)` pads shorter rows with `None` when paths have different numbers of components. All paths of one patient come from one directory, so the model splits each path on its own.
- Staging.PatientFolders: proved only when `--path` ends in `/` and the patient identifier contains no `/`. Otherwise the parent computed at autosegment.py:248 is not the patient directory's parent. For example, the identifier `a/b` with `--path /d/` stages into `/d/a/a/b/segmentation/tmpdir/` rather than `/d/a/b/segmentation/tmpdir/`.
- Model identifiers are built from the task number and the label the script spells (`TaskNNN_BrainTumour2021_<label>`). The label text itself is given as data.
