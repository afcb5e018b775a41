/**
 * Staging and the inference command (autosegment.py:242-265): every usable file is copied under
 * `<parent>/<patient_id>/segmentation/tmpdir/` with the name the selected remap gives its raw
 * file name, and one `nnUNet_predict` command line is built for the selected model.
 */
module Staging {
  import opened Wrappers
  import opened Strings
  import opened MriSequences
  import opened Catalogue
  import opened Discovery

  /** An uncaught Python exception, which ends the whole run. */
  datatype Crash = KeyError(key: string) | NameError(name: string)

  /** One `shutil.copy(source, destination)`. */
  datatype Copy = Copy(source: string, destination: string)

  /** The copies the staging loop makes, and the exception that stopped it, if any. */
  datatype Plan = Plan(copies: seq<Copy>, failure: Option<Crash>)

  /** `'/'.join(row[:len(row)-2])`: the path without its last two components. */
  function Parent(p: string): string {
    var parts := Split(p);
    Join(parts[..if |parts| >= 2 then |parts| - 2 else 0])
  }

  /** `INPUT_FOLDER`, computed from the last staged path. */
  function InputFolder(p: string, pid: string): string {
    Parent(p) + "/" + pid + "/" + "segmentation/tmpdir/"
  }

  /** `OUTPUT_FOLDER`, with the doubled `/` the script writes. */
  function OutputFolder(p: string, pid: string): string {
    Parent(p) + "/" + pid + "/" + "/segmentation/"
  }

  /** `revised_label_path`: where the file at `p` is copied when its new name is `target`. */
  function Destination(p: string, pid: string, target: string): (r: string)
    ensures r == InputFolder(p, pid) + target
  {
    Parent(p) + "/" + pid + "/segmentation/tmpdir/" + target
  }

  /**
   * The staging loop over the usable paths in order: the raw file name is looked up in
   * `revised_filenames` (absent before any branch has fired: a NameError), and a missing key
   * raises a KeyError after the earlier files have been copied. Every copy made takes a file
   * from its own path to the destination its remapped name gives.
   */
  function CopyPlan(paths: seq<string>, pid: string, remap: Option<map<string, string>>): (r: Plan)
    ensures |r.copies| <= |paths|
    ensures r.failure.None? ==> |r.copies| == |paths|
    decreases |paths|
  {
    if paths == [] then Plan([], None)
    else if remap.None? then Plan([], Some(NameError("revised_filenames")))
    else
      var name := LastComponent(paths[0]);
      if name !in remap.value then Plan([], Some(KeyError(name)))
      else
        var rest := CopyPlan(paths[1..], pid, remap);
        Plan([Copy(Join(Split(paths[0])), Destination(paths[0], pid, remap.value[name]))] + rest.copies,
             rest.failure)
  }

  /** Every copy made takes a file from its own path to the destination its remapped name gives. */
  lemma {:induction false} CopyPlanCopies(paths: seq<string>, pid: string, remap: Option<map<string, string>>)
    ensures var r := CopyPlan(paths, pid, remap);
      forall i :: 0 <= i < |r.copies| ==>
        && remap.Some? && LastComponent(paths[i]) in remap.value
        && r.copies[i] == Copy(paths[i], Destination(paths[i], pid, remap.value[LastComponent(paths[i])]))
    decreases |paths|
  {
    if paths != [] && remap.Some? && LastComponent(paths[0]) in remap.value {
      CopyPlanCopies(paths[1..], pid, remap);
      JoinSplit(paths[0]);
      var r := CopyPlan(paths, pid, remap);
      forall i | 0 <= i < |r.copies|
        ensures r.copies[i] == Copy(paths[i], Destination(paths[i], pid, remap.value[LastComponent(paths[i])]))
      {
        if i > 0 {
          assert r.copies[i] == CopyPlan(paths[1..], pid, remap).copies[i - 1];
          assert paths[1..][i - 1] == paths[i];
        }
      }
    }
  }

  /** One step of the plan from position `i` on: the file at `i` is either copied or raises. */
  lemma PlanStep(paths: seq<string>, i: nat, pid: string, remap: Option<map<string, string>>)
    requires i < |paths|
    ensures CopyPlan(paths[i..], pid, remap) ==
      if remap.None? then Plan([], Some(NameError("revised_filenames")))
      else if LastComponent(paths[i]) !in remap.value then Plan([], Some(KeyError(LastComponent(paths[i]))))
      else Plan([Copy(paths[i], Destination(paths[i], pid, remap.value[LastComponent(paths[i])]))]
                  + CopyPlan(paths[i + 1..], pid, remap).copies,
                CopyPlan(paths[i + 1..], pid, remap).failure)
  {
    assert paths[i..][0] == paths[i] && paths[i..][1..] == paths[i + 1..];
    JoinSplit(paths[i]);
  }

  /**
   * Staging stops exactly when `revised_filenames` is unset or some raw file name is missing
   * from it; the exception names the first file that was not copied.
   */
  lemma {:induction false} CopyPlanFailure(paths: seq<string>, pid: string, remap: Option<map<string, string>>)
    ensures var r := CopyPlan(paths, pid, remap);
      r.failure.None? <==> paths == [] || (remap.Some? && forall p :: p in paths ==> LastComponent(p) in remap.value)
    ensures var r := CopyPlan(paths, pid, remap);
      r.failure.Some? ==>
        && |r.copies| < |paths|
        && r.failure.value == (if remap.None? then NameError("revised_filenames")
                               else KeyError(LastComponent(paths[|r.copies|])))
        && (remap.Some? ==> LastComponent(paths[|r.copies|]) !in remap.value)
    decreases |paths|
  {
    if paths != [] && remap.Some? && LastComponent(paths[0]) in remap.value {
      CopyPlanFailure(paths[1..], pid, remap);
      assert forall p :: p in paths <==> p == paths[0] || p in paths[1..] by {
        assert paths == [paths[0]] + paths[1..];
      }
      var r := CopyPlan(paths, pid, remap);
      var rest := CopyPlan(paths[1..], pid, remap);
      assert |r.copies| == 1 + |rest.copies| && r.failure == rest.failure;
      if r.failure.Some? {
        assert paths[|r.copies|] == paths[1..][|rest.copies|];
      }
    }
  }

  /** `'nnUNet_predict -i ' + INPUT_FOLDER + ' -o ' + OUTPUT_FOLDER + ' -t ' + model + ' -f all'`. */
  function PredictCommand(input: string, output: string, model: string): string {
    "nnUNet_predict -i " + input + " -o " + output + " -t " + model + " -f all"
  }

  /** The command `--mode` selects: the tissue model, the abnormality model, or none at all. */
  function CommandFor(mode: string, input: string, output: string, tissue: string, abnormality: string)
    : (r: Option<string>)
    ensures r.Some? <==> mode == "tissue" || mode == "abnormality"
  {
    if mode == "tissue" then Some(PredictCommand(input, output, tissue))
    else if mode == "abnormality" then Some(PredictCommand(input, output, abnormality))
    else None
  }

  /** The command line determines the model it runs. */
  lemma PredictCommandInjective(input: string, output: string, m1: string, m2: string)
    requires PredictCommand(input, output, m1) == PredictCommand(input, output, m2)
    ensures m1 == m2
  {
    var head := "nnUNet_predict -i " + input + " -o " + output + " -t ";
    var c1, c2 := PredictCommand(input, output, m1), PredictCommand(input, output, m2);
    assert c1 == head + m1 + " -f all" && c2 == head + m2 + " -f all";
    assert |m1| == |m2|;
    assert c1[|head|..|head| + |m1|] == m1;
    assert c2[|head|..|head| + |m2|] == m2;
  }

  /** For every branch, the two modes run different commands, one per model identifier. */
  lemma ModesDiffer(i: nat, input: string, output: string)
    requires i < |Chain()|
    ensures var b := Chain()[i];
      && CommandFor("tissue", input, output, ModelName(b.tissueTask), ModelName(b.abnormalityTask))
         == Some(PredictCommand(input, output, ModelName(b.tissueTask)))
      && CommandFor("abnormality", input, output, ModelName(b.tissueTask), ModelName(b.abnormalityTask))
         == Some(PredictCommand(input, output, ModelName(b.abnormalityTask)))
      && PredictCommand(input, output, ModelName(b.tissueTask))
         != PredictCommand(input, output, ModelName(b.abnormalityTask))
  {
    var b := Chain()[i];
    BranchShape(i);
    if PredictCommand(input, output, ModelName(b.tissueTask))
       == PredictCommand(input, output, ModelName(b.abnormalityTask)) {
      PredictCommandInjective(input, output, ModelName(b.tissueTask), ModelName(b.abnormalityTask));
      ModelNameInjective(b.tissueTask, b.abnormalityTask);
    }
  }

  /** All files found in one directory are staged into the same folder. */
  lemma SameFolder(d: string, e1: string, e2: string, pid: string)
    requires '/' !in e1 && '/' !in e2
    ensures InputFolder(d + "/" + e1, pid) == InputFolder(d + "/" + e2, pid)
    ensures OutputFolder(d + "/" + e1, pid) == OutputFolder(d + "/" + e2, pid)
  {
    SplitAppend(d, e1);
    SplitAppend(d, e2);
    var parts := Split(d);
    assert (parts + [e1])[..|parts| - 1] == parts[..|parts| - 1] == (parts + [e2])[..|parts| - 1];
  }

  /**
   * When the data path ends in `/`, a patient's files are staged into the folder the script
   * created for that patient (`temporary_working_dir + 'segmentation/tmpdir'`, autosegment.py:109),
   * and the output folder is that patient's `segmentation` folder.
   */
  lemma PatientFolders(inpath: string, pid: string, entry: string)
    requires |inpath| > 0 && inpath[|inpath| - 1] == '/'
    requires '/' !in pid && '/' !in entry
    ensures InputFolder(PatientDir(inpath, pid) + entry, pid) == PatientDir(inpath, pid) + "segmentation/tmpdir/"
    ensures OutputFolder(PatientDir(inpath, pid) + entry, pid) == PatientDir(inpath, pid) + "/segmentation/"
  {
    var base := inpath[..|inpath| - 1];
    assert inpath == base + "/";
    var p := PatientDir(inpath, pid) + entry;
    assert p == (base + "/" + pid) + "/" + entry;
    SplitAppend(base + "/" + pid, entry);
    SplitAppend(base, pid);
    var parts := Split(base);
    assert Split(p) == parts + [pid] + [entry];
    assert Split(p)[..|Split(p)| - 2] == parts;
    JoinSplit(base);
    assert Parent(p) == base;
  }

  /** Different files of one directory, renamed by one branch's remap, land on different paths. */
  lemma DestinationsDistinct(i: nat, d: string, e1: string, e2: string, pid: string)
    requires i < |Chain()|
    requires e1 in Chain()[i].revisedFilenames && e2 in Chain()[i].revisedFilenames && e1 != e2
    requires '/' !in e1 && '/' !in e2
    ensures var remap := Chain()[i].revisedFilenames;
      Destination(d + "/" + e1, pid, remap[e1]) != Destination(d + "/" + e2, pid, remap[e2])
  {
    var remap := Chain()[i].revisedFilenames;
    SameFolder(d, e1, e2, pid);
    RemapInjective(i, e1, e2);
    var f := InputFolder(d + "/" + e1, pid);
    assert (f + remap[e1])[|f|..] == remap[e1];
    assert (f + remap[e2])[|f|..] == remap[e2];
  }

  /** A file name `image_SEQ.nii.gz` is never a key of any branch's remap. */
  lemma PrefixedNotRemapped(i: nat, s: Seq)
    requires i < |Chain()|
    ensures "image_" + FileName(s) !in Chain()[i].revisedFilenames
  {
    var f := "image_" + FileName(s);
    RemapDomain(i, f);
    forall t ensures f != FileName(t) {
      assert f[0] == 'i' && FileName(t)[0] == Name(t)[0];
    }
  }

  /**
   * Files named exactly `SEQ.nii.gz` stage without error once their branch is selected: every
   * raw name is a key of the remap.
   */
  lemma CanonicalFilesStage(usable: seq<string>, pid: string)
    requires usable != []
    requires Distinct(Lasts(usable))
    requires forall i :: 0 <= i < |usable| ==> LastComponent(usable[i]) in Spellings(".nii.gz")
    ensures Resolve(Available(usable)).Some?
    ensures CopyPlan(usable, pid, Some(Resolve(Available(usable)).value.revisedFilenames)).failure.None?
  {
    var P := Present(Lasts(usable), ".nii.gz");
    CanonicalAvailable(usable);
    var x := Lasts(usable)[0];
    var s0 :| s0 in AllSeqs && Spell(s0, ".nii.gz") == x;
    assert s0 in P;
    ResolveComplete(P);
    CanonicalKeys(usable, Slot(P));
    CopyPlanFailure(usable, pid, Some(Chain()[Slot(P)].revisedFilenames));
  }

  lemma CanonicalKeys(usable: seq<string>, k: nat)
    requires k < |Chain()|
    requires SeqSet(Chain()[k]) == Present(Lasts(usable), ".nii.gz")
    requires forall i :: 0 <= i < |usable| ==> LastComponent(usable[i]) in Spellings(".nii.gz")
    ensures forall p :: p in usable ==> LastComponent(p) in Chain()[k].revisedFilenames
  {
    forall p | p in usable ensures LastComponent(p) in Chain()[k].revisedFilenames {
      var j :| 0 <= j < |usable| && usable[j] == p;
      var y := Lasts(usable)[j];
      var s :| s in AllSeqs && Spell(s, ".nii.gz") == y;
      assert s in Present(Lasts(usable), ".nii.gz");
      RemapDomain(k, y);
    }
  }

  /**
   * A non-empty list of files that no branch matches never gets past staging, whatever remap an
   * earlier patient left behind: its raw names cannot all be keys of one branch's remap, since
   * then they would be the files of a set of types, and every such set has its branch.
   * So identifiers left over from an earlier patient never reach a command line.
   */
  lemma UnmatchedNeverStages(usable: seq<string>, pid: string, remap: Option<map<string, string>>)
    requires usable != [] && Distinct(Lasts(usable))
    requires Resolve(Available(usable)).None?
    requires remap.Some? ==> exists i :: 0 <= i < |Chain()| && remap.value == Chain()[i].revisedFilenames
    ensures CopyPlan(usable, pid, remap).failure.Some?
  {
    if CopyPlan(usable, pid, remap).failure.None? {
      var i :| 0 <= i < |Chain()| && remap.value == Chain()[i].revisedFilenames;
      CopyPlanFailure(usable, pid, remap);
      forall j | 0 <= j < |usable| ensures LastComponent(usable[j]) in Spellings(".nii.gz") {
        var y := LastComponent(usable[j]);
        assert usable[j] in usable;
        RemapDomain(i, y);
        var s :| s in SeqSet(Chain()[i]) && y == FileName(s);
        InAllSeqs(s);
      }
      CanonicalFilesStage(usable, pid);
      assert false;
    }
  }

  /**
   * A single file `image_SEQ.nii.gz` is stripped to `SEQ` and selects the branch for that one
   * type, but its raw name is not a key of that branch's remap: staging raises a KeyError.
   */
  lemma PrefixedFileCrashes(inpath: string, pid: string, s: Seq)
    ensures var p := PatientDir(inpath, pid) + ("image_" + FileName(s));
      && Resolve(Available([p])).Some?
      && SeqSet(Resolve(Available([p])).value) == {s}
      && CopyPlan([p], pid, Some(Resolve(Available([p])).value.revisedFilenames)).failure
         == Some(KeyError("image_" + FileName(s)))
  {
    var x := "image_" + FileName(s);
    var p := PatientDir(inpath, pid) + x;
    NameLetters(s);
    assert '/' !in x;
    LastOfPatientPath(inpath, pid, x);
    SingleAvailable(p);
    StripPrefixed(s);
    SingleRanked(s);
    ResolveComplete({s});
    PrefixedNotRemapped(Slot({s}), s);
    CopyPlanFailure([p], pid, Some(Chain()[Slot({s})].revisedFilenames));
  }

  /**
   * Mixing the two namings defeats the match: `T1.nii.gz` sorts before `image_FLAIR.nii.gz`
   * ('T' < 'i'), so the stripped list is `['T1', 'FLAIR']`, which is not sorted and matches no
   * branch, although the list for FLAIR and T1 exists.
   */
  lemma MixedNamingUnmatched(d: string)
    ensures var usable := [d + "/" + FileName(T1), d + "/" + ("image_" + FileName(FLAIR))];
      Available(usable) == [Name(T1), Name(FLAIR)] && Resolve(Available(usable)).None?
  {
    var x1, x2 := FileName(T1), "image_" + FileName(FLAIR);
    assert x1[0] == 'T' && x2[0] == 'i';
    LessAt(x1, x2, 0);
    NameLetters(T1);
    NameLetters(FLAIR);
    PairAvailable(d, x1, x2);
    StripCanonical(T1);
    StripPrefixed(FLAIR);
    var av := Available([d + "/" + x1, d + "/" + x2]);
    assert av == [Name(T1), Name(FLAIR)];
    assert av[1][0] == 'F' && av[0][0] == 'T';
    LessAt(av[1], av[0], 0);
    LessAsymmetric(av[1], av[0]);
    if Resolve(av).Some? {
      ResolvedSorted(av);
      assert false;
    }
  }
}
